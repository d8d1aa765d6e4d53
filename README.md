# DNS client codec: a Dafny model

This project models the message codec of a small Java DNS client (`DnsQuery` and
`DnsResponse`) and proves properties of it. The client does four things:

- It checks its command-line options: a timeout whose 32-bit product `1000 * seconds` is at
  most 60000 ms, 0 to 100 retries, and at most four server octets, each in [0, 255].
- It sizes a request array from the labels of the domain name. It then fills the array in place
  with the 12-byte header and the question (sections 4.1.1, 4.1.2 and 3.1 of RFC 1035).
- It sends the request and retries after each timeout, up to a bound. It checks that the reply
  carries the request's ID.
- It validates the reply's header (QR, RA, RCODE) and reads AA and the section counts.

Modules, one per concern:

- `JavaPrims` (`java.dfy`): Java's signed byte, the `(byte)` cast, `& 0xff`, 32-bit `int`
  wrap-around, and the arithmetic shift `>>`.
- `DnsErrors` (`errors.dfy`): one error per exception the code throws, and the
  `Result`/`Option`/`Check` wrappers that carry them.
- `Bits` (`bits.dfy`): `getWord`, `getBit` and `getRCode`. The two classes declare identical
  copies of these (DnsQuery.java:212-222 and DnsResponse.java:78-88); the model has one.
- `JavaSplit` (`split.dfy`): `String.split("\\.")`, which cuts a domain name into labels.
- `QueryWire` (`wire.dfy`): the request bytes as functions. This includes how a name server
  reads the QNAME back.
- `Response` (`response.dfy`): the `DnsResponse` class and the functions that specify it.
- `Query` (`query.dfy`): the `DnsQuery` class, the argument checks and the exchange with its
  retries.

Imperative code stays imperative:

- The constructor's loop writes `serverBytes`, an `array`, in place.
- `updateQNameSize` accumulates into the `qNameSize` field.
- `setHeaderBytes` and `setQuestionBytes` fill the request `array` with a moving index.
- `sendQuery` recurses on the retry counter.

Each of these methods is proved against a function on values: `ParseFrom`, `QNameSize`,
`Header`, `Question`, `RequestFor` and `Exchange`. The properties are proved about those
functions.

The random ID becomes a parameter. The socket becomes a scripted network: a sequence of attempts,
each holding the ID drawn for that request and either "timed out" or the datagram received.

The code is followed where its behaviour is surprising:

- `ARCount` is read from bytes 8-9, like `NSCount`, so the two are always equal. Section 4.1.1
  of RFC 1035 puts ARCOUNT at bytes 10-11.
- The code has no record walk: `printRecord` returns 0 and the authority and additional loops
  are empty; the model decodes no record either.
- The timeout is checked on the 32-bit product `1000 * seconds`, which can wrap: the model's
  constructor accepts `-t 4294968` with a timeout of 704 ms, as Java does. The check as
  intended is kept apart as `Query.CheckTimeout` (see "## Findings").
- With no `@server` argument, `qNameSize` stays 0. The empty name still splits into one empty
  label, so `setQuestionBytes` writes past the 16-byte array and Java throws
  ArrayIndexOutOfBoundsException. The model returns `Failure(IndexOutOfBounds)`
  (`Query.MissingServerOverruns`).
- With two or more `@server` arguments, `qNameSize` adds up every name. The request then ends
  in zero bytes that belong to no section (`Query.RepeatedServerPadsRequest`).
- The retry state machine re-encodes the request on every attempt, with a fresh ID.

## Model

| member | source | states |
|---|---|---|
| JavaPrims.Wrap32 | Assignment1/DnsClient/src/DnsQuery.java:22 | a 32-bit `int` result is congruent to the exact value modulo 2^32 and equals it when it fits |
| JavaPrims.ToByte | Assignment1/DnsClient/src/DnsQuery.java:61 | `(byte) x` lies in [-128, 127] and is congruent to x modulo 256 |
| JavaPrims.Unsigned | Assignment1/DnsClient/src/DnsQuery.java:213 | `b & 0xff` lies in [0, 255]: b itself when non-negative, b + 256 otherwise |
| JavaPrims.UnsignedOfToByte | Assignment1/DnsClient/src/DnsQuery.java:166 | casting to a byte keeps the low eight bits: `(byte) x & 0xff == x mod 256` |
| JavaPrims.UnsignedInjective | Assignment1/DnsClient/src/DnsQuery.java:213 | two bytes with the same `& 0xff` value are the same byte |
| Bits.GetWord | Assignment1/DnsClient/src/DnsQuery.java:212-214 | the word lies in [0, 65535]; its high byte is the first unsigned byte, its low byte the second |
| Bits.WordRoundTrip | Assignment1/DnsClient/src/DnsQuery.java:212-214 | splitting a 16-bit word into two bytes and reading them back gives the word |
| Bits.WordEqualIff | Assignment1/DnsClient/src/DnsQuery.java:212-214 | two words are equal exactly when both their bytes are |
| Bits.GetBit | Assignment1/DnsClient/src/DnsQuery.java:216-218 | `getBit` is 0 or 1 |
| Bits.BitOfUnsigned | Assignment1/DnsClient/src/DnsQuery.java:216-218 | for p in 0..7 `getBit(b, p)` is bit p of the unsigned byte, although Java shifts the sign-extended value |
| Bits.BitBeyondByte | Assignment1/DnsClient/src/DnsQuery.java:216-218 | for p in 8..31 `getBit` gives the sign of the byte |
| Bits.GetRCode | Assignment1/DnsClient/src/DnsQuery.java:220-222 | the weighted sum of bits 0 to 3 equals `b & 0x0F` and lies in [0, 15] |
| JavaSplit.Split | Assignment1/DnsClient/src/DnsQuery.java:138 | a name without '.' splits into itself; otherwise into the pieces between dots, with trailing empty pieces dropped; no label contains '.' |
| JavaSplit.DropTrailingEmpty | Assignment1/DnsClient/src/DnsQuery.java:138 | the result is a prefix that ends in a non-empty piece, and only empty pieces are dropped |
| JavaSplit.PiecesJoin | Assignment1/DnsClient/src/DnsQuery.java:138 | joining the pieces with '.' gives back the name |
| JavaSplit.PiecesDotFree | Assignment1/DnsClient/src/DnsQuery.java:138 | no piece between the dots contains a dot |
| JavaSplit.SplitEmptyAndDot | Assignment1/DnsClient/src/DnsQuery.java:138 | "" splits into [""], "." into [] |
| JavaSplit.SplitEdgeDots | Assignment1/DnsClient/src/DnsQuery.java:138 | "a." splits into ["a"], ".a" into ["", "a"]: trailing empty labels go, leading ones stay |
| JavaSplit.SplitDoubleDot | Assignment1/DnsClient/src/DnsQuery.java:138 | "a..b" splits into ["a", "", "b"]: interior empty labels stay |
| QueryWire.Header | Assignment1/DnsClient/src/DnsQuery.java:145-159 | the header is 12 bytes: the ID, then zeros except RD (byte 2) and the low byte of QDCOUNT (byte 5), which are 1 |
| QueryWire.QNameSize | Assignment1/DnsClient/src/DnsQuery.java:137-143 | the size updateQNameSize adds is the length of the encoded QNAME, at least one octet per label plus the root |
| QueryWire.Question | Assignment1/DnsClient/src/DnsQuery.java:161-184 | the question is QNameSize + 4 bytes: the QNAME ending in the zero octet, then QTYPE 0x00 and the type code, then QCLASS 0x00 0x01 |
| QueryWire.HeaderLayout | Assignment1/DnsClient/src/DnsQuery.java:145-159 | the header is 12 bytes: the ID, flags 0x0100 (QR 0, OPCODE 0, RD 1), QDCOUNT 1 and three zero counts |
| QueryWire.LabelsSizeIsEncodedLength | Assignment1/DnsClient/src/DnsQuery.java:137-143 | the sum of 1 + length over the labels is the number of bytes the labels are written as |
| QueryWire.QuestionLayout | Assignment1/DnsClient/src/DnsQuery.java:161-184 | the QNAME takes exactly QNameSize bytes and ends in a zero octet; the question is 4 bytes longer, ending with QTYPE 15/2/1 for MX/NS/other and QCLASS 1 |
| QueryWire.ReadNameRoundTrip | Assignment1/DnsClient/src/DnsQuery.java:163-169 | labels of 1 to 63 one-octet characters, written as `setQuestionBytes` writes them, are read back by an RFC 1035 reader as the same labels |
| QueryWire.EmptyLabelEndsName | Assignment1/DnsClient/src/DnsQuery.java:163-169 | an empty label, which no check refuses, is written as a zero octet, so a reader stops the name there |
| Response.RCodeError | Assignment1/DnsClient/src/DnsResponse.java:30-43 | RCODE 1 to 5 each raise an error; every other value passes |
| Response.RCodeErrorsDistinct | Assignment1/DnsClient/src/DnsResponse.java:30-43 | the five RCODE errors are pairwise distinct |
| Response.ValidateResponse | Assignment1/DnsClient/src/DnsResponse.java:23-44 | QR clear gives "not a response"; otherwise RA clear gives "no recursion"; otherwise the error of the low nibble of byte 3 |
| Response.NotAResponseIffQueryBit | Assignment1/DnsClient/src/DnsResponse.java:24-26 | "not a response" is raised exactly when bit 7 of byte 2 is 0 |
| Response.RecursionUnsupportedIff | Assignment1/DnsClient/src/DnsResponse.java:27-29 | "no recursion" is raised exactly when QR is set and bit 7 of byte 3 is 0 |
| Response.ValidIff | Assignment1/DnsClient/src/DnsResponse.java:23-44 | a header passes exactly when QR and RA are set and RCODE is 0 or 6 to 15 |
| Response.Decode | Assignment1/DnsClient/src/DnsResponse.java:12-53 | it fails exactly when validation fails, with that error; otherwise AA is bit 2 of byte 2, ANCOUNT and NSCOUNT are the words at bytes 6-7 and 8-9, and ARCOUNT equals NSCOUNT |
| Response.DnsResponse.constructor | Assignment1/DnsClient/src/DnsResponse.java:12-16 | it stores the data, query size and type, and sets AA from bit 2 of byte 2 |
| Response.DnsResponse.UpdateRecordCounts | Assignment1/DnsClient/src/DnsResponse.java:46-53 | ANCount is the word at bytes 6-7, NSCount the word at 8-9, and ARCount is read from 8-9 again |
| Response.DnsResponse.PrintRecord | Assignment1/DnsClient/src/DnsResponse.java:74-76 | a record is counted as taking no bytes, as the stub returns 0 |
| Response.DnsResponse.PrintRecords | Assignment1/DnsClient/src/DnsResponse.java:55-76 | the record index ends where it started, at querySize |
| Response.NewDnsResponse | Assignment1/DnsClient/src/DnsResponse.java:12-21 | validation runs first: an invalid header gives its error and no object; a valid one gives an object whose fields are `Decode`'s summary |
| Query.TimeoutAsWrittenAcceptsOverlong | Assignment1/DnsClient/src/DnsQuery.java:22-27 | as written, a timeout of 4294968 s wraps to 704 ms and the constructor accepts it, and 2147484 s wraps to a negative timeout and is accepted too; the intended check refuses 4294968 s |
| Query.TimeoutAsWritten | Assignment1/DnsClient/src/DnsQuery.java:22-27 | where `1000 * seconds` does not wrap, a timeout is accepted exactly when it is at most 60 s and is stored as 1000 times the seconds; any accepted value is at most 60000 and congruent to `1000 * seconds` modulo 2^32 |
| Query.CheckTimeout | Assignment1/DnsClient/src/DnsQuery.java:22-27 | the check as intended: a timeout is accepted exactly when it is at most 60 s, and is then stored as 1000 times the seconds |
| Query.ApplyArg | Assignment1/DnsClient/src/DnsQuery.java:20-71 | one option succeeds exactly when it is acceptable; only `@server` changes the name, and it makes qNameSize grow; the query type stays or becomes MX or NS |
| Query.ParseFrom | Assignment1/DnsClient/src/DnsQuery.java:18-73 | the loop over the arguments never shrinks qNameSize and leaves the query type as it was or MX or NS |
| Query.ParseArgs | Assignment1/DnsClient/src/DnsQuery.java:10-73 | from the field initialisers, an accepted command line leaves a non-negative qNameSize and a query type of A, MX or NS |
| Query.ParseAcceptsIff | Assignment1/DnsClient/src/DnsQuery.java:18-73 | the constructor succeeds exactly when every argument is acceptable: the wrapped 32-bit `1000 * seconds` at most 60000, retries in [0, 100], at most 4 octets each in [0, 255], no unknown option |
| Query.ParseKeepsRanges | Assignment1/DnsClient/src/DnsQuery.java:18-73 | accepted options keep the timeout at most 60000 ms, the retries in [0, 100] and qNameSize non-negative |
| Query.AcceptedArgsInRange | Assignment1/DnsClient/src/DnsQuery.java:18-73 | from the field initialisers, an accepted command line leaves the fields in those ranges |
| Query.ParseSizesServerNames | Assignment1/DnsClient/src/DnsQuery.java:65-66 | qNameSize adds up the sizes of every server name given, while `name` keeps only the last |
| Query.ServerNamesSizeBound | Assignment1/DnsClient/src/DnsQuery.java:137-143 | the sizes added up exceed the last name's size by at least one per extra server argument |
| Query.OneServerSizesName | Assignment1/DnsClient/src/DnsQuery.java:137-143 | with exactly one server argument, qNameSize is the QNAME size of the name |
| Query.RequestFor | Assignment1/DnsClient/src/DnsQuery.java:130-135 | the request is 16 + qNameSize bytes starting with the header; it fails with an index error exactly when qNameSize is below the name's QNAME size |
| Query.OneServerRequestIsExact | Assignment1/DnsClient/src/DnsQuery.java:130-184 | with one server argument the array is exactly header + question: no slot unwritten, no write past the end |
| Query.MissingServerOverruns | Assignment1/DnsClient/src/DnsQuery.java:130-184 | with no server argument the question overruns the array |
| Query.RepeatedServerPadsRequest | Assignment1/DnsClient/src/DnsQuery.java:130-143 | with two or more server arguments the request ends in zero bytes after the question |
| Query.ValidateResponseId | Assignment1/DnsClient/src/DnsQuery.java:202-210 | it throws exactly when the first two bytes of request and response differ, reporting both IDs as words |
| Query.ReceiveBuffer | Assignment1/DnsClient/src/DnsQuery.java:86-97 | the receive buffer is 1024 bytes: the datagram, cut to the buffer, then zeros |
| Query.Exchange | Assignment1/DnsClient/src/DnsQuery.java:75-122 | nothing is sent exactly when the request cannot be built or exceeds 1024 bytes |
| Query.SendsBounded | Assignment1/DnsClient/src/DnsQuery.java:109-117 | an exchange sends at most maxRetries - numRetries + 1 datagrams |
| Query.SilenceUsesEveryRetry | Assignment1/DnsClient/src/DnsQuery.java:109-117 | when every attempt times out, there are exactly maxRetries - numRetries + 1 sends, then RequestTimeoutException |
| Query.OversizedNeverSent | Assignment1/DnsClient/src/DnsQuery.java:85-90 | a request over 1024 bytes is refused with nothing sent |
| Query.MismatchedIdNotRetried | Assignment1/DnsClient/src/DnsQuery.java:105-120 | a reply with another ID ends the exchange after one send with an ID-mismatch error |
| Query.ReplyCountsRetries | Assignment1/DnsClient/src/DnsQuery.java:103-114 | a successful exchange reports as retries the number of sends before the answered one |
| Query.DnsQuery.constructor | Assignment1/DnsClient/src/DnsQuery.java:10-16 | the fields start at type A, 5000 ms, 3 retries, port 53, server 0.0.0.0, empty name, qNameSize 0 |
| Query.DnsQuery.Configure | Assignment1/DnsClient/src/DnsQuery.java:18-73 | after the loop, the fields are what `ParseFrom` gives for the arguments (the timeout checked on the wrapped 32-bit product, as in Java), or the error is the first bad argument's |
| Query.DnsQuery.ApplyOption | Assignment1/DnsClient/src/DnsQuery.java:20-71 | one option sets its field (the timeout to the wrapped 32-bit product), or the error is that option's |
| Query.DnsQuery.SetServer | Assignment1/DnsClient/src/DnsQuery.java:49-66 | more than four octets or an octet outside [0, 255] is refused; otherwise the octets overwrite the front of serverBytes, the name is stored and its size added |
| Query.DnsQuery.UpdateQNameSize | Assignment1/DnsClient/src/DnsQuery.java:137-143 | qNameSize grows by the QNAME size of the name's labels: 1 + length per label, plus 1 for the root |
| Query.DnsQuery.SetHeaderBytes | Assignment1/DnsClient/src/DnsQuery.java:145-159 | bytes 0-11 hold the ID and 0x01,0,0,0x01,0,0,0,0,0,0, and nothing past byte 11 changes |
| Query.DnsQuery.SetQuestionBytes | Assignment1/DnsClient/src/DnsQuery.java:161-184 | it fails exactly when the question does not fit after the header; every slot from 12 up to the end of the question or of the array holds the question's byte, and no other slot changes |
| Query.DnsQuery.WriteLabel | Assignment1/DnsClient/src/DnsQuery.java:163-167 | one label is written as its length byte then its characters cut to 8 bits, as far as the array allows |
| Query.DnsQuery.WriteQuestionEnd | Assignment1/DnsClient/src/DnsQuery.java:169-183 | the root octet, QTYPE 0x00 0x0f/0x02/0x01 and QCLASS 0x00 0x01, as far as the array allows |
| Query.DnsQuery.GetRequestBytes | Assignment1/DnsClient/src/DnsQuery.java:130-135 | the fresh array holds exactly `RequestFor`'s bytes, or the index error where Java would overrun |
| Query.DnsQuery.SendQuery | Assignment1/DnsClient/src/DnsQuery.java:75-122 | the sends and result are those of `Exchange`, the retry state machine |
| Query.LabelPositions | Assignment1/DnsClient/src/DnsQuery.java:163-168 | the k-th label's bytes sit right after the bytes of the labels before it |
| Query.NewDnsQuery | Assignment1/DnsClient/src/DnsQuery.java:18-73 | `new DnsQuery(args)` succeeds exactly when `ParseArgs` does (so `-t 4294968` is accepted with 704 ms, as in Java), and then holds its fields; otherwise it throws that error |

## Left out

- Sockets, `InetAddress`, `send`/`receive` and `close` (DnsQuery.java:81-98) are I/O. They are replaced by a scripted sequence of attempts; once the script runs out, every attempt times out.
- `new Random().nextBytes` (DnsQuery.java:146-147) is randomness. Each attempt carries its ID as data.
- `System.nanoTime`, the elapsed `double` and `DecimalFormat` (DnsQuery.java:95-103) are clock and floating-point display, and are not modelled.
- The model prints nothing. This covers `System.out` output, `printQuery`, `printBytes` and `formatServerAddress`. The retry count shown in the success message is kept as `Reply.retries`.
- `DnsClient.java` (the `main` that prints exceptions) and `DnsDataEntry.java` (an unused bean) are not part of this model.
- `Integer.parseInt`: arguments arrive as already-parsed 32-bit integers, so its NumberFormatException on non-numeric text is not modelled.
- An option given without its value makes `args[++i]` throw ArrayIndexOutOfBoundsException. This is not modelled, because each option arrives already paired with its value.
- An empty argument makes `charAt(0)` throw StringIndexOutOfBoundsException. The model treats it as an unknown argument, which gives `IncorrectArguments` instead.
- `setSoTimeout` rejects a negative timeout and `DatagramPacket` rejects a port outside [0, 65535]. Both happen at the socket, which is not modelled.
- A timeout of 0 (`-t 0`) is accepted, and Java's `setSoTimeout(0)` then waits for a reply without limit. The scripted network still lets such an attempt time out, so `Query.SendsBounded` and `Query.SilenceUsesEveryRetry` also cover runs Java cannot make when the timeout is 0.
- Characters outside one octet are cut to their low 8 bits (`(byte)(int)c`), as in the code. A Dafny `string` holds Unicode scalar values, not Java's UTF-16 units: a character above U+FFFF counts as one character where Java's `label.length()` counts two, and lone surrogates, which a Java string can hold, cannot be written.
- qNameSize: the `int` field can in principle overflow after about 2^31 bytes of names. The model uses unbounded integers there.
- Query.DnsQuery.SetQuestionBytes: states the final contents of every slot, not that each slot is written exactly once.
- The empty `if (numRetries > maxRetries)` (DnsQuery.java:76-78) has no effect and is left out.

## Findings

| source | as written | input that shows it | evidently intended | confidence | as-written member | corrected member |
|---|---|---|---|---|---|---|
| Assignment1/DnsClient/src/DnsQuery.java:22-23 | `1000 * Integer.parseInt(...)` is computed in 32-bit `int` and wraps before the comparison with 60000 | `-t 4294968`: the product wraps to 704 ms and is accepted | a timeout above 60 seconds is refused | not executed | Query.TimeoutAsWrittenAcceptsOverlong | Query.CheckTimeout |
