/** DnsQuery: checks the command-line options, sizes and fills the request
    array in place (sections 4.1.1, 4.1.2 and 3.1 of RFC 1035), checks that a
    reply carries the request's ID, and retries after timeouts up to a bound.
    The socket is replaced by a scripted network: one Attempt per send, each
    carrying the random ID drawn for that request and whether a datagram came
    back before the timeout. */
module Query {
  import opened JavaPrims
  import opened Bits
  import opened JavaSplit
  import opened QueryWire
  import opened DnsErrors
  import Response

  const MAX_TIMEOUT_MS := 60000
  const MAX_RETRIES := 100
  const MAX_OCTETS := 4
  /** The size of the receive buffer, also the largest request sent. */
  const RECEIVE_SIZE := 1024

  type ServerBytes = s: seq<JByte> | |s| == 4 witness [0, 0, 0, 0]

  /** A command-line argument, with the numbers Integer.parseInt would give. */
  datatype Arg =
    | TimeoutOption(seconds: Int32)              // -t seconds
    | RetriesOption(count: Int32)                // -r max-retries
    | PortOption(port: Int32)                    // -p port
    | MxOption                                   // -mx
    | NsOption                                   // -ns
    | ServerOption(octets: seq<Int32>, domain: string)  // @a.b.c.d name
    | Unrecognised                               // anything else

  /** The values of DnsQuery's fields. */
  datatype Config = Config(queryType: string, timeout: int, maxRetries: int, portNumber: int,
                           server: ServerBytes, name: string, qNameSize: int)

  /** The field initialisers. */
  const Defaults := Config("A", 5000, 3, 53, [0, 0, 0, 0], "", 0)

  // ----- the argument checks of the constructor -----

  /** The timeout check as written: `1000 * Integer.parseInt(...)` is
      computed in 32 bits and may wrap before it is compared with 60000. */
  function TimeoutAsWritten(seconds: Int32): (r: Result<Int32>)
    ensures -2147483 <= seconds <= 2147483 ==> (r.Success? <==> seconds <= 60)
    ensures -2147483 <= seconds <= 60 ==> r == Success(1000 * seconds)
    ensures r.Success? ==> r.value <= MAX_TIMEOUT_MS && (r.value - 1000 * seconds) % 0x1_0000_0000 == 0
  {
    var timeout := Wrap32(1000 * seconds);
    if timeout > MAX_TIMEOUT_MS then Failure(TimeoutTooLong) else Success(timeout)
  }

  /** A timeout of 4294968 seconds wraps to 704 milliseconds and is accepted;
      one of 2147484 seconds wraps to a negative value and is accepted too. */
  lemma TimeoutAsWrittenAcceptsOverlong()
    ensures TimeoutAsWritten(4294968) == Success(704)
    ensures CheckTimeout(4294968) == Failure(TimeoutTooLong)
    ensures ParseArgs([TimeoutOption(4294968)]) == Success(Defaults.(timeout := 704))
    ensures ParseArgs([TimeoutOption(2147484)]) == Success(Defaults.(timeout := -2147483296))
  {
  }

  /** The timeout check as intended: more than 60 seconds is refused. */
  function CheckTimeout(seconds: Int32): (r: Result<int>)
    ensures r.Success? <==> seconds <= 60
    ensures r.Success? ==> r.value == 1000 * seconds <= MAX_TIMEOUT_MS
  {
    var timeout := 1000 * seconds;
    if timeout > MAX_TIMEOUT_MS then Failure(TimeoutTooLong) else Success(timeout)
  }

  /** `(byte) octetValue` for each octet. */
  function OctetBytes(octets: seq<Int32>): seq<JByte>
  {
    seq(|octets|, j requires 0 <= j < |octets| => ToByte(octets[j]))
  }

  /** The octet loop: every octet must lie in [0, 255]; the first ones of the
      server address are overwritten, the others keep their value. */
  function StoreOctets(server: ServerBytes, octets: seq<Int32>): Result<ServerBytes>
    requires |octets| <= MAX_OCTETS
  {
    if forall j | 0 <= j < |octets| :: 0 <= octets[j] <= 255
    then
      var stored: ServerBytes := OctetBytes(octets) + server[|octets|..];
      Success(stored)
    else Failure(OctetOutOfRange)
  }

  /** One turn of the constructor's loop. The timeout is checked as written,
      on the wrapped 32-bit product. */
  function ApplyArg(c: Config, a: Arg): (r: Result<Config>)
    ensures r.Success? <==> Acceptable(a)
    ensures r.Success? && !a.ServerOption? ==> r.value.name == c.name && r.value.qNameSize == c.qNameSize
    ensures r.Success? && a.ServerOption? ==> r.value.name == a.domain && r.value.qNameSize > c.qNameSize
    ensures r.Success? ==> r.value.queryType == c.queryType || r.value.queryType in {"MX", "NS"}
  {
    match a
    case TimeoutOption(seconds) =>
      (match TimeoutAsWritten(seconds)
       case Success(timeout) => Success(c.(timeout := timeout))
       case Failure(e) => Failure(e))
    case RetriesOption(count) =>
      if count > MAX_RETRIES then Failure(TooManyRetries)
      else if count < 0 then Failure(NegativeRetries)
      else Success(c.(maxRetries := count))
    case PortOption(port) => Success(c.(portNumber := port))
    case MxOption => Success(c.(queryType := "MX"))
    case NsOption => Success(c.(queryType := "NS"))
    case ServerOption(octets, domain) =>
      if |octets| > MAX_OCTETS then Failure(ServerNotDotted)
      else
        (match StoreOctets(c.server, octets)
         case Success(server) =>
           Success(c.(server := server, name := domain,
                      qNameSize := c.qNameSize + QNameSize(Split(domain))))
         case Failure(e) => Failure(e))
    case Unrecognised => Failure(IncorrectArguments)
  }

  /** The constructor's loop from a given state of the fields. */
  function ParseFrom(c: Config, args: seq<Arg>): (r: Result<Config>)
    ensures r.Success? ==> r.value.qNameSize >= c.qNameSize
    ensures r.Success? ==> r.value.queryType == c.queryType || r.value.queryType in {"MX", "NS"}
    decreases |args|
  {
    if args == [] then Success(c)
    else match ApplyArg(c, args[0])
      case Failure(e) => Failure(e)
      case Success(next) => ParseFrom(next, args[1..])
  }

  /** `new DnsQuery(args)`: the fields it leaves, or the exception it throws. */
  function ParseArgs(args: seq<Arg>): (r: Result<Config>)
    ensures r.Success? ==> r.value.qNameSize >= 0 && r.value.queryType in {"A", "MX", "NS"}
  {
    ParseFrom(Defaults, args)
  }

  /** The arguments the constructor lets through. */
  predicate Acceptable(a: Arg)
  {
    match a
    case TimeoutOption(seconds) => Wrap32(1000 * seconds) <= MAX_TIMEOUT_MS
    case RetriesOption(count) => 0 <= count <= MAX_RETRIES
    case ServerOption(octets, _) =>
      |octets| <= MAX_OCTETS && forall j | 0 <= j < |octets| :: 0 <= octets[j] <= 255
    case Unrecognised => false
    case _ => true
  }

  /** The constructor succeeds exactly when every argument is acceptable. */
  lemma {:induction false} ParseAcceptsIff(c: Config, args: seq<Arg>)
    ensures ParseFrom(c, args).Success? <==> forall i | 0 <= i < |args| :: Acceptable(args[i])
    decreases |args|
  {
    if args != [] {
      match ApplyArg(c, args[0])
      case Failure(e) =>
      case Success(next) =>
        ParseAcceptsIff(next, args[1..]);
        assert forall i | 1 <= i < |args| :: args[i] == args[1..][i - 1];
    }
  }

  /** The ranges the constructor promises for the fields. */
  predicate InRange(c: Config)
  {
    c.timeout <= MAX_TIMEOUT_MS && 0 <= c.maxRetries <= MAX_RETRIES && c.qNameSize >= 0
  }

  lemma {:induction false} ParseKeepsRanges(c: Config, args: seq<Arg>)
    requires InRange(c)
    ensures ParseFrom(c, args).Success? ==> InRange(ParseFrom(c, args).value)
    decreases |args|
  {
    if args != [] {
      match ApplyArg(c, args[0])
      case Failure(e) =>
      case Success(next) =>
        ParseKeepsRanges(next, args[1..]);
    }
  }

  /** An accepted command line has a timeout of at most 60000 ms and 0 to 100 retries. */
  lemma AcceptedArgsInRange(args: seq<Arg>)
    ensures ParseArgs(args).Success? ==> InRange(ParseArgs(args).value)
  {
    ParseKeepsRanges(Defaults, args);
  }

  function ServerCount(args: seq<Arg>): nat
  {
    if args == [] then 0
    else (if args[0].ServerOption? then 1 else 0) + ServerCount(args[1..])
  }

  /** What updateQNameSize adds up over all server arguments. */
  function ServerNamesSize(args: seq<Arg>): nat
  {
    if args == [] then 0
    else (if args[0].ServerOption? then QNameSize(Split(args[0].domain)) else 0)
         + ServerNamesSize(args[1..])
  }

  /** The name of the last server argument, or `name` when there is none. */
  function LastName(name: string, args: seq<Arg>): string
    decreases |args|
  {
    if args == [] then name
    else LastName(if args[0].ServerOption? then args[0].domain else name, args[1..])
  }

  /** Because of `+=`, qNameSize adds up the sizes of every name given, while
      `name` keeps only the last one. */
  lemma {:induction false} ParseSizesServerNames(c: Config, args: seq<Arg>)
    ensures ParseFrom(c, args).Success? ==>
      && ParseFrom(c, args).value.qNameSize == c.qNameSize + ServerNamesSize(args)
      && ParseFrom(c, args).value.name == LastName(c.name, args)
    decreases |args|
  {
    if args != [] {
      match ApplyArg(c, args[0])
      case Failure(e) =>
      case Success(next) =>
        ParseSizesServerNames(next, args[1..]);
    }
  }

  /** With at least one server argument, the sizes add up to at least the size
      of the last name plus one per further name. */
  lemma {:induction false} ServerNamesSizeBound(name: string, args: seq<Arg>)
    requires ServerCount(args) >= 1
    ensures ServerNamesSize(args) >= QNameSize(Split(LastName(name, args))) + ServerCount(args) - 1
    decreases |args|
  {
    var rest := args[1..];
    var next := if args[0].ServerOption? then args[0].domain else name;
    if ServerCount(rest) == 0 {
      NoServerNames(next, rest);
    } else {
      ServerNamesSizeBound(next, rest);
    }
  }

  lemma {:induction false} NoServerNames(name: string, args: seq<Arg>)
    requires ServerCount(args) == 0
    ensures ServerNamesSize(args) == 0 && LastName(name, args) == name
    decreases |args|
  {
    if args != [] {
      NoServerNames(name, args[1..]);
    }
  }

  /** One server argument: qNameSize is exactly the size of the name. */
  lemma OneServerSizesName(args: seq<Arg>)
    requires ServerCount(args) == 1
    requires ParseArgs(args).Success?
    ensures ParseArgs(args).value.qNameSize == QNameSize(Split(ParseArgs(args).value.name))
  {
    ParseSizesServerNames(Defaults, args);
    ServerNamesSizeBound("", args);
    ServerNamesSizeAtMostLast("", args);
  }

  lemma {:induction false} ServerNamesSizeAtMostLast(name: string, args: seq<Arg>)
    requires ServerCount(args) == 1
    ensures ServerNamesSize(args) == QNameSize(Split(LastName(name, args)))
    decreases |args|
  {
    var rest := args[1..];
    if args[0].ServerOption? {
      NoServerNames(args[0].domain, rest);
    } else {
      ServerNamesSizeAtMostLast(name, rest);
    }
  }

  // ----- the request -----

  function Zeros(n: nat): seq<JByte>
  {
    seq(n, _ => 0)
  }

  /** The array getRequestBytes returns for a given random ID: it has
      16 + qNameSize slots, header and question written from the front, and
      whatever qNameSize over-counts left at zero; when qNameSize
      under-counts, the writes run past the end of the array and Java throws
      an ArrayIndexOutOfBoundsException. */
  function RequestFor(c: Config, id: IdBytes): (r: Result<seq<JByte>>)
    requires c.qNameSize >= 0
    ensures r.Success? <==> c.qNameSize >= QNameSize(Split(c.name))
    ensures r.Failure? ==> r.error == IndexOutOfBounds
    ensures r.Success? ==> |r.value| == HEADER_SIZE + QTYPE_QCLASS_SIZE + c.qNameSize
    ensures r.Success? ==> r.value[..HEADER_SIZE] == Header(id)
  {
    var labels := Split(c.name);
    QuestionLayout(labels, c.queryType);
    if c.qNameSize < QNameSize(labels) then Failure(IndexOutOfBounds)
    else Success(Header(id) + Question(labels, c.queryType) + Zeros(c.qNameSize - QNameSize(labels)))
  }

  /** A command line with exactly one server: the array is filled exactly,
      header then question, with no slot left over. */
  lemma OneServerRequestIsExact(args: seq<Arg>, id: IdBytes)
    requires ServerCount(args) == 1
    requires ParseArgs(args).Success?
    ensures ParseArgs(args).value.qNameSize >= 0
    ensures var c := ParseArgs(args).value;
      RequestFor(c, id) == Success(Header(id) + Question(Split(c.name), c.queryType))
  {
    OneServerSizesName(args);
    AcceptedArgsInRange(args);
    var c := ParseArgs(args).value;
    assert c.qNameSize - QNameSize(Split(c.name)) == 0;
    assert Header(id) + Question(Split(c.name), c.queryType) + Zeros(0)
           == Header(id) + Question(Split(c.name), c.queryType);
  }

  /** A command line without a server: qNameSize stays 0 while the empty name
      still splits into one empty label, so the writes overrun the array. */
  lemma MissingServerOverruns(args: seq<Arg>, id: IdBytes)
    requires ServerCount(args) == 0
    requires ParseArgs(args).Success?
    ensures ParseArgs(args).value.qNameSize >= 0
    ensures RequestFor(ParseArgs(args).value, id) == Failure(IndexOutOfBounds)
  {
    ParseSizesServerNames(Defaults, args);
    NoServerNames("", args);
    assert Split("") == [""];
    assert QNameSize([""]) == 2;
  }

  /** Two or more server arguments: qNameSize over-counts, and the request
      ends with zero bytes that are not part of any section. */
  lemma RepeatedServerPadsRequest(args: seq<Arg>, id: IdBytes)
    requires ServerCount(args) >= 2
    requires ParseArgs(args).Success?
    ensures var c := ParseArgs(args).value;
      && c.qNameSize >= 0
      && RequestFor(c, id).Success?
      && |RequestFor(c, id).value| > |Header(id) + Question(Split(c.name), c.queryType)|
      && RequestFor(c, id).value[|Header(id) + Question(Split(c.name), c.queryType)|..]
         == Zeros(c.qNameSize - QNameSize(Split(c.name)))
  {
    ParseSizesServerNames(Defaults, args);
    ServerNamesSizeBound("", args);
    var c := ParseArgs(args).value;
    QuestionLayout(Split(c.name), c.queryType);
  }

  /** `validateResponseId`: throws exactly when the first two bytes of the
      response differ from those of the request. */
  function ValidateResponseId(request: seq<JByte>, response: seq<JByte>): (r: Check)
    requires |request| >= 2 && |response| >= 2
    ensures r == Pass <==> request[0] == response[0] && request[1] == response[1]
    ensures r.Fail? ==> r.error == IdMismatch(GetWord(response), GetWord(request))
  {
    var responseId := GetWord([response[0], response[1]]);
    var requestId := GetWord([request[0], request[1]]);
    WordEqualIff([response[0], response[1]], [request[0], request[1]]);
    if responseId != requestId then Fail(IdMismatch(responseId, requestId)) else Pass
  }

  // ----- the exchange -----

  datatype Outcome = TimedOut | Received(datagram: seq<JByte>)

  /** One send: the random ID drawn for its request and what came back. */
  datatype Attempt = Attempt(id: IdBytes, outcome: Outcome)

  /** What a successful exchange reports: the retries used and the header read. */
  datatype Reply = Reply(retries: int, header: Response.Summary)

  /** The number of datagrams sent and the result. */
  datatype Run = Run(sends: nat, result: Result<Reply>)

  /** The attempt about to be made; once the script is used up nothing comes back. */
  function NextAttempt(network: seq<Attempt>): Attempt
  {
    if network == [] then Attempt([0, 0], TimedOut) else network[0]
  }

  function Later(network: seq<Attempt>): seq<Attempt>
  {
    if network == [] then [] else network[1..]
  }

  /** The 1024-byte receive buffer after `receive`: the datagram, cut to the
      buffer, then zeros. */
  function ReceiveBuffer(datagram: seq<JByte>): (buf: seq<JByte>)
    ensures |buf| == RECEIVE_SIZE
    ensures forall i | 0 <= i < RECEIVE_SIZE :: buf[i] == if i < |datagram| then datagram[i] else 0
  {
    if |datagram| >= RECEIVE_SIZE then datagram[..RECEIVE_SIZE]
    else datagram + Zeros(RECEIVE_SIZE - |datagram|)
  }

  /** `sendQuery(numRetries)`: build the request (a fresh ID each attempt),
      refuse it above 1024 bytes, send; on a timeout retry with
      numRetries + 1 while maxRetries - numRetries > 0, else give up; on a
      datagram check its ID and hand it to DnsResponse. */
  function Exchange(c: Config, numRetries: int, network: seq<Attempt>): (r: Run)
    requires c.qNameSize >= 0
    ensures r.sends == 0 <==> !Sendable(c)
    decreases c.maxRetries - numRetries
  {
    var attempt := NextAttempt(network);
    match RequestFor(c, attempt.id)
    case Failure(e) => Run(0, Failure(e))
    case Success(request) =>
      if |request| > RECEIVE_SIZE then Run(0, Failure(NameTooLarge))
      else match attempt.outcome
        case TimedOut =>
          if c.maxRetries - numRetries > 0 then
            var rest := Exchange(c, numRetries + 1, Later(network));
            Run(rest.sends + 1, rest.result)
          else Run(1, Failure(RequestTimeout(c.maxRetries)))
        case Received(datagram) =>
          var receiveData := ReceiveBuffer(datagram);
          match ValidateResponseId(request, receiveData)
          case Fail(e) => Run(1, Failure(e))
          case Pass =>
            match Response.Decode(receiveData)
            case Failure(e) => Run(1, Failure(e))
            case Success(header) => Run(1, Success(Reply(numRetries, header)))
  }

  /** The request fits the array and the 1024-byte limit. */
  predicate Sendable(c: Config)
  {
    QNameSize(Split(c.name)) <= c.qNameSize && HEADER_SIZE + QTYPE_QCLASS_SIZE + c.qNameSize <= RECEIVE_SIZE
  }

  /** At most one send per permitted retry, plus the first. */
  lemma {:induction false} SendsBounded(c: Config, numRetries: int, network: seq<Attempt>)
    requires c.qNameSize >= 0
    ensures Exchange(c, numRetries, network).sends
            <= (if c.maxRetries - numRetries > 0 then c.maxRetries - numRetries else 0) + 1
    decreases c.maxRetries - numRetries
  {
    var attempt := NextAttempt(network);
    if RequestFor(c, attempt.id).Success? && attempt.outcome.TimedOut?
       && |RequestFor(c, attempt.id).value| <= RECEIVE_SIZE && c.maxRetries - numRetries > 0 {
      SendsBounded(c, numRetries + 1, Later(network));
    }
  }

  /** When nothing ever comes back, every retry is used: from numRetries = 0
      there are maxRetries + 1 sends, then RequestTimeoutException. */
  lemma {:induction false} SilenceUsesEveryRetry(c: Config, numRetries: int, network: seq<Attempt>)
    requires c.qNameSize >= 0 && Sendable(c)
    requires forall i | 0 <= i < |network| :: network[i].outcome == TimedOut
    ensures Exchange(c, numRetries, network)
            == Run((if c.maxRetries - numRetries > 0 then c.maxRetries - numRetries else 0) + 1,
                   Failure(RequestTimeout(c.maxRetries)))
    decreases c.maxRetries - numRetries
  {
    var attempt := NextAttempt(network);
    assert attempt.outcome == TimedOut;
    if c.maxRetries - numRetries > 0 {
      SilenceUsesEveryRetry(c, numRetries + 1, Later(network));
    }
  }

  /** A request over 1024 bytes is refused before anything is sent. */
  lemma OversizedNeverSent(c: Config, numRetries: int, network: seq<Attempt>)
    requires c.qNameSize >= QNameSize(Split(c.name))
    requires HEADER_SIZE + QTYPE_QCLASS_SIZE + c.qNameSize > RECEIVE_SIZE
    ensures Exchange(c, numRetries, network) == Run(0, Failure(NameTooLarge))
  {
  }

  /** A reply whose ID differs from the request's ends the exchange after that
      one send, without a retry. */
  lemma MismatchedIdNotRetried(c: Config, numRetries: int, id: IdBytes, datagram: seq<JByte>,
                               later: seq<Attempt>)
    requires c.qNameSize >= 0 && Sendable(c)
    requires |datagram| >= 2 && datagram[..2] != id
    ensures Exchange(c, numRetries, [Attempt(id, Received(datagram))] + later).sends == 1
    ensures Exchange(c, numRetries, [Attempt(id, Received(datagram))] + later).result.Failure?
    ensures Exchange(c, numRetries, [Attempt(id, Received(datagram))] + later).result.error.IdMismatch?
  {
    var buf := ReceiveBuffer(datagram);
    var request := RequestFor(c, id).value;
    assert request[..2] == Header(id)[..2] == id;
    assert buf[0] == datagram[0] && buf[1] == datagram[1];
    assert !(request[0] == buf[0] && request[1] == buf[1]);
  }

  /** A successful exchange reports as retries the sends before the one answered. */
  lemma {:induction false} ReplyCountsRetries(c: Config, numRetries: int, network: seq<Attempt>)
    requires c.qNameSize >= 0
    ensures var run := Exchange(c, numRetries, network);
      run.result.Success? ==> run.sends >= 1 && run.result.value.retries == numRetries + run.sends - 1
    decreases c.maxRetries - numRetries
  {
    var attempt := NextAttempt(network);
    if RequestFor(c, attempt.id).Success? && attempt.outcome.TimedOut?
       && |RequestFor(c, attempt.id).value| <= RECEIVE_SIZE && c.maxRetries - numRetries > 0 {
      ReplyCountsRetries(c, numRetries + 1, Later(network));
    }
  }

  // ----- the class -----

  class DnsQuery {
    var queryType: string
    var timeout: int
    var maxRetries: int
    var portNumber: int
    const serverBytes: array<JByte>
    var name: string
    var qNameSize: int

    ghost predicate Valid()
      reads this
    {
      serverBytes.Length == 4 && qNameSize >= 0
    }

    ghost function Settings(): Config
      reads this, serverBytes
      requires Valid()
    {
      Config(queryType, timeout, maxRetries, portNumber, serverBytes[..], name, qNameSize)
    }

    /** The field initialisers. */
    constructor ()
      ensures Valid() && fresh(serverBytes) && Settings() == Defaults
    {
      queryType := "A";
      timeout := 5000;
      maxRetries := 3;
      portNumber := 53;
      serverBytes := new JByte[4](_ => 0);
      name := "";
      qNameSize := 0;
      new;
      assert serverBytes[..] == [0, 0, 0, 0];
    }

    /** The constructor's loop over the arguments; any bad argument throws. */
    method Configure(args: seq<Arg>) returns (err: Option<Error>)
      requires Valid()
      modifies this, serverBytes
      ensures Valid()
      ensures match ParseFrom(old(Settings()), args)
              case Success(c) => err == None && Settings() == c
              case Failure(e) => err == Some(e)
    {
      var i := 0;
      while i < |args|
        invariant 0 <= i <= |args| && Valid()
        invariant ParseFrom(Settings(), args[i..]) == ParseFrom(old(Settings()), args)
      {
        assert args[i..][0] == args[i] && args[i..][1..] == args[i + 1..];
        var argErr := ApplyOption(args[i]);
        if argErr.Some? {
          return argErr;
        }
        i := i + 1;
      }
      return None;
    }

    /** One turn of the constructor's loop: the option sets its field. */
    method ApplyOption(arg: Arg) returns (err: Option<Error>)
      requires Valid()
      modifies this, serverBytes
      ensures Valid()
      ensures match ApplyArg(old(Settings()), arg)
              case Success(c) => err == None && Settings() == c
              case Failure(e) => err == Some(e)
    {
      match arg {
        case TimeoutOption(seconds) =>
          var timeout := Wrap32(1000 * seconds);
          if timeout > MAX_TIMEOUT_MS {
            return Some(TimeoutTooLong);
          }
          this.timeout := timeout;
        case RetriesOption(count) =>
          if count > MAX_RETRIES {
            return Some(TooManyRetries);
          } else if count < 0 {
            return Some(NegativeRetries);
          }
          maxRetries := count;
        case PortOption(port) =>
          portNumber := port;
        case MxOption =>
          queryType := "MX";
        case NsOption =>
          queryType := "NS";
        case ServerOption(octets, domain) =>
          err := SetServer(octets, domain);
          return;
        case Unrecognised =>
          return Some(IncorrectArguments);
      }
      return None;
    }

    /** `@a.b.c.d name`: at most four octets, each in [0, 255], written into
        serverBytes in place; then the name is stored and its size added. */
    method SetServer(octets: seq<Int32>, domain: string) returns (err: Option<Error>)
      requires Valid()
      modifies this, serverBytes
      ensures Valid()
      ensures match ApplyArg(old(Settings()), ServerOption(octets, domain))
              case Success(c) => err == None && Settings() == c
              case Failure(e) => err == Some(e)
    {
      if |octets| > MAX_OCTETS {
        return Some(ServerNotDotted);
      }
      ghost var server := serverBytes[..];
      var byteNum := 0;
      while byteNum < |octets|
        invariant 0 <= byteNum <= |octets|
        invariant forall j | 0 <= j < byteNum :: 0 <= octets[j] <= 255
        invariant forall j | 0 <= j < 4 :: serverBytes[j] == if j < byteNum then ToByte(octets[j]) else server[j]
        modifies serverBytes
      {
        var octetValue := octets[byteNum];
        if octetValue > 255 || octetValue < 0 {
          return Some(OctetOutOfRange);
        }
        serverBytes[byteNum] := ToByte(octetValue);
        byteNum := byteNum + 1;
      }
      assert serverBytes[..] == OctetBytes(octets) + server[|octets|..];
      name := domain;
      UpdateQNameSize();
      return None;
    }

    /** `updateQNameSize`: adds 1 + length for each label and 1 for the root
        to whatever qNameSize already holds. */
    method UpdateQNameSize()
      modifies this`qNameSize
      ensures qNameSize == old(qNameSize) + QNameSize(Split(name))
    {
      var labels := Split(name);
      for k := 0 to |labels|
        invariant qNameSize == old(qNameSize) + LabelsSize(labels[..k])
      {
        LabelsSizeAppend(labels[..k], [labels[k]]);
        assert labels[..k + 1] == labels[..k] + [labels[k]];
        qNameSize := qNameSize + 1 + |labels[k]|;
      }
      assert labels[..|labels|] == labels;
      qNameSize := qNameSize + 1;
    }

    /** `setHeaderBytes`: the ID, then flags 0x0100, QDCOUNT 1 and three zero counts. */
    method SetHeaderBytes(bytes: array<JByte>, id: IdBytes)
      requires bytes.Length >= HEADER_SIZE
      modifies bytes
      ensures bytes[0] == id[0] && bytes[1] == id[1] && bytes[2] == 0x01 && bytes[3] == 0x00
      ensures bytes[4] == 0x00 && bytes[5] == 0x01 && bytes[6] == 0x00 && bytes[7] == 0x00
      ensures bytes[8] == 0x00 && bytes[9] == 0x00 && bytes[10] == 0x00 && bytes[11] == 0x00
      ensures forall i | HEADER_SIZE <= i < bytes.Length :: bytes[i] == old(bytes[i])
    {
      bytes[0] := id[0];
      bytes[1] := id[1];
      bytes[2] := 0x01;
      bytes[3] := 0x00;
      bytes[4] := 0x00;
      bytes[5] := 0x01;
      bytes[6] := 0x00;
      bytes[7] := 0x00;
      bytes[8] := 0x00;
      bytes[9] := 0x00;
      bytes[10] := 0x00;
      bytes[11] := 0x00;
    }

    /** `setQuestionBytes`: writes the question from index 12 on with a moving
        index. It returns false where Java throws ArrayIndexOutOfBounds, i.e.
        exactly when the question does not fit; either way every slot from 12
        to the end of the array or of the question holds the question's byte
        and nothing else changes. */
    method SetQuestionBytes(bytes: array<JByte>) returns (ok: bool)
      requires bytes.Length >= HEADER_SIZE
      modifies bytes
      ensures ok <==> HEADER_SIZE + |Question(Split(name), queryType)| <= bytes.Length
      ensures forall i | 0 <= i < bytes.Length ::
        bytes[i] == if HEADER_SIZE <= i < HEADER_SIZE + |Question(Split(name), queryType)|
                    then Question(Split(name), queryType)[i - HEADER_SIZE] else old(bytes[i])
    {
      var labels := Split(name);
      ghost var q := Question(labels, queryType);
      var byteNum := HEADER_SIZE;
      for k := 0 to |labels|
        invariant byteNum == HEADER_SIZE + |EncodeLabels(labels[..k])| <= bytes.Length
        invariant |EncodeLabels(labels[..k])| <= |EncodeLabels(labels)|
        invariant forall i | 0 <= i < bytes.Length ::
          bytes[i] == if HEADER_SIZE <= i < byteNum then q[i - HEADER_SIZE] else old(bytes[i])
      {
        ghost var start := byteNum;
        ghost var encoded := EncodeLabel(labels[k]);
        LabelPositions(labels, queryType, k, q, start);
        ghost var before := bytes[..];
        var fits;
        byteNum, fits := WriteLabel(bytes, byteNum, labels[k]);
        WrittenAfter(bytes[..], before, old(bytes[..]), q, encoded, start);
        if !fits {
          CutShort(bytes[..], old(bytes[..]), q, start + |encoded|);
          return false;
        }
      }
      assert labels[..|labels|] == labels;
      ghost var tail := [0x00, 0x00, TypeCode(queryType), 0x00, 0x01];
      assert q == EncodeLabels(labels) + tail;
      ghost var before := bytes[..];
      ok := WriteQuestionEnd(bytes, byteNum, queryType);
      WrittenAfter(bytes[..], before, old(bytes[..]), q, tail, byteNum);
      CutShort(bytes[..], old(bytes[..]), q, byteNum + 5);
    }

    /** One label at `byteNum`: its length octet, then its characters, for as
        many of them as fit in the array. */
    method WriteLabel(bytes: array<JByte>, byteNum: int, lbl: string) returns (next: int, ok: bool)
      requires HEADER_SIZE <= byteNum <= bytes.Length
      modifies bytes
      ensures ok <==> byteNum + |EncodeLabel(lbl)| <= bytes.Length
      ensures ok ==> next == byteNum + |EncodeLabel(lbl)|
      ensures forall i | 0 <= i < bytes.Length ::
        bytes[i] == if byteNum <= i < byteNum + |EncodeLabel(lbl)|
                    then EncodeLabel(lbl)[i - byteNum] else old(bytes[i])
    {
      next := byteNum;
      if next >= bytes.Length {
        return next, false;
      }
      bytes[next] := ToByte(|lbl|);
      next := next + 1;
      for charNum := 0 to |lbl|
        invariant next == byteNum + 1 + charNum <= bytes.Length
        invariant forall i | 0 <= i < bytes.Length ::
          bytes[i] == if byteNum <= i < next then EncodeLabel(lbl)[i - byteNum] else old(bytes[i])
      {
        if next >= bytes.Length {
          return next, false;
        }
        bytes[next] := ToByte(lbl[charNum] as int);
        next := next + 1;
      }
      return next, true;
    }

    /** The root octet, QTYPE and QCLASS at `byteNum`, as far as they fit. */
    method WriteQuestionEnd(bytes: array<JByte>, byteNum: int, queryType: string) returns (ok: bool)
      requires 0 <= byteNum <= bytes.Length
      modifies bytes
      ensures ok <==> byteNum + 5 <= bytes.Length
      ensures forall i | 0 <= i < bytes.Length ::
        bytes[i] == if byteNum <= i < byteNum + 5
                    then [0x00, 0x00, TypeCode(queryType), 0x00, 0x01][i - byteNum] else old(bytes[i])
    {
      var n := byteNum;
      if n >= bytes.Length {
        return false;
      }
      bytes[n] := 0x00;
      n := n + 1;
      if n >= bytes.Length {
        return false;
      }
      bytes[n] := 0x00;
      n := n + 1;
      if n >= bytes.Length {
        return false;
      }
      if queryType == "MX" {
        bytes[n] := 0x0f;
      } else if queryType == "NS" {
        bytes[n] := 0x02;
      } else {
        bytes[n] := 0x01;
      }
      n := n + 1;
      if n >= bytes.Length {
        return false;
      }
      bytes[n] := 0x00;
      n := n + 1;
      if n >= bytes.Length {
        return false;
      }
      bytes[n] := 0x01;
      return true;
    }

    /** `getRequestBytes`: a zeroed array of 12 + 4 + qNameSize bytes, the
        header, then the question. */
    method GetRequestBytes(id: IdBytes) returns (r: Result<array<JByte>>)
      requires Valid()
      ensures r.Success? <==> RequestFor(Settings(), id).Success?
      ensures r.Success? ==> fresh(r.value) && r.value[..] == RequestFor(Settings(), id).value
      ensures r.Failure? ==> r.error == RequestFor(Settings(), id).error
    {
      var requestBytes := new JByte[HEADER_SIZE + QTYPE_QCLASS_SIZE + qNameSize](_ => 0);
      SetHeaderBytes(requestBytes, id);
      ghost var withHeader := requestBytes[..];
      HeaderBytes(id, withHeader);
      assert forall i | HEADER_SIZE <= i < |withHeader| :: withHeader[i] == 0;
      var written := SetQuestionBytes(requestBytes);
      var labels := Split(name);
      QuestionLayout(labels, queryType);
      if !written {
        return Failure(IndexOutOfBounds);
      }
      RequestAssembled(requestBytes[..], withHeader, id, Question(labels, queryType),
                       qNameSize - QNameSize(labels));
      return Success(requestBytes);
    }

    /** `sendQuery(numRetries)`, recursive as in the source. */
    method SendQuery(numRetries: int, network: seq<Attempt>) returns (run: Run)
      requires Valid()
      ensures run == Exchange(Settings(), numRetries, network)
      decreases maxRetries - numRetries
    {
      // sendQuery opens with an `if` whose body is empty
      var attempt := NextAttempt(network);
      var sendData := GetRequestBytes(attempt.id);
      if sendData.Failure? {
        return Run(0, Failure(sendData.error));
      }
      var request := sendData.value;
      if request.Length > RECEIVE_SIZE {
        return Run(0, Failure(NameTooLarge));
      }
      match attempt.outcome {
        case TimedOut =>
          var retriesLeft := maxRetries - numRetries;
          if retriesLeft > 0 {
            var rest := SendQuery(numRetries + 1, Later(network));
            return Run(rest.sends + 1, rest.result);
          } else {
            return Run(1, Failure(RequestTimeout(maxRetries)));
          }
        case Received(datagram) =>
          var receiveData := ReceiveBuffer(datagram);
          var idCheck := ValidateResponseId(request[..], receiveData);
          if idCheck.Fail? {
            return Run(1, Failure(idCheck.error));
          }
          var response := Response.NewDnsResponse(receiveData, request.Length, queryType);
          if response.Failure? {
            return Run(1, Failure(response.error));
          }
          return Run(1, Success(Reply(numRetries, response.value.Fields())));
      }
    }
  }

  /** Header, then question, then zeros: the array getRequestBytes returns. */
  lemma RequestAssembled(after: seq<JByte>, withHeader: seq<JByte>, id: IdBytes, q: seq<JByte>, n: nat)
    requires |after| == |withHeader| == HEADER_SIZE + |q| + n
    requires forall i | 0 <= i < HEADER_SIZE :: withHeader[i] == Header(id)[i]
    requires forall i | HEADER_SIZE <= i < |withHeader| :: withHeader[i] == 0
    requires forall i | 0 <= i < |after| ::
      after[i] == if HEADER_SIZE <= i < HEADER_SIZE + |q| then q[i - HEADER_SIZE] else withHeader[i]
    ensures after == Header(id) + q + Zeros(n)
  {
    var expected := Header(id) + q + Zeros(n);
    forall i | 0 <= i < |after|
      ensures after[i] == expected[i]
    {
    }
  }

  /** Twelve bytes that match the header one by one are the header. */
  lemma HeaderBytes(id: IdBytes, b: seq<JByte>)
    requires |b| >= HEADER_SIZE
    requires b[0] == id[0] && b[1] == id[1] && b[2] == 0x01 && b[3] == 0x00
    requires b[4] == 0x00 && b[5] == 0x01 && b[6] == 0x00 && b[7] == 0x00
    requires b[8] == 0x00 && b[9] == 0x00 && b[10] == 0x00 && b[11] == 0x00
    ensures forall i | 0 <= i < HEADER_SIZE :: b[i] == Header(id)[i]
  {
    assert b[..HEADER_SIZE] == Header(id);
    forall i | 0 <= i < HEADER_SIZE
      ensures b[i] == Header(id)[i]
    {
      assert b[i] == b[..HEADER_SIZE][i];
    }
  }

  /** Writes that stop at the end of the array leave it as if the whole
      question had been written. */
  lemma CutShort(after: seq<JByte>, orig: seq<JByte>, q: seq<JByte>, end: int)
    requires |after| == |orig| && end <= HEADER_SIZE + |q|
    requires end == HEADER_SIZE + |q| || |after| < end
    requires forall i | 0 <= i < |after| ::
      after[i] == if HEADER_SIZE <= i < end then q[i - HEADER_SIZE] else orig[i]
    ensures forall i | 0 <= i < |after| ::
      after[i] == if HEADER_SIZE <= i < HEADER_SIZE + |q| then q[i - HEADER_SIZE] else orig[i]
  {
  }

  /** Writing `piece` at `start`, right after a prefix of the question that
      starts at index 12, extends the written prefix by that piece. */
  lemma WrittenAfter(after: seq<JByte>, before: seq<JByte>, orig: seq<JByte>, q: seq<JByte>,
                     piece: seq<JByte>, start: int)
    requires |after| == |before| == |orig|
    requires HEADER_SIZE <= start && start - HEADER_SIZE + |piece| <= |q|
    requires forall c | 0 <= c < |piece| :: q[start - HEADER_SIZE + c] == piece[c]
    requires forall i | 0 <= i < |before| ::
      before[i] == if HEADER_SIZE <= i < start then q[i - HEADER_SIZE] else orig[i]
    requires forall i | 0 <= i < |after| ::
      after[i] == if start <= i < start + |piece| then piece[i - start] else before[i]
    ensures forall i | 0 <= i < |after| ::
      after[i] == if HEADER_SIZE <= i < start + |piece| then q[i - HEADER_SIZE] else orig[i]
  {
    forall i | 0 <= i < |after|
      ensures after[i] == if HEADER_SIZE <= i < start + |piece| then q[i - HEADER_SIZE] else orig[i]
    {
      if start <= i < start + |piece| {
        var c := i - start;
        assert q[start - HEADER_SIZE + c] == piece[c];
      }
    }
  }

  /** Where in the question the k-th label's bytes go: right after the
      labels before it, which start at index 12 of the request. */
  lemma LabelPositions(labels: seq<string>, queryType: string, k: nat, q: seq<JByte>, start: int)
    requires k < |labels| && q == Question(labels, queryType)
    requires start == HEADER_SIZE + |EncodeLabels(labels[..k])|
    ensures start + |EncodeLabel(labels[k])| == HEADER_SIZE + |EncodeLabels(labels[..k + 1])|
    ensures |EncodeLabels(labels[..k + 1])| <= |EncodeLabels(labels)|
    ensures start - HEADER_SIZE + |EncodeLabel(labels[k])| <= |q|
    ensures forall c | 0 <= c < |EncodeLabel(labels[k])| ::
      q[start - HEADER_SIZE + c] == EncodeLabel(labels[k])[c]
  {
    assert labels == labels[..k] + [labels[k]] + labels[k + 1..];
    assert labels[..k + 1] == labels[..k] + [labels[k]];
    EncodeLabelsAppend(labels[..k] + [labels[k]], labels[k + 1..]);
    EncodeLabelsAppend(labels[..k], [labels[k]]);
    assert EncodeLabels([labels[k]]) == EncodeLabel(labels[k]);
    var pre := EncodeLabels(labels[..k]);
    assert q == pre + EncodeLabel(labels[k]) + EncodeLabels(labels[k + 1..]) + [0x00, 0x00, TypeCode(queryType), 0x00, 0x01];
  }

  /** `new DnsQuery(args)`: the object, or the exception its constructor throws. */
  method NewDnsQuery(args: seq<Arg>) returns (r: Result<DnsQuery>)
    ensures r.Success? <==> ParseArgs(args).Success?
    ensures r.Failure? ==> r.error == ParseArgs(args).error
    ensures r.Success? ==> fresh(r.value) && r.value.Valid() && r.value.Settings() == ParseArgs(args).value
  {
    var query := new DnsQuery();
    var err := query.Configure(args);
    if err.Some? {
      return Failure(err.value);
    }
    return Success(query);
  }
}
