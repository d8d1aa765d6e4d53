/** The bytes of a DNS query as DnsQuery lays them out (section 4.1 of
    RFC 1035): a 12-byte header, then the question, a QNAME of
    length-prefixed labels ended by a zero octet, a 16-bit QTYPE and a
    16-bit QCLASS. These functions say what the in-place writers of the
    DnsQuery class must leave in the request array. */
module QueryWire {
  import opened JavaPrims
  import opened Bits
  import opened DnsErrors

  const HEADER_SIZE := 12
  const QTYPE_QCLASS_SIZE := 4

  /** The two random bytes of the transaction ID. */
  type IdBytes = s: seq<JByte> | |s| == 2 witness [0, 0]

  /** The header setHeaderBytes writes: ID, flags 0x0100, QDCOUNT 1, ANCOUNT,
      NSCOUNT and ARCOUNT 0. */
  function Header(id: IdBytes): (h: seq<JByte>)
    ensures |h| == HEADER_SIZE && h[..2] == id
    ensures forall i | 2 <= i < HEADER_SIZE :: h[i] == (if i == 2 || i == 5 then 1 else 0)
  {
    id + [0x01, 0x00, 0x00, 0x01, 0x00, 0x00, 0x00, 0x00, 0x00, 0x00]
  }

  /** What the header bytes mean under section 4.1.1 of RFC 1035. */
  lemma HeaderLayout(id: IdBytes)
    ensures |Header(id)| == HEADER_SIZE
    ensures Header(id)[0..2] == id
    ensures GetWord(Header(id)[2..4]) == 0x0100
    ensures GetBit(Header(id)[2], 7) == 0                     // QR: a query
    ensures ShiftRight(Unsigned(Header(id)[2]), 3) % 16 == 0  // OPCODE: a standard query
    ensures GetBit(Header(id)[2], 0) == 1                     // RD: recursion desired
    ensures GetWord(Header(id)[4..6]) == 1                    // QDCOUNT
    ensures GetWord(Header(id)[6..8]) == 0                    // ANCOUNT
    ensures GetWord(Header(id)[8..10]) == 0                   // NSCOUNT
    ensures GetWord(Header(id)[10..12]) == 0                  // ARCOUNT
  {
    var h := Header(id);
    assert h[2] == 1;
    assert Halve(1, 3) == 0;
    assert h[2..4] == [1, 0] && h[4..6] == [0, 1];
    assert h[6..8] == [0, 0] && h[8..10] == [0, 0] && h[10..12] == [0, 0];
  }

  /** The size updateQNameSize adds up: one length octet plus the characters
      of each label. */
  function LabelsSize(labels: seq<string>): nat
  {
    if labels == [] then 0 else 1 + |labels[0]| + LabelsSize(labels[1..])
  }

  /** The QNAME size: the labels and the zero octet of the root. */
  function QNameSize(labels: seq<string>): (n: nat)
    ensures n == |EncodeName(labels)|
    ensures n >= |labels| + 1
  {
    LabelsSizeIsEncodedLength(labels);
    LabelsSizeAtLeastCount(labels);
    LabelsSize(labels) + 1
  }

  /** Each character cast to a byte, i.e. its low eight bits. */
  function CharBytes(lbl: string): seq<JByte>
  {
    seq(|lbl|, i requires 0 <= i < |lbl| => ToByte(lbl[i] as int))
  }

  /** One label as setQuestionBytes writes it: `(byte) label.length()`, then
      the characters. No check keeps the length below 64. */
  function EncodeLabel(lbl: string): seq<JByte>
  {
    [ToByte(|lbl|)] + CharBytes(lbl)
  }

  function EncodeLabels(labels: seq<string>): seq<JByte>
  {
    if labels == [] then [] else EncodeLabel(labels[0]) + EncodeLabels(labels[1..])
  }

  /** The QNAME: the labels, then the zero octet of the root. */
  function EncodeName(labels: seq<string>): seq<JByte>
  {
    EncodeLabels(labels) + [0x00]
  }

  /** The low byte of QTYPE: MX is 15, NS is 2, anything else asks for A, 1. */
  function TypeCode(queryType: string): JByte
  {
    if queryType == "MX" then 0x0f else if queryType == "NS" then 0x02 else 0x01
  }

  /** The question section: QNAME, QTYPE, and QCLASS IN. */
  function Question(labels: seq<string>, queryType: string): (q: seq<JByte>)
    ensures |q| == QNameSize(labels) + QTYPE_QCLASS_SIZE
    ensures q[QNameSize(labels) - 1] == 0
    ensures q[QNameSize(labels)..] == [0x00, TypeCode(queryType), 0x00, 0x01]
  {
    EncodeName(labels) + [0x00, TypeCode(queryType), 0x00, 0x01]
  }

  lemma {:induction false} EncodeLabelsAppend(a: seq<string>, b: seq<string>)
    ensures EncodeLabels(a + b) == EncodeLabels(a) + EncodeLabels(b)
  {
    if a != [] {
      assert (a + b)[1..] == a[1..] + b;
      EncodeLabelsAppend(a[1..], b);
    } else {
      assert a + b == b;
    }
  }

  lemma {:induction false} LabelsSizeAppend(a: seq<string>, b: seq<string>)
    ensures LabelsSize(a + b) == LabelsSize(a) + LabelsSize(b)
  {
    if a != [] {
      assert (a + b)[1..] == a[1..] + b;
      LabelsSizeAppend(a[1..], b);
    } else {
      assert a + b == b;
    }
  }

  /** The size counted by updateQNameSize is the number of bytes the labels take. */
  lemma {:induction false} LabelsSizeIsEncodedLength(labels: seq<string>)
    ensures |EncodeLabels(labels)| == LabelsSize(labels)
  {
    if labels != [] {
      LabelsSizeIsEncodedLength(labels[1..]);
    }
  }

  /** Every label takes at least its length octet. */
  lemma {:induction false} LabelsSizeAtLeastCount(labels: seq<string>)
    ensures LabelsSize(labels) >= |labels|
  {
    if labels != [] {
      LabelsSizeAtLeastCount(labels[1..]);
    }
  }

  /** The size computed in one place is the size written in the other: the
      QNAME takes QNameSize bytes, the question four more, and it ends with
      QTYPE (15 for MX, 2 for NS, else 1) and QCLASS IN (1) as big-endian words. */
  lemma QuestionLayout(labels: seq<string>, queryType: string)
    ensures |EncodeName(labels)| == QNameSize(labels)
    ensures |Question(labels, queryType)| == QNameSize(labels) + QTYPE_QCLASS_SIZE
    ensures var q := Question(labels, queryType);
      && q[..QNameSize(labels)] == EncodeName(labels)
      && q[QNameSize(labels) - 1] == 0
      && GetWord(q[QNameSize(labels)..]) == (if queryType == "MX" then 15 else if queryType == "NS" then 2 else 1)
      && GetWord(q[QNameSize(labels) + 2..]) == 1
  {
    LabelsSizeIsEncodedLength(labels);
  }

  // ----- how a name server reads the QNAME back (section 3.1 of RFC 1035) -----

  function Octets(bs: seq<JByte>): seq<int>
  {
    seq(|bs|, i requires 0 <= i < |bs| => Unsigned(bs[i]))
  }

  /** The character codes of a label. */
  function Codes(lbl: string): seq<int>
  {
    seq(|lbl|, i requires 0 <= i < |lbl| => lbl[i] as int)
  }

  function CodesOf(labels: seq<string>): seq<seq<int>>
  {
    seq(|labels|, i requires 0 <= i < |labels| => Codes(labels[i]))
  }

  /** A label a name can carry: 1 to 63 characters, each of them one octet. */
  predicate IsWireLabel(lbl: string)
  {
    1 <= |lbl| <= 63 && forall i | 0 <= i < |lbl| :: lbl[i] as int < 256
  }

  /** Reads an uncompressed name: length octets of 1 to 63, each followed by
      that many octets, up to a zero octet; None when the bytes are not such
      a name. Whatever follows the zero octet is not read. */
  function ReadName(b: seq<JByte>): Option<seq<seq<int>>>
    decreases |b|
  {
    if |b| == 0 then None
    else
      var len := Unsigned(b[0]);
      if len == 0 then Some([])
      else if len > 63 || |b| < 1 + len then None
      else match ReadName(b[1 + len..])
        case None => None
        case Some(rest) => Some([Octets(b[1..1 + len])] + rest)
  }

  lemma OctetsOfCharBytes(lbl: string)
    requires forall i | 0 <= i < |lbl| :: lbl[i] as int < 256
    ensures Octets(CharBytes(lbl)) == Codes(lbl)
  {
    forall i | 0 <= i < |lbl|
      ensures Octets(CharBytes(lbl))[i] == Codes(lbl)[i]
    {
      UnsignedOfToByte(lbl[i] as int);
    }
  }

  /** One label as encoded, followed by anything, reads as the label's codes
      followed by whatever that anything reads as. */
  lemma ReadLabel(lbl: string, tail: seq<JByte>)
    requires IsWireLabel(lbl)
    ensures var b := EncodeLabel(lbl) + tail;
      && Unsigned(b[0]) == |lbl|
      && b[1..1 + |lbl|] == CharBytes(lbl)
      && b[1 + |lbl|..] == tail
      && ReadName(b) == match ReadName(tail)
                          case None => None
                          case Some(rest) => Some([Codes(lbl)] + rest)
  {
    var b := EncodeLabel(lbl) + tail;
    UnsignedOfToByte(|lbl|);
    assert b[1..1 + |lbl|] == CharBytes(lbl);
    assert b[1 + |lbl|..] == tail;
    OctetsOfCharBytes(lbl);
  }

  lemma CodesOfCons(labels: seq<string>)
    requires labels != []
    ensures CodesOf(labels) == [Codes(labels[0])] + CodesOf(labels[1..])
  {
    var tail := CodesOf(labels[1..]);
    forall i | 0 <= i < |labels|
      ensures CodesOf(labels)[i] == ([Codes(labels[0])] + tail)[i]
    {
      if i > 0 {
        assert labels[i] == labels[1..][i - 1];
      }
    }
  }

  /** Round trip: labels of 1 to 63 one-octet characters, encoded as
      setQuestionBytes does, read back as themselves. */
  lemma {:induction false} ReadNameRoundTrip(labels: seq<string>, rest: seq<JByte>)
    requires forall i | 0 <= i < |labels| :: IsWireLabel(labels[i])
    ensures ReadName(EncodeName(labels) + rest) == Some(CodesOf(labels))
  {
    if labels == [] {
      assert EncodeName(labels) + rest == [0] + rest;
      assert CodesOf(labels) == [];
    } else {
      var tail := EncodeName(labels[1..]) + rest;
      assert EncodeName(labels) + rest == EncodeLabel(labels[0]) + tail;
      ReadNameRoundTrip(labels[1..], rest);
      ReadLabel(labels[0], tail);
      CodesOfCons(labels);
    }
  }

  /** No empty label is refused: an empty label (from "a..b" or ".a") is
      written as a zero octet, which ends the name there for any reader. */
  lemma {:induction false} EmptyLabelEndsName(labels: seq<string>, k: nat, rest: seq<JByte>)
    requires k < |labels| && labels[k] == ""
    requires forall i | 0 <= i < k :: IsWireLabel(labels[i])
    ensures ReadName(EncodeName(labels) + rest) == Some(CodesOf(labels[..k]))
  {
    if k == 0 {
      assert EncodeName(labels) + rest == [ToByte(0)] + EncodeName(labels[1..]) + rest;
      assert CodesOf(labels[..0]) == [];
    } else {
      var tail := EncodeName(labels[1..]) + rest;
      assert EncodeName(labels) + rest == EncodeLabel(labels[0]) + tail;
      EmptyLabelEndsName(labels[1..], k - 1, rest);
      ReadLabel(labels[0], tail);
      assert labels[1..][..k - 1] == labels[..k][1..];
      CodesOfCons(labels[..k]);
    }
  }
}
