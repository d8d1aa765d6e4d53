/** DnsResponse: checks the header of a received datagram and reads its
    section counts (section 4.1.1 of RFC 1035). The record walk that would
    follow is a stub in this client: `printRecord` returns 0 and the loops
    over the authority and additional sections have empty bodies, so the
    model reads no record either. */
module Response {
  import opened JavaPrims
  import opened Bits
  import opened DnsErrors

  /** The header fields the constructor stores. */
  datatype Summary = Summary(aa: bool, anCount: int, nsCount: int, arCount: int)

  /** The error for each RCODE: 1 to 5 each have their own, the rest pass. */
  function RCodeError(rcode: int): (r: Option<Error>)
    ensures r.Some? <==> 1 <= rcode <= 5
  {
    match rcode
    case 1 => Some(FormatError)
    case 2 => Some(ServerFailure)
    case 3 => Some(NameError)
    case 4 => Some(NotImplemented)
    case 5 => Some(Refused)
    case _ => None
  }

  /** The five RCODE errors are told apart. */
  lemma RCodeErrorsDistinct(x: int, y: int)
    requires 1 <= x <= 5 && 1 <= y <= 5 && x != y
    ensures RCodeError(x) != RCodeError(y)
  {
  }

  /** `validateResponse`: QR (bit 7 of byte 2) must be set, then RA (bit 7 of
      byte 3), then the RCODE (low four bits of byte 3) must not be 1 to 5.
      The first failing check decides the error. */
  function ValidateResponse(data: seq<JByte>): (r: Option<Error>)
    requires |data| >= 4
    ensures r == if Unsigned(data[2]) < 128 then Some(NotAResponse)
                 else if Unsigned(data[3]) < 128 then Some(RecursionUnsupported)
                 else RCodeError(Unsigned(data[3]) % 16)
  {
    BitOfUnsigned(data[2], 7);
    BitOfUnsigned(data[3], 7);
    assert forall u :: 0 <= u < 256 ==> (ShiftRight(u, 7) % 2 == 1 <==> u >= 128) by {
      forall u | 0 <= u < 256
        ensures ShiftRight(u, 7) % 2 == 1 <==> u >= 128
      {
        HalveByteUnsigned(u);
      }
    }
    if GetBit(data[2], 7) != 1 then Some(NotAResponse)
    else if GetBit(data[3], 7) != 1 then Some(RecursionUnsupported)
    else RCodeError(GetRCode(data[3]))
  }

  /** Seven one-bit shifts of an unsigned byte leave its top bit. */
  lemma HalveByteUnsigned(u: int)
    requires 0 <= u < 256
    ensures ShiftRight(u, 7) == if u >= 128 then 1 else 0
  {
    assert Halve(u, 1) == u / 2;
    assert Halve(u, 2) == u / 4;
    assert Halve(u, 3) == u / 8;
    assert Halve(u, 4) == u / 16;
    assert Halve(u, 5) == u / 32;
    assert Halve(u, 6) == u / 64;
    assert Halve(u, 7) == u / 128;
  }

  /** "Not a response" is raised exactly when QR is clear, whatever the rest. */
  lemma NotAResponseIffQueryBit(data: seq<JByte>)
    requires |data| >= 4
    ensures ValidateResponse(data) == Some(NotAResponse) <==> Unsigned(data[2]) < 128
  {
  }

  /** "No recursion" is raised exactly when QR is set and RA is clear. */
  lemma RecursionUnsupportedIff(data: seq<JByte>)
    requires |data| >= 4
    ensures ValidateResponse(data) == Some(RecursionUnsupported)
            <==> Unsigned(data[2]) >= 128 && Unsigned(data[3]) < 128
  {
  }

  /** A response passes exactly when QR and RA are set and RCODE is 0 or 6 to 15. */
  lemma ValidIff(data: seq<JByte>)
    requires |data| >= 4
    ensures ValidateResponse(data) == None
            <==> Unsigned(data[2]) >= 128 && Unsigned(data[3]) >= 128
                 && !(1 <= Unsigned(data[3]) % 16 <= 5)
  {
  }

  /** What the constructor leaves in the object's fields, or the error it throws. */
  function Decode(data: seq<JByte>): (r: Result<Summary>)
    requires |data| >= 10
    ensures r.Failure? <==> ValidateResponse(data).Some?
    ensures r.Failure? ==> ValidateResponse(data) == Some(r.error)
    ensures r.Success? ==>
      && (r.value.aa <==> ShiftRight(Unsigned(data[2]), 2) % 2 == 1)
      && r.value.anCount == Unsigned(data[6]) * 256 + Unsigned(data[7])
      && r.value.nsCount == Unsigned(data[8]) * 256 + Unsigned(data[9])
      && r.value.arCount == r.value.nsCount
  {
    BitOfUnsigned(data[2], 2);
    match ValidateResponse(data)
    case Some(e) => Failure(e)
    case None =>
      Success(Summary(GetBit(data[2], 2) == 1, GetWord(data[6..8]),
                      GetWord(data[8..10]), GetWord(data[8..10])))
  }

  class DnsResponse {
    const responseData: seq<JByte>
    const querySize: int
    const queryType: string
    var ANCount: int
    var NSCount: int
    var ARCount: int
    var AA: bool

    /** The field assignments that open the constructor, AA included; the
        counts keep Java's default 0 until updateRecordCounts. */
    constructor (responseData: seq<JByte>, querySize: int, queryType: string)
      requires |responseData| >= 10  // the header reads go up to byte 9
      ensures this.responseData == responseData && this.querySize == querySize
      ensures this.queryType == queryType
      ensures AA == (GetBit(responseData[2], 2) == 1)
      ensures ANCount == 0 && NSCount == 0 && ARCount == 0
    {
      this.responseData := responseData;
      this.querySize := querySize;
      this.queryType := queryType;
      AA := GetBit(responseData[2], 2) == 1;
      ANCount, NSCount, ARCount := 0, 0, 0;
    }

    function Fields(): Summary
      reads this
    {
      Summary(AA, ANCount, NSCount, ARCount)
    }

    /** `updateRecordCounts`: ANCOUNT from bytes 6-7, NSCOUNT from bytes 8-9,
        and ARCOUNT from bytes 8-9 again (section 4.1.1 of RFC 1035 puts it
        at 10-11). */
    method UpdateRecordCounts()
      requires |responseData| >= 10
      modifies this`ANCount, this`NSCount, this`ARCount
      ensures ANCount == GetWord(responseData[6..8])
      ensures NSCount == GetWord(responseData[8..10])
      ensures ARCount == NSCount
    {
      ANCount := GetWord([responseData[6], responseData[7]]);
      NSCount := GetWord([responseData[8], responseData[9]]);
      ARCount := GetWord([responseData[8], responseData[9]]);
    }

    /** `printRecord`: a stub that consumes no bytes. */
    function PrintRecord(): (consumed: int)
      ensures consumed == 0
    {
      0
    }

    /** `printRecords`: the record index starts right after the query and,
        since every record consumes nothing, is where it started at the end. */
    method PrintRecords() returns (index: int)
      ensures index == querySize
    {
      index := querySize;
      if ANCount > 0 {
        for i := 0 to ANCount
          invariant index == querySize
        {
          index := index + PrintRecord();
        }
      }
      if NSCount > 0 {
        for i := 0 to NSCount {
        }
      }
      if ARCount > 0 {
        for i := 0 to ARCount {
        }
      }
    }
  }

  /** `new DnsResponse(...)`: the fields, then validateResponse, and only
      when it passes updateRecordCounts and printRecords. */
  method NewDnsResponse(responseData: seq<JByte>, querySize: int, queryType: string)
    returns (r: Result<DnsResponse>)
    requires |responseData| >= 10
    ensures r.Failure? <==> Decode(responseData).Failure?
    ensures r.Failure? ==> r.error == Decode(responseData).error
    ensures r.Success? ==> fresh(r.value) && r.value.Fields() == Decode(responseData).value
    ensures r.Success? ==> r.value.responseData == responseData && r.value.querySize == querySize
  {
    var response := new DnsResponse(responseData, querySize, queryType);
    var invalid := ValidateResponse(responseData);
    if invalid.Some? {
      return Failure(invalid.value);
    }
    response.UpdateRecordCounts();
    var _ := response.PrintRecords();
    assert responseData[6..8] == [responseData[6], responseData[7]];
    assert responseData[8..10] == [responseData[8], responseData[9]];
    return Success(response);
  }
}
