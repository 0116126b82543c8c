/** Finding the end of an RTSP response in a receive buffer
    (RtspParser::find_response_end in nxnet/rtsp/rtsp_parser.cpp). */
module RtspParser {
  import opened Bytes

  const SPACE: byte := 32
  const CRLF: bytes := [13, 10]
  const HEADER_END: bytes := [13, 10, 13, 10]
  /** "Content-Length:" and "content-length:". */
  const CONTENT_LENGTH: bytes := [67, 111, 110, 116, 101, 110, 116, 45, 76, 101, 110, 103, 116, 104, 58]
  const CONTENT_LENGTH_LOWER: bytes := [99, 111, 110, 116, 101, 110, 116, 45, 108, 101, 110, 103, 116, 104, 58]

  // ---------------------------------------------------------------- specification

  predicate MatchAt(data: bytes, pattern: bytes, i: nat) {
    i + |pattern| <= |data| && data[i..i + |pattern|] == pattern
  }

  /** std::string_view::find: the first match at or behind a position, or -1. */
  function Find(data: bytes, pattern: bytes, from: nat): (r: int)
    ensures r == -1 || (from <= r && r + |pattern| <= |data|)
    decreases if from <= |data| then |data| - from else 0
  {
    if from + |pattern| > |data| then -1
    else if MatchAt(data, pattern, from) then from
    else Find(data, pattern, from + 1)
  }

  function SkipSpaces(data: bytes, from: nat, to: nat): (r: nat)
    requires to <= |data|
    ensures from <= r && (from <= to ==> r <= to)
    decreases if from <= to then to - from else 0
  {
    if from < to && data[from] == SPACE then SkipSpaces(data, from + 1, to) else from
  }

  predicate IsDigit(b: byte) { 48 <= b <= 57 }

  datatype Number = NotANumber | Number(value: nat)

  /** The decimal digits at the front, behind a value already read. */
  function Digits(s: bytes, acc: nat): nat {
    if s == [] || !IsDigit(s[0]) then acc else Digits(s[1..], acc * 10 + (s[0] - 48))
  }

  /** std::from_chars into a 64-bit size: at least one digit, and no overflow. */
  function FromChars(s: bytes): Number {
    if s == [] || !IsDigit(s[0]) then NotANumber else
      var n := Digits(s, 0);
      if n < 0x1_0000_0000_0000_0000 then Number(n) else NotANumber
  }

  /** Where the length header's name begins: the usual spelling first, the lower-case one only if the
      usual one is nowhere in the data. */
  function LengthHeader(data: bytes): (r: int)
    ensures r == -1 || 0 <= r <= |data| - 15
  {
    var cl := Find(data, CONTENT_LENGTH, 0);
    if cl != -1 then cl else Find(data, CONTENT_LENGTH_LOWER, 0)
  }

  /** What follows once the header end and a length header in front of it are found. */
  function EndByLength(data: bytes, headerEnd: nat, cl: nat): (r: nat)
    requires headerEnd + 4 <= |data| && cl + 15 <= |data|
    ensures r <= |data|
  {
    var valueStart := SkipSpaces(data, cl + 15, headerEnd);
    var valueEnd := Find(data, CRLF, valueStart);
    if valueEnd == -1 then 0 else
      match FromChars(data[valueStart..valueEnd])
      case NotANumber => headerEnd + 4
      case Number(n) =>
        var total := (headerEnd + 4 + n) % 0x1_0000_0000_0000_0000;
        if |data| < total then 0 else total
  }

  function FindResponseEnd(data: bytes): (r: nat)
    ensures r <= |data|
  {
    var headerEnd := Find(data, HEADER_END, 0);
    if headerEnd == -1 then 0 else
      var cl := LengthHeader(data);
      if cl == -1 || cl > headerEnd then headerEnd + 4 else EndByLength(data, headerEnd, cl)
  }

  /** find_response_end. */
  method FindEnd(data: bytes) returns (end: nat)
    ensures end == FindResponseEnd(data)
  {
    hide Find, EndByLength;
    var headerEnd := Find(data, HEADER_END, 0);
    if headerEnd == -1 { return 0; }
    var bodyStart := headerEnd + 4;
    var cl := Find(data, CONTENT_LENGTH, 0);
    if cl == -1 {
      cl := Find(data, CONTENT_LENGTH_LOWER, 0);
    }
    if cl == -1 || cl > headerEnd { return bodyStart; }
    end := FindEndByLength(data, headerEnd, cl);
  }

  /** The second half of find_response_end, with its loop over the blanks in front of the length. */
  method FindEndByLength(data: bytes, headerEnd: nat, cl: nat) returns (end: nat)
    requires headerEnd + 4 <= |data| && cl + 15 <= |data|
    ensures end == EndByLength(data, headerEnd, cl)
  {
    hide Find, FromChars;
    var bodyStart := headerEnd + 4;
    var valueStart := cl + 15;
    while valueStart < headerEnd && data[valueStart] == SPACE
      invariant cl + 15 <= valueStart
      invariant SkipSpaces(data, valueStart, headerEnd) == SkipSpaces(data, cl + 15, headerEnd)
      decreases headerEnd - valueStart
    {
      valueStart := valueStart + 1;
    }
    var valueEnd := Find(data, CRLF, valueStart);
    if valueEnd == -1 { return 0; }
    match FromChars(data[valueStart..valueEnd])
    case NotANumber => return bodyStart;
    case Number(length) =>
      var total := (bodyStart + length) % 0x1_0000_0000_0000_0000;
      return if |data| < total then 0 else total;
  }

  // -------------------------------------------------------------------- properties

  /** Where the matches are settles what the search returns. */
  lemma {:induction false} FindIs(data: bytes, pattern: bytes, from: nat, r: int)
    requires r == -1 || (from <= r && MatchAt(data, pattern, r))
    requires forall i | from <= i && (r == -1 || i < r) :: !MatchAt(data, pattern, i)
    ensures Find(data, pattern, from) == r
    decreases if from <= |data| then |data| - from else 0
  {
    if from + |pattern| <= |data| && !MatchAt(data, pattern, from) {
      FindIs(data, pattern, from + 1, r);
    }
  }

  lemma {:induction false} FoundFirst(data: bytes, pattern: bytes, from: nat)
    ensures var r := Find(data, pattern, from);
            && (r != -1 ==> MatchAt(data, pattern, r))
            && forall i | from <= i && (r == -1 || i < r) :: !MatchAt(data, pattern, i)
    decreases if from <= |data| then |data| - from else 0
  {
    if from + |pattern| <= |data| && !MatchAt(data, pattern, from) {
      FoundFirst(data, pattern, from + 1);
    }
  }

  /** Searching a prefix finds what searching the whole finds, if it lies inside. */
  lemma FindInPrefix(data: bytes, pattern: bytes, from: nat, p: nat)
    requires p <= |data|
    ensures var r := Find(data, pattern, from);
            Find(data[..p], pattern, from) == if r != -1 && r + |pattern| <= p then r else -1
  {
    var r := Find(data, pattern, from);
    var part := data[..p];
    FoundFirst(data, pattern, from);
    forall i: nat
      ensures MatchAt(part, pattern, i) <==> MatchAt(data, pattern, i) && i + |pattern| <= p
    {
      if i + |pattern| <= p {
        assert part[i..i + |pattern|] == data[i..i + |pattern|];
      }
    }
    FindIs(part, pattern, from, if r != -1 && r + |pattern| <= p then r else -1);
  }

  /** The name of a length header never reaches into the header end: it has no carriage return. */
  lemma NoOverlap(data: bytes, name: bytes, i: nat, headerEnd: nat)
    requires name == CONTENT_LENGTH || name == CONTENT_LENGTH_LOWER
    requires MatchAt(data, name, i) && MatchAt(data, HEADER_END, headerEnd) && i <= headerEnd
    ensures i + 15 <= headerEnd
  {
    assert data[headerEnd..headerEnd + 4][0] == 13;
    assert forall k | i <= k < i + 15 :: data[k] == data[i..i + 15][k - i] != 13;
  }

  lemma {:induction false} SkipSpacesInPrefix(data: bytes, from: nat, to: nat, p: nat)
    requires to <= p <= |data|
    ensures SkipSpaces(data[..p], from, to) == SkipSpaces(data, from, to)
    decreases if from <= to then to - from else 0
  {
    if from < to && data[from] == SPACE {
      SkipSpacesInPrefix(data, from + 1, to, p);
    }
  }

  /** A length header, if any, is spelled the usual way: then it does not matter what follows the response. */
  predicate UsualSpelling(response: bytes) {
    var headerEnd := Find(response, HEADER_END, 0);
    && headerEnd != -1
    && (0 <= Find(response, CONTENT_LENGTH, 0) <= headerEnd
        || !(0 <= Find(response, CONTENT_LENGTH_LOWER, 0) <= headerEnd))
  }

  /** A complete response, as one message. */
  predicate WholeResponse(response: bytes) {
    UsualSpelling(response) && FindResponseEnd(response) == |response|
  }

  /** The value of a length header ends inside the headers. */
  lemma ValueEnds(data: bytes, headerEnd: nat, vs: nat)
    requires MatchAt(data, HEADER_END, headerEnd) && vs <= headerEnd
    ensures vs <= Find(data, CRLF, vs) <= headerEnd
  {
    FoundFirst(data, CRLF, vs);
    assert data[headerEnd..headerEnd + 2] == data[headerEnd..headerEnd + 4][..2] == CRLF;
    assert MatchAt(data, CRLF, headerEnd);
  }

  /** The length-header branch depends only on bytes up to the header end. */
  lemma EndByLengthInPrefix(data: bytes, headerEnd: nat, cl: nat, p: nat)
    requires headerEnd + 4 <= p <= |data| && cl + 15 <= headerEnd && MatchAt(data, HEADER_END, headerEnd)
    ensures var whole, part := EndByLength(data, headerEnd, cl), EndByLength(data[..p], headerEnd, cl);
            part == if whole <= p then whole else 0
  {
    hide FromChars, Digits, SkipSpaces, Find;
    SkipSpacesInPrefix(data, cl + 15, headerEnd, p);
    var vs := SkipSpaces(data, cl + 15, headerEnd);
    ValueEnds(data, headerEnd, vs);
    FindInPrefix(data, CRLF, vs, p);
    var ve := Find(data, CRLF, vs);
    assert data[..p][vs..ve] == data[vs..ve];
  }

  /** Until its last byte is there, a response is not taken from the buffer. */
  lemma IncompleteIsZero(response: bytes, p: nat)
    requires WholeResponse(response) && p < |response|
    ensures FindResponseEnd(response[..p]) == 0
  {
    hide EndByLength, Find;
    var headerEnd := Find(response, HEADER_END, 0);
    FindInPrefix(response, HEADER_END, 0, p);
    if headerEnd + 4 <= p {
      var cl := Find(response, CONTENT_LENGTH, 0);
      FindInPrefix(response, CONTENT_LENGTH, 0, p);
      FoundFirst(response, CONTENT_LENGTH, 0);
      FoundFirst(response, HEADER_END, 0);
      NoOverlap(response, CONTENT_LENGTH, cl, headerEnd);
      EndByLengthInPrefix(response, headerEnd, cl, p);
    }
  }

  /** A header name found inside the headers is found there whatever follows, and the other way round. */
  lemma NameInHeaders(data: bytes, name: bytes, p: nat, headerEnd: nat)
    requires name == CONTENT_LENGTH || name == CONTENT_LENGTH_LOWER
    requires p <= |data| && headerEnd == Find(data, HEADER_END, 0) && headerEnd + 4 <= p
    ensures var whole, part := Find(data, name, 0), Find(data[..p], name, 0);
            && (0 <= whole <= headerEnd <==> 0 <= part <= headerEnd)
            && (0 <= whole <= headerEnd ==> whole == part && whole + 15 <= headerEnd)
  {
    hide Find;
    FindInPrefix(data, name, 0, p);
    FoundFirst(data, name, 0);
    FoundFirst(data, HEADER_END, 0);
    if 0 <= Find(data, name, 0) <= headerEnd {
      NoOverlap(data, name, Find(data, name, 0), headerEnd);
    }
  }

  /** Once it is complete, exactly the response is taken, whatever follows it. */
  lemma CompleteIsTaken(response: bytes, more: bytes)
    requires WholeResponse(response)
    ensures FindResponseEnd(response + more) == |response|
  {
    hide EndByLength, Find;
    var data, p := response + more, |response|;
    assert data[..p] == response;
    var headerEnd := Find(response, HEADER_END, 0);
    FindInPrefix(data, HEADER_END, 0, p);
    FoundFirst(data, HEADER_END, 0);
    FoundFirst(response, HEADER_END, 0);
    assert Find(data, HEADER_END, 0) == headerEnd by { FoundEarlier(data, HEADER_END, p); }
    NameInHeaders(data, CONTENT_LENGTH, p, headerEnd);
    NameInHeaders(data, CONTENT_LENGTH_LOWER, p, headerEnd);
    if 0 <= Find(data, CONTENT_LENGTH, 0) <= headerEnd {
      EndByLengthInPrefix(data, headerEnd, Find(data, CONTENT_LENGTH, 0), p);
    }
  }

  /** What is found in a prefix is what is found in the whole. */
  lemma FoundEarlier(data: bytes, pattern: bytes, p: nat)
    requires p <= |data| && Find(data[..p], pattern, 0) != -1
    ensures Find(data, pattern, 0) == Find(data[..p], pattern, 0)
  {
    FindInPrefix(data, pattern, 0, p);
  }

  /** With the lower-case spelling it does depend on what follows: a later "Content-Length:", anywhere in the
      buffer, makes the parser overlook the response's own length, and the body is taken for the next message. */
  lemma LowerCaseDependsOnWhatFollows(response: bytes, more: bytes)
    requires Find(response, HEADER_END, 0) != -1 && FindResponseEnd(response) == |response|
    requires Find(response, CONTENT_LENGTH, 0) == -1
    requires 0 <= Find(response, CONTENT_LENGTH_LOWER, 0) <= Find(response, HEADER_END, 0)
    ensures FindResponseEnd(response + more) == |response|
       <==> (Find(response + more, CONTENT_LENGTH, 0) == -1 || |response| == Find(response, HEADER_END, 0) + 4)
  {
    hide EndByLength, Find;
    var data, p := response + more, |response|;
    assert data[..p] == response;
    var headerEnd := Find(response, HEADER_END, 0);
    FoundEarlier(data, HEADER_END, p);
    FoundFirst(data, HEADER_END, 0);
    NameInHeaders(data, CONTENT_LENGTH, p, headerEnd);
    NameInHeaders(data, CONTENT_LENGTH_LOWER, p, headerEnd);
    EndByLengthInPrefix(data, headerEnd, Find(data, CONTENT_LENGTH_LOWER, 0), p);
  }

  /** "RTSP/1.0 200 OK" with its line end. */
  const STATUS_LINE: bytes := [82, 84, 83, 80, 47, 49, 46, 48, 32, 50, 48, 48, 32, 79, 75, 13, 10]
  /** A response with the lower-case length header and a body of one byte, and the like in the usual spelling. */
  const LOWER_CASE_RESPONSE: bytes := STATUS_LINE + CONTENT_LENGTH_LOWER + [49, 13, 10, 13, 10, 88]
  const NEXT_RESPONSE: bytes := STATUS_LINE + CONTENT_LENGTH + [49, 13, 10, 13, 10, 89]

  lemma MatchBytes(data: bytes, pattern: bytes, i: nat)
    requires MatchAt(data, pattern, i)
    ensures forall k | i <= k < i + |pattern| :: data[k] == pattern[k - i]
  {
    assert forall k | i <= k < i + |pattern| :: data[i..i + |pattern|][k - i] == data[k];
  }

  /** Where the carriage returns and the letters c of the lower-case response are. */
  lemma LowerCaseBytes()
    ensures var d := LOWER_CASE_RESPONSE;
            && |d| == 38 && d[32..33] == [49]
            && MatchAt(d, CONTENT_LENGTH_LOWER, 17) && MatchAt(d, HEADER_END, 33) && MatchAt(d, CRLF, 33)
            && forall i | 0 <= i < 38 :: d[i] != 67 && (d[i] == 99 ==> i >= 17) && (d[i] == 13 ==> i == 15 || i >= 33)
    ensures LOWER_CASE_RESPONSE[17] != 13 && LOWER_CASE_RESPONSE[32] != SPACE
  {
    var d := LOWER_CASE_RESPONSE;
    assert d[17..32] == CONTENT_LENGTH_LOWER;
    assert d[33..37] == HEADER_END;
    assert d[33..35] == CRLF;
  }

  lemma LowerCaseFinds()
    ensures Find(LOWER_CASE_RESPONSE, HEADER_END, 0) == 33
    ensures Find(LOWER_CASE_RESPONSE, CONTENT_LENGTH, 0) == -1
    ensures Find(LOWER_CASE_RESPONSE, CONTENT_LENGTH_LOWER, 0) == 17
    ensures Find(LOWER_CASE_RESPONSE, CRLF, 32) == 33
  {
    hide Find, MatchAt;
    var d := LOWER_CASE_RESPONSE;
    LowerCaseBytes();
    forall i: nat
      ensures !MatchAt(d, CONTENT_LENGTH, i)
      ensures i < 17 ==> !MatchAt(d, CONTENT_LENGTH_LOWER, i)
      ensures i < 33 ==> !MatchAt(d, HEADER_END, i)
      ensures 32 <= i < 33 ==> !MatchAt(d, CRLF, i)
    {
      if MatchAt(d, CONTENT_LENGTH, i) { MatchesInside(d, CONTENT_LENGTH, i); }
      if MatchAt(d, CONTENT_LENGTH_LOWER, i) { MatchesInside(d, CONTENT_LENGTH_LOWER, i); }
      if MatchAt(d, HEADER_END, i) { MatchesInside(d, HEADER_END, i); }
      if MatchAt(d, CRLF, i) { MatchesInside(d, CRLF, i); }
    }
    FindIs(d, CONTENT_LENGTH, 0, -1);
    FindIs(d, CONTENT_LENGTH_LOWER, 0, 17);
    FindIs(d, HEADER_END, 0, 33);
    FindIs(d, CRLF, 32, 33);
  }

  lemma MatchesInside(data: bytes, pattern: bytes, i: nat)
    requires MatchAt(data, pattern, i) && pattern != []
    ensures i + |pattern| <= |data| && data[i] == pattern[0]
    ensures |pattern| > 2 ==> data[i + 2] == pattern[2]
  {
    MatchBytes(data, pattern, i);
  }

  lemma OneDigit()
    ensures FromChars([49]) == Number(1)
  {
    assert [49][1..] == [];
    assert Digits([49], 0) == Digits([], 1) == 1;
  }

  /** It does happen: two such responses, one behind the other, and the body of the first is left in the buffer. */
  lemma LowerCaseFails()
    ensures FindResponseEnd(LOWER_CASE_RESPONSE) == |LOWER_CASE_RESPONSE| == 38
    ensures FindResponseEnd(LOWER_CASE_RESPONSE + NEXT_RESPONSE) == 37
  {
    hide Find, FromChars, MatchAt;
    var d, more := LOWER_CASE_RESPONSE, NEXT_RESPONSE;
    LowerCaseBytes();
    LowerCaseFinds();
    OneDigit();
    assert SkipSpaces(d, 32, 33) == 32;
    assert EndByLength(d, 33, 17) == 38;
    UsualIsLater();
    FoundEarlier(d + more, HEADER_END, 38);
    assert (d + more)[..38] == d;
    NameInHeaders(d + more, CONTENT_LENGTH, 38, 33);
  }

  /** The usual spelling is somewhere in the two. */
  lemma UsualIsLater()
    ensures Find(LOWER_CASE_RESPONSE + NEXT_RESPONSE, CONTENT_LENGTH, 0) != -1
  {
    hide Find;
    var data := LOWER_CASE_RESPONSE + NEXT_RESPONSE;
    assert |LOWER_CASE_RESPONSE| == 38;
    var tail: bytes := [49, 13, 10, 13, 10, 89];
    assert data == (LOWER_CASE_RESPONSE + STATUS_LINE) + (CONTENT_LENGTH + tail);
    assert data[55..70] == CONTENT_LENGTH;
    FoundFirst(data, CONTENT_LENGTH, 0);
    assert MatchAt(data, CONTENT_LENGTH, 55);
  }
}
