/** find_response_end on responses as a server writes them: header lines, the blank line, and the body. */
module RtspResponseFormat {
  import opened Bytes
  import opened Sequences
  import opened RtspParser

  /** The number that decimal digits stand for. */
  function ValueOf(digits: bytes): nat {
    if digits == [] then 0 else
      var last := digits[|digits| - 1] as int;
      ValueOf(digits[..|digits| - 1]) * 10 + (if last > 48 then last - 48 else 0)
  }

  predicate AllDigits(s: bytes) {
    forall i | 0 <= i < |s| :: 48 <= s[i] <= 57
  }

  function Blanks(n: nat): (s: bytes)
    ensures |s| == n
  {
    seq(n, i => 32)
  }

  /** No occurrence of a pattern begins in front of a position. */
  predicate NowhereBefore(data: bytes, pattern: bytes, end: nat) {
    forall i: nat | i < end :: !MatchAt(data, pattern, i)
  }

  /** A value and what is behind it in its line: digits, and then nothing that would continue them. */
  predicate IsValue(digits: bytes, rest: bytes) {
    && AllDigits(digits) && 13 !in rest
    && (rest != [] ==> !(48 <= rest[0] <= 57))
    && (digits == [] && rest != [] ==> rest[0] != 32)
  }

  /** A header section with a length header in some line. */
  datatype Section = Section(before: bytes, blanks: nat, digits: bytes, rest: bytes, after: bytes)

  function Text(h: Section, name: bytes): bytes {
    h.before + (name + (Blanks(h.blanks) + (h.digits + (h.rest + h.after))))
  }

  /** The name's first occurrence is this one, the line ends in front of another line or of the blank line, and the
      blank line is the first. */
  predicate WellFormed(h: Section, name: bytes, data: bytes) {
    && IsValue(h.digits, h.rest)
    && (h.after != [] ==> CRLF <= h.after)
    && Text(h, name) + HEADER_END <= data
    && NowhereBefore(data, HEADER_END, |Text(h, name)|)
    && NowhereBefore(data, name, |h.before|)
  }

  /** What should come out: without digits, or with more than 64 bits of them, there is no body; else the body's
      length, the sum in 64 bits, and nothing before it has arrived. */
  function ExpectedEnd(bodyStart: nat, digits: bytes, arrived: nat): nat {
    if digits == [] || ValueOf(digits) >= 0x1_0000_0000_0000_0000 then bodyStart else
      var end := (bodyStart + ValueOf(digits)) % 0x1_0000_0000_0000_0000;
      if arrived < end then 0 else end
  }

  // -------------------------------------------------------------------------- digits

  lemma {:induction false} DigitsAre(s: bytes, rest: bytes, acc: nat)
    requires AllDigits(s) && (rest != [] ==> !(48 <= rest[0] <= 57))
    ensures Digits(s + rest, acc) == acc * Power10(|s|) + ValueOf(s)
    decreases |s|
  {
    if s == [] {
      Empty(rest);
      assert acc * 1 == acc;
    } else {
      Front(s, rest);
      var d: nat := s[0] - 48;
      DigitsAre(s[1..], rest, acc * 10 + d);
      FrontDigit(s);
      TenTimes(acc, d, Power10(|s| - 1));
    }
  }

  lemma TenTimes(acc: nat, d: nat, p: nat)
    ensures (acc * 10 + d) * p == acc * (10 * p) + d * p
  {
  }

  function Power10(n: nat): nat {
    if n == 0 then 1 else 10 * Power10(n - 1)
  }

  /** The first digit counts the most. */
  lemma {:induction false} FrontDigit(s: bytes)
    requires s != [] && AllDigits(s)
    ensures ValueOf(s) == (s[0] - 48) * Power10(|s| - 1) + ValueOf(s[1..])
    decreases |s|
  {
    hide ValueOf, Power10;
    var n, d: nat := |s| - 1, s[0] - 48;
    ValueStep(s);
    if n == 0 {
      assert s[..0] == [] && s[1..] == [];
      PowerStep(0);
      ValueStep([]);
    } else {
      var init := s[..n];
      FrontDigit(init);
      ValueStep(s[1..]);
      assert s[1..][..n - 1] == init[1..] && s[1..][n - 1] == s[n];
      PowerStep(n);
      Shift(d, Power10(n - 1));
    }
  }

  lemma ValueStep(s: bytes)
    requires AllDigits(s)
    ensures ValueOf(s) == if s == [] then 0 else ValueOf(s[..|s| - 1]) * 10 + (s[|s| - 1] - 48)
  {
  }

  lemma PowerStep(n: nat)
    ensures Power10(n) == if n == 0 then 1 else 10 * Power10(n - 1)
  {
  }

  lemma {:induction false} Shift(d: nat, p: nat)
    ensures (d * p) * 10 == d * (10 * p)
  {
    if d > 0 {
      Shift(d - 1, p);
      assert d * p == (d - 1) * p + p && d * (10 * p) == (d - 1) * (10 * p) + 10 * p;
    }
  }

  lemma NumberIs(digits: bytes, rest: bytes)
    requires IsValue(digits, rest)
    ensures FromChars(digits + rest) ==
            if digits == [] || ValueOf(digits) >= 0x1_0000_0000_0000_0000 then NotANumber else Number(ValueOf(digits))
  {
    hide ValueOf, Digits;
    DigitsAre(digits, rest, 0);
    if digits == [] { Empty(rest); } else { Front(digits, rest); }
  }

  // --------------------------------------------------------------------------- search

  lemma {:induction false} BlanksSkipped(data: bytes, from: nat, n: nat, to: nat)
    requires from + n <= to <= |data| && data[from..from + n] == Blanks(n)
    requires from + n < to ==> data[from + n] != 32
    ensures SkipSpaces(data, from, to) == from + n
    decreases n
  {
    if n > 0 {
      assert data[from] == data[from..from + n][0];
      assert data[from + 1..from + n] == data[from..from + n][1..] == Blanks(n - 1);
      BlanksSkipped(data, from + 1, n - 1, to);
    }
  }

  lemma FirstIs(data: bytes, pattern: bytes, p: nat)
    requires MatchAt(data, pattern, p) && NowhereBefore(data, pattern, p)
    ensures Find(data, pattern, 0) == p
  {
    FindIs(data, pattern, 0, p);
  }

  /** A line ends at the first carriage return. */
  lemma LineEnds(data: bytes, from: nat, to: nat)
    requires from <= to && MatchAt(data, CRLF, to) && 13 !in data[from..to]
    ensures Find(data, CRLF, from) == to
  {
    forall i | from <= i < to ensures !MatchAt(data, CRLF, i) {
      assert data[from..to][i - from] == data[i];
      if i + 2 <= |data| { assert data[i..i + 2][0] == data[i]; }
    }
    FindIs(data, CRLF, from, to);
  }

  /** Where the parts of the header section lie. */
  lemma PartsLie(h: Section, name: bytes, data: bytes)
    requires WellFormed(h, name, data) && |name| == 15
    ensures var cl, headerEnd := |h.before|, |Text(h, name)|;
            var vs := cl + 15 + h.blanks;
            var ve := vs + |h.digits| + |h.rest|;
            && vs <= ve <= headerEnd && headerEnd + 4 <= |data|
            && MatchAt(data, name, cl) && MatchAt(data, HEADER_END, headerEnd)
            && data[cl + 15..vs] == Blanks(h.blanks) && data[vs..ve] == h.digits + h.rest
            && MatchAt(data, CRLF, ve)
  {
    hide Blanks, IsValue, NowhereBefore, Text;
    var t := Text(h, name);
    var cl := |h.before|;
    var vs := cl + 15 + h.blanks;
    var ve := vs + |h.digits| + |h.rest|;
    TextParts(h, name);
    assert data[..|t|] == t;
    SliceOfSlice(data, 0, |t|, cl, cl + 15);
    SliceOfSlice(data, 0, |t|, cl + 15, vs);
    SliceOfSlice(data, 0, |t|, vs, ve);
    assert data[|t|..|t| + 4] == (t + HEADER_END)[|t|..] == HEADER_END;
    LineBehind(h, data, t, ve);
  }

  lemma TextParts(h: Section, name: bytes)
    requires |name| == 15
    ensures var t, cl := Text(h, name), |h.before|;
            var vs := cl + 15 + h.blanks;
            var ve := vs + |h.digits| + |h.rest|;
            && vs <= ve <= |t|
            && t[cl..cl + 15] == name && t[cl + 15..vs] == Blanks(h.blanks) && t[vs..ve] == h.digits + h.rest
            && t[ve..] == h.after
  {
    hide Text;
    var t, cl, blanks, value := Text(h, name), |h.before|, Blanks(h.blanks), h.digits + h.rest;
    TextIs(h, name);
    FourParts(t, h.before, name, blanks, value, h.after);
  }

  lemma TextIs(h: Section, name: bytes)
    ensures Text(h, name) == h.before + (name + (Blanks(h.blanks) + ((h.digits + h.rest) + h.after)))
  {
    hide Blanks;
    Assoc(h.digits, h.rest, h.after);
  }

  lemma FourParts(t: bytes, a: bytes, b: bytes, c: bytes, d: bytes, e: bytes)
    requires t == a + (b + (c + (d + e)))
    ensures var i, j, k := |a|, |a| + |b|, |a| + |b| + |c|;
            && i <= j <= k <= k + |d| <= |t|
            && t[i..j] == b && t[j..k] == c && t[k..k + |d|] == d && t[k + |d|..] == e
  {
    assert t[0..] == t;
    SplitTail(t, 0, a, b + (c + (d + e)));
    SplitTail(t, |a|, b, c + (d + e));
    SplitTail(t, |a| + |b|, c, d + e);
    SplitTail(t, |a| + |b| + |c|, d, e);
  }

  lemma LineBehind(h: Section, data: bytes, t: bytes, ve: nat)
    requires (h.after != [] ==> CRLF <= h.after) && ve <= |t| && t[ve..] == h.after && t + HEADER_END <= data
    ensures MatchAt(data, CRLF, ve)
  {
    assert data[ve..ve + 2] == (t + HEADER_END)[ve..ve + 2];
    if h.after == [] {
      assert (t + HEADER_END)[ve..ve + 2] == HEADER_END[..2];
    } else {
      assert (t + HEADER_END)[ve..ve + 2] == t[ve..][..2] == CRLF;
    }
  }

  lemma EndIs(h: Section, name: bytes, data: bytes)
    requires WellFormed(h, name, data) && |name| == 15
    ensures |Text(h, name)| + 4 <= |data| && |h.before| + 15 <= |data|
    ensures EndByLength(data, |Text(h, name)|, |h.before|) == ExpectedEnd(|Text(h, name)| + 4, h.digits, |data|)
  {
    hide Find, SkipSpaces, FromChars, Text, NowhereBefore, Blanks, ValueOf;
    PartsLie(h, name, data);
    var cl, headerEnd := |h.before|, |Text(h, name)|;
    var vs := cl + 15 + h.blanks;
    var ve := vs + |h.digits| + |h.rest|;
    ValueStart(h, data, vs, ve, headerEnd);
    BlanksSkipped(data, cl + 15, h.blanks, headerEnd);
    assert 13 !in h.digits + h.rest;
    LineEnds(data, vs, ve);
    NumberIs(h.digits, h.rest);
  }

  lemma ValueStart(h: Section, data: bytes, vs: nat, ve: nat, headerEnd: nat)
    requires IsValue(h.digits, h.rest) && vs <= ve <= headerEnd <= |data|
    requires data[vs..ve] == h.digits + h.rest && MatchAt(data, CRLF, ve)
    ensures vs < headerEnd ==> data[vs] != 32
  {
    if vs < ve {
      assert data[vs] == data[vs..ve][0];
    } else {
      assert data[vs] == data[ve..ve + 2][0];
    }
  }

  // -------------------------------------------------------------------------- results

  /** With a length header in the usual spelling: whatever the lines around it, and whatever has arrived behind
      them. */
  lemma LengthDecides(h: Section, data: bytes)
    requires WellFormed(h, CONTENT_LENGTH, data)
    ensures FindResponseEnd(data) == ExpectedEnd(|Text(h, CONTENT_LENGTH)| + 4, h.digits, |data|)
  {
    hide Find, Text, NowhereBefore, EndByLength, ExpectedEnd, IsValue;
    PartsLie(h, CONTENT_LENGTH, data);
    FirstIs(data, HEADER_END, |Text(h, CONTENT_LENGTH)|);
    FirstIs(data, CONTENT_LENGTH, |h.before|);
    EndIs(h, CONTENT_LENGTH, data);
  }

  /** With one in the lower-case spelling, if the usual one is nowhere in the data. */
  lemma LowerCaseDecides(h: Section, data: bytes)
    requires WellFormed(h, CONTENT_LENGTH_LOWER, data) && NowhereBefore(data, CONTENT_LENGTH, |data|)
    ensures FindResponseEnd(data) == ExpectedEnd(|Text(h, CONTENT_LENGTH_LOWER)| + 4, h.digits, |data|)
  {
    hide Find, Text, EndByLength, ExpectedEnd, IsValue, MatchAt;
    PartsLie(h, CONTENT_LENGTH_LOWER, data);
    FirstIs(data, HEADER_END, |Text(h, CONTENT_LENGTH_LOWER)|);
    FirstIs(data, CONTENT_LENGTH_LOWER, |h.before|);
    Absent(data, CONTENT_LENGTH);
    EndIs(h, CONTENT_LENGTH_LOWER, data);
  }

  lemma Absent(data: bytes, pattern: bytes)
    requires NowhereBefore(data, pattern, |data|) && pattern != []
    ensures Find(data, pattern, 0) == -1
  {
    FindIs(data, pattern, 0, -1);
  }

  /** Without a length header in the section the response ends with its blank line, and without a blank line nothing
      is taken. */
  lemma NoLengthNoBody(section: bytes, data: bytes)
    requires section + HEADER_END <= data && NowhereBefore(data, HEADER_END, |section|)
    requires NowhereBefore(data, CONTENT_LENGTH, |section| + 1)
    requires NowhereBefore(data, CONTENT_LENGTH_LOWER, |section| + 1)
    ensures FindResponseEnd(data) == |section| + 4
  {
    hide Find, EndByLength, MatchAt;
    assert MatchAt(data, HEADER_END, |section|) by { StandsAt(section, HEADER_END, data); }
    FirstIs(data, HEADER_END, |section|);
    FoundFirst(data, CONTENT_LENGTH, 0);
    FoundFirst(data, CONTENT_LENGTH_LOWER, 0);
  }

  lemma StandsAt(front: bytes, pattern: bytes, data: bytes)
    requires front + pattern <= data
    ensures MatchAt(data, pattern, |front|)
  {
    assert data[|front|..|front| + |pattern|] == (front + pattern)[|front|..];
  }

  lemma NoBlankLineNothing(data: bytes)
    requires NowhereBefore(data, HEADER_END, |data|)
    ensures FindResponseEnd(data) == 0
  {
    hide Find;
    Absent(data, HEADER_END);
  }
}
