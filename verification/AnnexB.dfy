/** Splitting an Annex B byte stream into NAL units
    (RtpH264Packetizer::extract_nal_units_annex_b in nxnet/rtp/rtp_h264_packetizer.cpp). */
module AnnexB {
  import opened Bytes
  import opened Sequences

  const START_CODE: bytes := [0, 0, 0, 1]

  predicate Code3(data: bytes, i: nat) {
    i + 2 < |data| && data[i] == 0 && data[i + 1] == 0 && data[i + 2] == 1
  }

  predicate Code4(data: bytes, i: nat) {
    i + 3 < |data| && data[i] == 0 && data[i + 1] == 0 && data[i + 2] == 0 && data[i + 3] == 1
  }

  predicate CodeAt(data: bytes, i: nat) {
    Code3(data, i) || Code4(data, i)
  }

  /** The first start code at or behind a position, with its length; (size, 0) if there is none. */
  function FirstCode(data: bytes, start: nat): (r: (nat, nat))
    requires start <= |data|
    ensures if r.1 == 0 then r.0 == |data| else start <= r.0 && r.0 + r.1 <= |data|
    decreases |data| - start
  {
    if start + 2 >= |data| then (|data|, 0)
    else if Code3(data, start) then (start, 3)
    else if Code4(data, start) then (start, 4)
    else FirstCode(data, start + 1)
  }

  lemma {:induction false} FirstCodeFound(data: bytes, start: nat)
    requires start <= |data|
    ensures var (p, len) := FirstCode(data, start);
            && (len != 0 ==> CodeAt(data, p) && len == (if Code3(data, p) then 3 else 4))
            && forall i | start <= i < p :: !CodeAt(data, i)
    decreases |data| - start
  {
    if start + 2 < |data| && !CodeAt(data, start) {
      FirstCodeFound(data, start + 1);
    }
  }

  /** Which position FirstCode returns is settled by where the codes are. */
  lemma FirstCodeIs(data: bytes, start: nat, p: nat)
    requires start <= p <= |data|
    requires forall i | start <= i < p :: !CodeAt(data, i)
    requires p == |data| || CodeAt(data, p)
    ensures FirstCode(data, start) == (p, if p == |data| then 0 else if Code3(data, p) then 3 else 4)
  {
    FirstCodeFound(data, start);
    var r := FirstCode(data, start);
    assert r.0 < p ==> CodeAt(data, r.0);
  }

  function UnitsFrom(data: bytes, pos: nat): seq<bytes>
    requires pos <= |data|
    decreases |data| - pos
  {
    if pos == |data| then [] else
      var (next, len) := FirstCode(data, pos);
      Piece(data, pos, next) + if len == 0 then [] else UnitsFrom(data, next + len)
  }

  /** The unit between a start code and the next one, unless they touch. */
  function Piece(data: bytes, pos: nat, next: nat): seq<bytes>
    requires pos <= next <= |data|
  {
    if next > pos then [data[pos..next]] else []
  }

  lemma UnitsFromStep(data: bytes, pos: nat, before: seq<bytes>)
    requires pos < |data|
    ensures var (next, len) := FirstCode(data, pos);
            before + UnitsFrom(data, pos) ==
            if len == 0 then before + Piece(data, pos, next)
            else (before + Piece(data, pos, next)) + UnitsFrom(data, next + len)
  {
    hide FirstCode, Piece;
    var (next, len) := FirstCode(data, pos);
    var mine, rest := Piece(data, pos, next), if len == 0 then [] else UnitsFrom(data, next + len);
    assert before + (mine + rest) == (before + mine) + rest;
    assert mine + [] == mine;
  }

  function Units(data: bytes): seq<bytes> {
    var (first, len) := FirstCode(data, 0);
    if len == 0 then (if data == [] then [] else [data]) else UnitsFrom(data, first + len)
  }

  // --------------------------------------------------------------- implementation

  method FindStartCode(data: bytes, start: nat) returns (pos: nat, len: nat)
    requires start <= |data|
    ensures (pos, len) == FirstCode(data, start)
  {
    var i := start;
    while i + 2 < |data|
      invariant start <= i <= |data|
      invariant FirstCode(data, i) == FirstCode(data, start)
    {
      if data[i] == 0 && data[i + 1] == 0 {
        if data[i + 2] == 1 {
          return i, 3;
        }
        if i + 3 < |data| && data[i + 2] == 0 && data[i + 3] == 1 {
          return i, 4;
        }
      }
      i := i + 1;
    }
    return |data|, 0;
  }

  method ExtractNalUnits(data: bytes) returns (nals: seq<bytes>)
    ensures nals == Units(data)
  {
    hide FirstCode, UnitsFrom;
    nals := [];
    var first, len := FindStartCode(data, 0);
    if len == 0 {
      if data != [] {
        nals := [data];
      }
      return;
    }
    var pos := first + len;
    assert nals + UnitsFrom(data, pos) == Units(data);
    while pos < |data|
      invariant pos <= |data|
      invariant nals + UnitsFrom(data, pos) == Units(data)
    {
      UnitsFromStep(data, pos, nals);
      var next, nextLen := FindStartCode(data, pos);
      if next > pos {
        nals := nals + [data[pos..next]];
      }
      if nextLen == 0 {
        return;
      }
      pos := next + nextLen;
    }
    assert UnitsFrom(data, |data|) == [] by { NoUnitsAtEnd(data); }
  }

  lemma NoUnitsAtEnd(data: bytes)
    ensures UnitsFrom(data, |data|) == []
  {
  }

  // -------------------------------------------------------------------- properties

  /** A unit that can stand between start codes: not empty, and without 00 00 01 inside. */
  predicate Clean(nal: bytes) {
    nal != [] && forall i | 0 <= i < |nal| :: !Code3(nal, i)
  }

  predicate AllClean(nals: seq<bytes>) {
    forall i | 0 <= i < |nals| :: Clean(nals[i])
  }

  /** Every unit behind a four-byte start code, the normal form the depacketizers produce. */
  function Join(nals: seq<bytes>): bytes {
    if nals == [] then [] else START_CODE + nals[0] + Join(nals[1..])
  }

  lemma SliceIsClean(data: bytes, pos: nat, next: nat)
    requires pos < next <= |data| && forall i | pos <= i < next :: !CodeAt(data, i)
    ensures Clean(data[pos..next])
  {
    var nal := data[pos..next];
    forall i | 0 <= i < |nal|
      ensures !Code3(nal, i)
    {
      assert !CodeAt(data, pos + i);
    }
  }

  lemma {:induction false} UnitsFromAreClean(data: bytes, pos: nat)
    requires pos <= |data|
    ensures AllClean(UnitsFrom(data, pos))
    decreases |data| - pos
  {
    hide Clean, FirstCode;
    if pos < |data| {
      FirstCodeFound(data, pos);
      var (next, len) := FirstCode(data, pos);
      if next > pos {
        SliceIsClean(data, pos, next);
      }
      assert AllClean(Piece(data, pos, next));
      if len != 0 {
        UnitsFromAreClean(data, next + len);
        CleanAppend(Piece(data, pos, next), UnitsFrom(data, next + len));
      }
    }
  }

  lemma CleanAppend(a: seq<bytes>, b: seq<bytes>)
    requires AllClean(a) && AllClean(b)
    ensures AllClean(a + b)
  {
  }

  lemma UnitsAreClean(data: bytes)
    ensures AllClean(Units(data))
  {
    hide FirstCode, UnitsFrom, Clean;
    FirstCodeFound(data, 0);
    var (first, len) := FirstCode(data, 0);
    if len != 0 {
      UnitsFromAreClean(data, first + len);
    } else if data != [] {
      SliceIsClean(data, 0, |data|);
      assert data[0..|data|] == data;
    }
  }

  lemma CodeAtShift(data: bytes, pos: nat, k: nat)
    requires pos <= |data|
    ensures Code3(data, pos + k) == Code3(data[pos..], k) && Code4(data, pos + k) == Code4(data[pos..], k)
  {
    var tail := data[pos..];
    assert forall j | 0 <= j < |tail| :: tail[j] == data[pos + j];
    assert k + 1 < |tail| ==> tail[k + 1] == data[pos + (k + 1)];
    assert k + 2 < |tail| ==> tail[k + 2] == data[pos + (k + 2)];
    assert k + 3 < |tail| ==> tail[k + 3] == data[pos + (k + 3)];
  }

  predicate BeginsWithCode(rest: bytes) {
    |rest| >= 4 && rest[0] == 0 && rest[1] == 0 && rest[2] == 0 && rest[3] == 1
  }

  lemma StartCodeBytes(rest: bytes)
    requires |rest| >= 4 && rest[..4] == START_CODE
    ensures BeginsWithCode(rest)
  {
    assert forall i | 0 <= i < 4 :: rest[i] == rest[..4][i] == START_CODE[i];
  }

  /** No start code begins inside a clean unit, trailing zeros and all, if a four-byte one follows or nothing. */
  lemma NoCodeInside(nal: bytes, rest: bytes, k: nat)
    requires Clean(nal) && (rest == [] || BeginsWithCode(rest)) && k < |nal|
    ensures !CodeAt(nal + rest, k)
  {
    var s := nal + rest;
    assert forall j | 0 <= j < |nal| :: s[j] == nal[j];
    assert forall j | 0 <= j < |rest| :: s[|nal| + j] == rest[j];
    assert !Code3(nal, k);
    assert k + 1 < |nal| ==> !Code3(nal, k + 1);
    assert rest != [] ==> s[|nal| + 0] == 0 && s[|nal| + 1] == 0 && s[|nal| + 2] == 0;
  }

  lemma CodeInRest(nal: bytes, rest: bytes)
    requires BeginsWithCode(rest)
    ensures Code4(nal + rest, |nal|) && !Code3(nal + rest, |nal|)
  {
    var s := nal + rest;
    assert s[|nal|..] == rest;
    assert forall j | 0 <= j < |rest| :: s[|nal| + j] == rest[j];
    assert s[|nal| + 0] == 0;
  }

  /** Behind a clean unit the next start code is the four-byte one. */
  lemma CodeBehindUnit(data: bytes, pos: nat, nal: bytes, rest: bytes)
    requires Clean(nal) && pos <= |data| && data[pos..] == nal + rest
    requires rest == [] || (|rest| >= 4 && rest[..4] == START_CODE)
    ensures FirstCode(data, pos) == (pos + |nal|, if rest == [] then 0 else 4)
  {
    hide Clean, Code3, Code4;
    var p := pos + |nal|;
    if rest != [] {
      StartCodeBytes(rest);
      CodeInRest(nal, rest);
      CodeAtShift(data, pos, |nal|);
    }
    forall i | pos <= i < p
      ensures !CodeAt(data, i)
    {
      NoCodeInside(nal, rest, i - pos);
      CodeAtShift(data, pos, i - pos);
    }
    FirstCodeIs(data, pos, p);
  }

  lemma CleanNotEmpty(nal: bytes)
    requires Clean(nal)
    ensures |nal| > 0
  {
  }

  lemma JoinFront(nals: seq<bytes>)
    ensures Join(nals) == [] <==> nals == []
    ensures nals != [] ==>
              && |Join(nals)| >= 4 && Join(nals)[..4] == START_CODE
              && Join(nals)[4..] == nals[0] + Join(nals[1..])
  {
    if nals != [] {
      assert Join(nals) == START_CODE + (nals[0] + Join(nals[1..]));
    }
  }

  /** The first unit behind a position, and the join of the others. */
  lemma FrontUnit(data: bytes, pos: nat, nals: seq<bytes>)
    requires AllClean(nals) && nals != [] && pos <= |data| && data[pos..] == nals[0] + Join(nals[1..])
    ensures var next := pos + |nals[0]|;
            && next <= |data| && nals[0] != []
            && FirstCode(data, pos) == (next, if nals[1..] == [] then 0 else 4)
            && data[pos..next] == nals[0]
            && (nals[1..] != [] ==>
                  next + 4 <= |data| && data[next + 4..] == nals[1] + Join(nals[2..]))
  {
    hide FirstCode, Clean, Join;
    var nal, rest := nals[0], Join(nals[1..]);
    CleanNotEmpty(nal);
    JoinFront(nals[1..]);
    CodeBehindUnit(data, pos, nal, rest);
    SplitTail(data, pos, nal, rest);
    if nals[1..] != [] {
      assert nals[1..][1..] == nals[2..];
      assert rest == START_CODE + rest[4..];
      SplitTail(data, pos + |nal|, START_CODE, rest[4..]);
    }
  }

  lemma {:induction false} UnitsOfJoinFrom(data: bytes, pos: nat, nals: seq<bytes>)
    requires AllClean(nals) && nals != [] && pos <= |data|
    requires data[pos..] == nals[0] + Join(nals[1..])
    ensures UnitsFrom(data, pos) == nals
    decreases |nals|
  {
    hide FirstCode, Clean, Join, UnitsFrom;
    FrontUnit(data, pos, nals);
    UnitsFromStep(data, pos, []);
    assert [] + UnitsFrom(data, pos) == UnitsFrom(data, pos);
    assert [] + [nals[0]] == [nals[0]] && [nals[0]] + nals[1..] == nals;
    if nals[1..] != [] {
      assert nals[1..][1..] == nals[2..];
      UnitsOfJoinFrom(data, pos + |nals[0]| + 4, nals[1..]);
    }
  }

  /** Annex B normal form: joining clean units and splitting again gives the list back. */
  lemma UnitsOfJoin(nals: seq<bytes>)
    requires AllClean(nals)
    ensures Units(Join(nals)) == nals
  {
    hide FirstCode, Clean, Join;
    var data := Join(nals);
    JoinFront(nals);
    if nals == [] {
      FirstCodeIs(data, 0, 0);
    } else {
      assert data[0] == data[..4][0] && data[1] == data[..4][1] && data[2] == data[..4][2] && data[3] == data[..4][3];
      FirstCodeIs(data, 0, 0);
      UnitsOfJoinFrom(data, 4, nals);
    }
  }

  /** Normalization is idempotent on every byte string. */
  lemma NormalizeTwice(data: bytes)
    ensures Units(Join(Units(data))) == Units(data)
  {
    UnitsAreClean(data);
    UnitsOfJoin(Units(data));
  }
}
