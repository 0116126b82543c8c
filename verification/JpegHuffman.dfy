/** Decoding canonical Huffman codes from JPEG scan data (decode_huffman_symbol and try_decode_block in
    nxmedia/codec/jpeg_parser.cpp; annex C and section F.2.2 of ITU-T Rec. T.81). */
module JpegHuffman {
  import opened Bytes
  import opened Sequences
  import opened JpegBitReader

  // ------------------------------------------------------------------ the standard's codes

  /** The counts of codes of each length, 1 to 16: BITS in the standard. */
  predicate IsCounts(counts: bytes) {
    |counts| == 16
  }

  /** The number of codes up to a length. */
  function Before(counts: bytes, len: nat): nat
    requires len <= |counts|
  {
    if len == 0 then 0 else Before(counts, len - 1) + counts[len - 1]
  }

  /** HUFFSIZE of section C.2: the lengths of the codes in order (Generate_size_table). */
  function HuffSizes(counts: bytes, len: nat): (s: seq<nat>)
    requires len <= |counts|
    ensures |s| == Before(counts, len)
    ensures forall k | 0 <= k < |s| :: 1 <= s[k] <= len
    ensures forall j, k | 0 <= j < k < |s| :: s[j] <= s[k]
  {
    if len == 0 then [] else HuffSizes(counts, len - 1) + seq(counts[len - 1], i => len)
  }

  predicate IsSizes(sizes: seq<nat>) {
    forall j, k | 0 <= j < k < |sizes| :: sizes[j] <= sizes[k]
  }

  /** HUFFCODE of section C.2 (Generate_code_table): each code is its predecessor plus one, with zeros shifted
      in when the length grows. */
  function HuffCode(sizes: seq<nat>, k: nat): nat
    requires IsSizes(sizes) && k < |sizes|
  {
    if k == 0 then 0 else Successor(HuffCode(sizes, k - 1), sizes[k] - sizes[k - 1])
  }

  function Successor(code: nat, zeros: nat): nat {
    (code + 1) * Pow2(zeros)
  }

  /** The code of the k-th symbol as bits. */
  function CodeBits(counts: bytes, k: nat): Bits
    requires IsCounts(counts) && k < Before(counts, 16)
  {
    var sizes := HuffSizes(counts, 16);
    BitsOf(HuffCode(sizes, k), sizes[k])
  }

  /** The left side of Kraft's inequality, times 2^16. */
  function KraftSum(counts: bytes, len: nat): nat
    requires len <= |counts| == 16
  {
    if len == 0 then 0 else KraftSum(counts, len - 1) + counts[len - 1] * Pow2(16 - len)
  }

  predicate Kraft(counts: bytes)
    requires IsCounts(counts)
  {
    KraftSum(counts, 16) <= Pow2(16)
  }

  // -------------------------------------------------------------------------- the decoder

  const CODE_RANGE := 0x1_0000

  /** The cast to uint16_t. */
  function Cut(x: nat): (r: nat)
    ensures r < CODE_RANGE
  {
    x % CODE_RANGE
  }

  predicate Matches(code: nat, firstCode: nat, count: nat) {
    count > 0 && code >= firstCode && Cut(code - firstCode) < count
  }

  /** The decoding loop from a length on: the index of the symbol, or -1, and the bits behind it.
      code and firstCode are 16 bits wide. */
  function DecodeFrom(counts: bytes, bits: Bits, len: nat, code: nat, firstCode: nat, valueIdx: nat): (r: (int, Bits))
    requires IsCounts(counts) && 1 <= len <= 17
    decreases 17 - len
  {
    if len == 17 || bits == [] then (-1, bits) else
      var code' := Cut(code * 2 + bits[0]);
      var count := counts[len - 1];
      if Matches(code', firstCode, count)
      then (valueIdx + (code' - firstCode), bits[1..])
      else DecodeFrom(counts, bits[1..], len + 1, code', Cut((firstCode + count) * 2), valueIdx + count)
  }

  function DecodeIndex(counts: bytes, bits: Bits): (int, Bits)
    requires IsCounts(counts)
  {
    DecodeFrom(counts, bits, 1, 0, 0, 0)
  }

  lemma NoneBefore(counts: bytes)
    ensures Before(counts, 0) == 0 == FirstCode(counts, 1)
  {
  }

  lemma Unroll(counts: bytes, bits: Bits, len: nat, code: nat, firstCode: nat, valueIdx: nat)
    requires IsCounts(counts) && 1 <= len <= 17
    ensures DecodeFrom(counts, bits, len, code, firstCode, valueIdx) ==
            if len == 17 || bits == [] then (-1, bits) else
              var code' := Cut(code * 2 + bits[0]);
              var count := counts[len - 1];
              if Matches(code', firstCode, count)
              then (valueIdx + (code' - firstCode), bits[1..])
              else DecodeFrom(counts, bits[1..], len + 1, code', Cut((firstCode + count) * 2), valueIdx + count)
  {
  }

  lemma {:induction false} IndexBound(counts: bytes, bits: Bits, len: nat, code: nat, firstCode: nat, valueIdx: nat)
    requires IsCounts(counts) && 1 <= len <= 17 && valueIdx == Before(counts, len - 1)
    ensures DecodeFrom(counts, bits, len, code, firstCode, valueIdx).0 < Before(counts, 16)
    ensures |DecodeFrom(counts, bits, len, code, firstCode, valueIdx).1| <= |bits|
    decreases 17 - len
  {
    hide Cut, Before;
    BeforeGrows(counts, len - 1, 16);
    Unroll(counts, bits, len, code, firstCode, valueIdx);
    if len < 17 && bits != [] {
      BeforeGrows(counts, len, 16);
      NextLevel(counts, len);
      var code' := Cut(code * 2 + bits[0]);
      var count := counts[len - 1];
      if Matches(code', firstCode, count) {
        MatchDistance(code', firstCode, count);
      }
      IndexBound(counts, bits[1..], len + 1, code', Cut((firstCode + count) * 2), valueIdx + count);
    }
  }

  lemma MatchDistance(code: nat, firstCode: nat, count: nat)
    requires code < CODE_RANGE && Matches(code, firstCode, count)
    ensures firstCode <= code < firstCode + count
  {
  }

  lemma {:induction false} BeforeGrows(counts: bytes, a: nat, b: nat)
    requires a <= b <= |counts|
    ensures Before(counts, a) <= Before(counts, b)
  {
    if a < b {
      BeforeGrows(counts, a, b - 1);
    }
  }

  /** decode_huffman_symbol. */
  method DecodeSymbol(reader: JpegBitReader, counts: bytes, values: bytes) returns (symbol: int)
    requires reader.Valid() && IsCounts(counts) && |values| >= Before(counts, 16)
    modifies reader
    ensures reader.Valid()
    ensures var (index, rest) := DecodeIndex(counts, old(reader.Unread()));
            if index < 0 then symbol == -1
            else index < |values| && symbol == values[index]
                 && reader.Unread() == rest && reader.error == old(reader.error)
  {
    hide DecodeFrom, Before, Cut;
    ghost var bits := reader.Unread();
    var code, valueIdx, firstCode := 0, 0, 0;
    assert Before(counts, 0) == 0 by { NoneBefore(counts); }
    IndexBound(counts, bits, 1, 0, 0, 0);
    for len := 1 to 17
      invariant reader.Valid() && reader.error == old(reader.error)
      invariant 0 <= firstCode < CODE_RANGE && 0 <= code && 0 <= valueIdx
      invariant DecodeIndex(counts, bits) == DecodeFrom(counts, reader.Unread(), len, code, firstCode, valueIdx)
    {
      Unroll(counts, reader.Unread(), len, code, firstCode, valueIdx);
      var bit := reader.ReadBit();
      if bit < 0 { return -1; }
      code := Cut(code * 2 + bit);
      var count := counts[len - 1];
      if Matches(code, firstCode, count) {
        return values[valueIdx + (code - firstCode)];
      }
      valueIdx := valueIdx + count;
      firstCode := Cut((firstCode + count) * 2);
    }
    Unroll(counts, reader.Unread(), 17, code, firstCode, valueIdx);
    return -1;
  }

  // -------------------------------------------------- the decoder's levels are the standard's

  /** The first code of each length, without the cut to 16 bits. */
  function FirstCode(counts: bytes, len: nat): nat
    requires 1 <= len <= |counts| + 1
  {
    if len == 1 then 0 else (FirstCode(counts, len - 1) + counts[len - 2]) * 2
  }

  lemma SizesStep(counts: bytes, top: nat)
    requires 0 < top <= |counts|
    ensures HuffSizes(counts, top) == HuffSizes(counts, top - 1) + seq(counts[top - 1], i => top)
  {
  }

  lemma {:induction false} SizeAt(counts: bytes, len: nat, k: nat, top: nat)
    requires 1 <= len <= top <= |counts| && Before(counts, len - 1) <= k < Before(counts, len)
    ensures k < Before(counts, top) && HuffSizes(counts, top)[k] == len
  {
    hide HuffSizes, Before;
    SizesStep(counts, top);
    NextLevel(counts, top);
    if len < top {
      SizeAt(counts, len, k, top - 1);
    }
  }

  lemma InLevel(counts: bytes, len: nat, j: nat)
    requires 1 <= len <= |counts| && j < counts[len - 1]
    ensures Before(counts, len - 1) <= Before(counts, len - 1) + j < Before(counts, len)
  {
  }

  lemma CodeStep(sizes: seq<nat>, k: nat)
    requires IsSizes(sizes) && k < |sizes|
    ensures HuffCode(sizes, k) == if k == 0 then 0 else Successor(HuffCode(sizes, k - 1), sizes[k] - sizes[k - 1])
  {
  }

  lemma SuccessorSteps(code: nat, zeros: nat)
    ensures Successor(code, 0) == code + 1
    ensures Successor(code, zeros + 1) == Successor(code, zeros) * 2
  {
    DoublingPower(code + 1, zeros + 1);
    assert Pow2(0) == 1;
  }

  /** Where a level starts, seen from the last code before it. */
  lemma {:induction false} LevelStart(counts: bytes, len: nat)
    requires IsCounts(counts) && 1 <= len <= 16
    ensures Before(counts, len - 1) <= Before(counts, 16)
    ensures var sizes, k := HuffSizes(counts, 16), Before(counts, len - 1);
            if k == 0 then FirstCode(counts, len) == 0
            else sizes[k - 1] <= len && FirstCode(counts, len) == Successor(HuffCode(sizes, k - 1), len - sizes[k - 1])
    decreases len, 0
  {
    hide HuffCode, HuffSizes, Successor, Before, FirstCode;
    BeforeGrows(counts, len - 1, 16);
    if len == 1 {
      NoneBefore(counts);
    } else {
      var sizes, k, count := HuffSizes(counts, 16), Before(counts, len - 1), counts[len - 2];
      NextLevel(counts, len - 1);
      if count == 0 {
        LevelStart(counts, len - 1);
        if k != 0 {
          SuccessorSteps(HuffCode(sizes, k - 1), len - 1 - sizes[k - 1]);
        }
      } else {
        LevelCodes(counts, len - 1, count - 1);
        SuccessorSteps(HuffCode(sizes, k - 1), 0);
      }
    }
  }

  lemma DoublingPower(a: nat, n: nat)
    requires n > 0
    ensures a * Pow2(n) == (a * Pow2(n - 1)) * 2
  {
  }

  /** The codes of one length are consecutive and begin with the first code of the length. */
  lemma {:induction false} LevelCodes(counts: bytes, len: nat, j: nat)
    requires IsCounts(counts) && 1 <= len <= 16 && j < counts[len - 1]
    ensures var sizes, k := HuffSizes(counts, 16), Before(counts, len - 1) + j;
            k < |sizes| && sizes[k] == len && HuffCode(sizes, k) == FirstCode(counts, len) + j
    decreases len, 1, j
  {
    hide HuffSizes, HuffCode, FirstCode, Successor, Before;
    var sizes, k := HuffSizes(counts, 16), Before(counts, len - 1) + j;
    InLevel(counts, len, j);
    SizeAt(counts, len, k, 16);
    CodeStep(sizes, k);
    if j == 0 {
      LevelStart(counts, len);
    } else {
      LevelCodes(counts, len, j - 1);
      SuccessorSteps(HuffCode(sizes, k - 1), 0);
    }
  }

  lemma {:induction false} LevelOf(counts: bytes, k: nat, top: nat) returns (len: nat)
    requires top <= |counts| && k < Before(counts, top)
    ensures 1 <= len <= top && Before(counts, len - 1) <= k < Before(counts, len)
  {
    if Before(counts, top - 1) <= k {
      len := top;
    } else {
      len := LevelOf(counts, k, top - 1);
    }
  }

  /** A symbol's code as a bit string: the length is its level, the value counts from the level's first code. */
  lemma CodeIs(counts: bytes, k: nat) returns (len: nat)
    requires IsCounts(counts) && Kraft(counts) && k < Before(counts, 16)
    ensures 1 <= len <= 16 && Before(counts, len - 1) <= k < Before(counts, len)
    ensures |CodeBits(counts, k)| == len
    ensures ValueOf(CodeBits(counts, k)) == FirstCode(counts, len) + (k - Before(counts, len - 1))
  {
    hide HuffSizes, HuffCode, FirstCode, Pow2, Kraft;
    len := LevelOf(counts, k, 16);
    LevelCodes(counts, len, k - Before(counts, len - 1));
    CodesFit(counts, len);
    ValueOfBits(HuffCode(HuffSizes(counts, 16), k), len);
  }

  // ------------------------------------------------------------------- Kraft's inequality

  lemma {:induction false} KraftGrows(counts: bytes, a: nat, b: nat)
    requires IsCounts(counts) && a <= b <= 16
    ensures KraftSum(counts, a) <= KraftSum(counts, b)
  {
    hide Pow2;
    if a < b {
      KraftGrows(counts, a, b - 1);
    }
  }

  /** The codes used up to a length, measured on the last level. */
  lemma {:induction false} KraftIs(counts: bytes, len: nat)
    requires IsCounts(counts) && 1 <= len <= 16
    ensures KraftSum(counts, len) == (FirstCode(counts, len) + counts[len - 1]) * Pow2(16 - len)
  {
    var f, c, p := FirstCode(counts, len), counts[len - 1], Pow2(16 - len);
    if len > 1 {
      KraftIs(counts, len - 1);
      var g := FirstCode(counts, len - 1) + counts[len - 2];
      assert f == g * 2;
      DoublingPower(g, 17 - len);
      assert KraftSum(counts, len - 1) == (g * 2) * p by { Reorder(g, p); }
    }
    assert (f + c) * p == f * p + c * p by { Distribute(f, c, p); }
  }

  lemma {:induction false} Distribute(a: nat, b: nat, p: nat)
    ensures (a + b) * p == a * p + b * p
  {
    if p > 0 {
      Distribute(a, b, p - 1);
      assert a * p == a * (p - 1) + a && b * p == b * (p - 1) + b && (a + b) * p == (a + b) * (p - 1) + (a + b);
    }
  }

  lemma {:induction false} Reorder(g: nat, p: nat)
    ensures (g * p) * 2 == (g * 2) * p
  {
    if p > 0 {
      Reorder(g, p - 1);
      assert g * p == g * (p - 1) + g && (g * 2) * p == (g * 2) * (p - 1) + g * 2;
    }
  }

  lemma {:induction false} PowerSplit(a: nat, b: nat)
    ensures Pow2(a + b) == Pow2(a) * Pow2(b)
  {
    if a > 0 {
      PowerSplit(a - 1, b);
      Reorder(Pow2(a - 1), Pow2(b));
    }
  }

  lemma Smaller(x: nat, y: nat, p: nat)
    requires p > 0 && x * p <= y * p
    ensures x <= y
  {
  }

  /** Under Kraft's inequality every code fits into its length. */
  lemma CodesFit(counts: bytes, len: nat)
    requires IsCounts(counts) && Kraft(counts) && 1 <= len <= 16
    ensures FirstCode(counts, len) + counts[len - 1] <= Pow2(len)
  {
    hide Pow2, FirstCode, KraftSum;
    KraftGrows(counts, len, 16);
    KraftIs(counts, len);
    PowerSplit(len, 16 - len);
    Smaller(FirstCode(counts, len) + counts[len - 1], Pow2(len), Pow2(16 - len));
  }

  // ------------------------------------------------------------------------- one symbol

  /** No proper prefix of a code reaches into the codes of its own length. */
  lemma {:induction false} NoEarlyMatch(counts: bytes, w: Bits, len: nat)
    requires IsCounts(counts) && 1 <= len <= |w| <= 16
    requires FirstCode(counts, |w|) <= ValueOf(w)
    ensures FirstCode(counts, len) <= ValueOf(w[..len])
    ensures len < |w| ==> FirstCode(counts, len) + counts[len - 1] <= ValueOf(w[..len])
    decreases |w| - len
  {
    if len == |w| {
      assert w[..len] == w;
    } else {
      NoEarlyMatch(counts, w, len + 1);
      assert w[..len + 1][..len] == w[..len];
      assert FirstCode(counts, len + 1) == (FirstCode(counts, len) + counts[len - 1]) * 2;
    }
  }

  lemma {:induction false} PowerGrows(a: nat, b: nat)
    requires a <= b
    ensures Pow2(a) <= Pow2(b)
  {
    if a < b {
      PowerGrows(a, b - 1);
    }
  }

  /** Up to 16 bits fit into the 16-bit code variable. */
  lemma ShortValue(w: Bits)
    requires |w| <= 16
    ensures ValueOf(w) < CODE_RANGE
  {
    BitsOfValue(w);
    PowerGrows(|w|, 16);
    assert Pow2(16) == 256 * Pow2(8) == 65536;
  }

  lemma ValueOfSnoc(w: Bits, len: nat)
    requires len < |w|
    ensures ValueOf(w[..len + 1]) == 2 * ValueOf(w[..len]) + w[len]
  {
    assert w[..len + 1][..len] == w[..len];
  }

  lemma {:induction false} DecodeWord(counts: bytes, w: Bits, rest: Bits, len: nat)
    requires IsCounts(counts) && 1 <= len <= |w| <= 16
    requires FirstCode(counts, |w|) <= ValueOf(w) < FirstCode(counts, |w|) + counts[|w| - 1]
    ensures DecodeFrom(counts, w[len - 1..] + rest, len, ValueOf(w[..len - 1]), FirstCode(counts, len),
                       Before(counts, len - 1))
         == (Before(counts, |w| - 1) + (ValueOf(w) - FirstCode(counts, |w|)), rest)
    decreases |w| - len
  {
    hide DecodeFrom, ValueOf, FirstCode, Before, Cut, Matches;
    var bits := w[len - 1..] + rest;
    NoEarlyMatch(counts, w, len);
    ShortValue(w[..len]);
    ValueOfSnoc(w, len - 1);
    Unroll(counts, bits, len, ValueOf(w[..len - 1]), FirstCode(counts, len), Before(counts, len - 1));
    assert bits[0] == w[len - 1] && bits[1..] == w[len..] + rest;
    if len == |w| {
      assert w[..len] == w && w[len..] + rest == rest;
      Uncut(FirstCode(counts, len), counts[len - 1], ValueOf(w));
    } else {
      NoEarlyMatch(counts, w, len + 1);
      ShortValue(w[..len + 1]);
      Uncut(FirstCode(counts, len), counts[len - 1], ValueOf(w[..len]));
      Uncut(FirstCode(counts, len + 1), 0, ValueOf(w[..len + 1]));
      NextLevel(counts, len);
      DecodeWord(counts, w, rest, len + 1);
    }
  }

  /** Numbers below 2^16 are compared as they are. */
  lemma Uncut(f: nat, count: nat, v: nat)
    requires f <= v < CODE_RANGE
    ensures Cut(v) == v && Cut(f) == f && (Matches(v, f, count) <==> v < f + count)
  {
  }

  lemma NextLevel(counts: bytes, len: nat)
    requires 1 <= len <= |counts|
    ensures FirstCode(counts, len + 1) == (FirstCode(counts, len) + counts[len - 1]) * 2
    ensures Before(counts, len) == Before(counts, len - 1) + counts[len - 1]
  {
  }

  /** A symbol's code is decoded to the symbol, and exactly its bits are consumed. */
  lemma CodeIsDecoded(counts: bytes, k: nat, rest: Bits)
    requires IsCounts(counts) && Kraft(counts) && k < Before(counts, 16)
    ensures DecodeIndex(counts, CodeBits(counts, k) + rest) == (k, rest)
  {
    hide DecodeFrom, HuffSizes, HuffCode, CodeBits, Kraft;
    var len := CodeIs(counts, k);
    var w := CodeBits(counts, k);
    NextLevel(counts, len);
    DecodeWord(counts, w, rest, 1);
    assert w[0..] == w && ValueOf(w[..0]) == 0;
  }

  /** The other direction: whatever is decoded was a code. */
  lemma {:induction false} DecodedFrom(counts: bytes, prefix: Bits, bits: Bits)
    requires IsCounts(counts) && Kraft(counts) && |prefix| <= 16
    ensures var len := |prefix| + 1;
            var (index, rest) :=
              DecodeFrom(counts, bits, len, ValueOf(prefix), Cut(FirstCode(counts, len)), Before(counts, len - 1));
            0 <= index ==> index < Before(counts, 16) && prefix + bits == CodeBits(counts, index) + rest
    decreases 17 - |prefix|
  {
    hide DecodeFrom, ValueOf, FirstCode, Before, CodeBits, Kraft, Pow2, Cut, Matches;
    var len := |prefix| + 1;
    Unroll(counts, bits, len, ValueOf(prefix), Cut(FirstCode(counts, len)), Before(counts, len - 1));
    if len < 17 && bits != [] {
      var w := prefix + [bits[0]];
      ValueOfSnoc(w, len - 1);
      assert w[..len] == w && w[..len - 1] == prefix;
      ShortValue(w);
      CodesFit(counts, len);
      SixteenBits(len);
      NextLevel(counts, len);
      var f, count, v := FirstCode(counts, len), counts[len - 1], ValueOf(w);
      MatchIsExact(f, count, v);
      assert w + bits[1..] == prefix + bits;
      if count > 0 && f <= v < f + count {
        CodeFound(counts, w);
      } else {
        DecodedFrom(counts, w, bits[1..]);
      }
    }
  }

  lemma SixteenBits(len: nat)
    requires len <= 16
    ensures Pow2(len) <= CODE_RANGE
  {
    PowerGrows(len, 16);
    assert Pow2(16) == 256 * Pow2(8) == 65536;
  }

  /** With Kraft's inequality the cut to 16 bits changes nothing that matters. */
  lemma MatchIsExact(f: nat, count: nat, v: nat)
    requires f + count <= CODE_RANGE && v < CODE_RANGE
    ensures Cut(v) == v && (Matches(v, Cut(f), count) <==> count > 0 && f <= v < f + count)
    ensures count > 0 ==> Cut(f) == f
    ensures Cut((Cut(f) + count) * 2) == Cut((f + count) * 2)
  {
  }

  /** A symbol belongs to one length. */
  lemma OneLevel(counts: bytes, k: nat, a: nat, b: nat)
    requires 1 <= a <= |counts| && Before(counts, a - 1) <= k < Before(counts, a)
    requires 1 <= b <= |counts| && Before(counts, b - 1) <= k < Before(counts, b)
    ensures a == b
  {
    hide Before;
    if a < b {
      BeforeGrows(counts, a, b - 1);
    } else if b < a {
      BeforeGrows(counts, b, a - 1);
    }
  }

  lemma CodeFound(counts: bytes, w: Bits)
    requires IsCounts(counts) && Kraft(counts) && 1 <= |w| <= 16
    requires FirstCode(counts, |w|) <= ValueOf(w) < FirstCode(counts, |w|) + counts[|w| - 1]
    ensures var k := Before(counts, |w| - 1) + (ValueOf(w) - FirstCode(counts, |w|));
            k < Before(counts, 16) && CodeBits(counts, k) == w
  {
    hide ValueOf, FirstCode, HuffSizes, HuffCode, CodeBits, Kraft, Pow2, Before, BitsOf;
    var k := Before(counts, |w| - 1) + (ValueOf(w) - FirstCode(counts, |w|));
    NextLevel(counts, |w|);
    BeforeGrows(counts, |w|, 16);
    var len := CodeIs(counts, k);
    OneLevel(counts, k, len, |w|);
    BitsOfValue(w);
    BitsOfValue(CodeBits(counts, k));
  }

  /** Decoding is exact: a symbol comes out if and only if its code is in front. */
  lemma DecodesExactly(counts: bytes, bits: Bits, k: nat, rest: Bits)
    requires IsCounts(counts) && Kraft(counts) && k < Before(counts, 16)
    ensures DecodeIndex(counts, bits) == (k, rest) <==> bits == CodeBits(counts, k) + rest
  {
    hide DecodeFrom, CodeBits, Kraft;
    CodeIsDecoded(counts, k, rest);
    DecodedFrom(counts, [], bits);
    assert [] + bits == bits;
  }

  // ------------------------------------------------------------------------- whole blocks

  /** A Huffman table: counts and symbols. */
  datatype Table = Table(counts: bytes, values: bytes)

  predicate IsTable(t: Table) {
    IsCounts(t.counts) && |t.values| >= Before(t.counts, 16)
  }

  /** The sizes of DC differences stay below 31 bits, so that reading one does not overflow an int. */
  predicate IsDcTable(t: Table) {
    IsTable(t) && forall i | 0 <= i < |t.values| :: t.values[i] < 31
  }

  /** The symbol in front, or -1. */
  function DecodedSymbol(t: Table, bits: Bits): (r: (int, Bits))
    requires IsTable(t)
    ensures r.0 == -1 || exists i | 0 <= i < |t.values| :: r.0 == t.values[i]
  {
    var (index, rest) := DecodeIndex(t.counts, bits);
    IndexBound(t.counts, bits, 1, 0, 0, 0);
    if index < 0 then (-1, rest) else (t.values[index], rest)
  }

  /** The AC loop of try_decode_block: whether it succeeds, and the bits behind the block. */
  function AcFrom(ac: Table, bits: Bits, count: nat): (bool, Bits)
    requires IsTable(ac) && count <= 63
    decreases 63 - count
  {
    if count == 63 then (true, bits) else
      var (symbol, rest) := DecodedSymbol(ac, bits);
      if symbol < 0 then (false, rest)
      else if symbol == 0 then (true, rest)
      else
        var run, size := symbol / 16, symbol % 16;
        if count + run + 1 > 63 || |rest| < size then (false, rest)
        else AcFrom(ac, rest[size..], count + run + 1)
  }

  function TryBlock(dc: Table, ac: Table, bits: Bits): (bool, Bits)
    requires IsDcTable(dc) && IsTable(ac)
  {
    var (size, rest) := DecodedSymbol(dc, bits);
    if size < 0 || |rest| < size then (false, rest) else AcFrom(ac, rest[size..], 0)
  }

  /** try_decode_block. */
  method TryDecodeBlock(reader: JpegBitReader, dc: Table, ac: Table) returns (ok: bool)
    requires reader.Valid() && IsDcTable(dc) && IsTable(ac)
    modifies reader
    ensures reader.Valid()
    ensures ok == TryBlock(dc, ac, old(reader.Unread())).0
    ensures ok ==> reader.Unread() == TryBlock(dc, ac, old(reader.Unread())).1
  {
    hide DecodeFrom, DecodeIndex, ValueOf;
    var dcSize := Symbol(reader, dc);
    if dcSize < 0 { return false; }
    if dcSize > 0 {
      var value := reader.ReadBits(dcSize);
      if value < 0 { return false; }
    }
    ghost var start := reader.Unread();
    var acCount := 0;
    while acCount < 63
      invariant reader.Valid() && 0 <= acCount <= 63
      invariant AcFrom(ac, start, 0) == AcFrom(ac, reader.Unread(), acCount)
      decreases 63 - acCount
    {
      var symbol := Symbol(reader, ac);
      if symbol < 0 { return false; }
      if symbol == 0 { return true; }
      var run, size := symbol / 16, symbol % 16;
      if acCount + run + 1 > 63 { return false; }
      if size > 0 {
        var value := reader.ReadBits(size);
        if value < 0 { return false; }
      }
      acCount := acCount + run + 1;
    }
    return true;
  }

  method Symbol(reader: JpegBitReader, t: Table) returns (symbol: int)
    requires reader.Valid() && IsTable(t)
    modifies reader
    ensures reader.Valid()
    ensures symbol == DecodedSymbol(t, old(reader.Unread())).0
    ensures symbol >= 0 ==> reader.Unread() == DecodedSymbol(t, old(reader.Unread())).1
  {
    hide DecodeFrom;
    symbol := DecodeSymbol(reader, t.counts, t.values);
  }

  /** A coefficient: the index of its run-and-size symbol, and the bits of its value. */
  datatype Coefficient = Coefficient(k: nat, extra: Bits)

  /** A block as an encoder writes it; endOfBlock is the index of the symbol 0. */
  datatype Block = Block(dc: nat, dcExtra: Bits, acs: seq<Coefficient>, endOfBlock: nat)

  predicate IsCoefficient(ac: Table, c: Coefficient)
    requires IsTable(ac)
  {
    && c.k < Before(ac.counts, 16)
    && ac.values[c.k] != 0
    && |c.extra| == ac.values[c.k] % 16
  }

  /** The coefficients fit into the block behind so many others. */
  predicate FitFrom(ac: Table, acs: seq<Coefficient>, count: nat)
    requires IsTable(ac)
    decreases |acs|
  {
    acs != [] ==>
      && IsCoefficient(ac, acs[0])
      && count + ac.values[acs[0].k] / 16 + 1 <= 63
      && FitFrom(ac, acs[1..], count + ac.values[acs[0].k] / 16 + 1)
  }

  predicate IsBlock(dc: Table, ac: Table, b: Block)
    requires IsDcTable(dc) && IsTable(ac)
  {
    && b.dc < Before(dc.counts, 16) && |b.dcExtra| == dc.values[b.dc]
    && FitFrom(ac, b.acs, 0)
    && b.endOfBlock < Before(ac.counts, 16) && ac.values[b.endOfBlock] == 0
  }

  /** The coefficients, and an end-of-block symbol if they do not fill the block. */
  function AcBits(ac: Table, acs: seq<Coefficient>, count: nat, endOfBlock: nat): Bits
    requires IsTable(ac) && FitFrom(ac, acs, count) && count <= 63 && endOfBlock < Before(ac.counts, 16)
    decreases |acs|
  {
    if acs == [] then (if count < 63 then CodeBits(ac.counts, endOfBlock) else [])
    else
      CodeBits(ac.counts, acs[0].k) + acs[0].extra
      + AcBits(ac, acs[1..], count + ac.values[acs[0].k] / 16 + 1, endOfBlock)
  }

  function BlockBits(dc: Table, ac: Table, b: Block): Bits
    requires IsDcTable(dc) && IsTable(ac) && IsBlock(dc, ac, b)
  {
    CodeBits(dc.counts, b.dc) + b.dcExtra + AcBits(ac, b.acs, 0, b.endOfBlock)
  }

  /** A symbol and the extra bits behind it. */
  lemma SymbolInFront(t: Table, k: nat, rest: Bits)
    requires IsTable(t) && Kraft(t.counts) && k < Before(t.counts, 16)
    ensures DecodedSymbol(t, CodeBits(t.counts, k) + rest) == (t.values[k] as int, rest)
  {
    hide DecodeFrom, CodeBits, Before, Kraft, DecodeIndex;
    CodeIsDecoded(t.counts, k, rest);
  }

  lemma {:induction false} AcsAreAccepted(ac: Table, acs: seq<Coefficient>, count: nat, endOfBlock: nat, rest: Bits)
    requires IsTable(ac) && Kraft(ac.counts) && FitFrom(ac, acs, count) && count <= 63
    requires endOfBlock < Before(ac.counts, 16) && ac.values[endOfBlock] == 0
    ensures AcFrom(ac, AcBits(ac, acs, count, endOfBlock) + rest, count) == (true, rest)
    decreases |acs|
  {
    hide DecodedSymbol, CodeBits, Before, Kraft;
    if acs == [] {
      if count < 63 {
        SymbolInFront(ac, endOfBlock, rest);
      } else {
        assert [] + rest == rest;
      }
    } else {
      var first, count' := acs[0], count + ac.values[acs[0].k] / 16 + 1;
      var later := AcBits(ac, acs[1..], count', endOfBlock) + rest;
      SymbolInFront(ac, first.k, first.extra + later);
      assert AcBits(ac, acs, count, endOfBlock) + rest == CodeBits(ac.counts, first.k) + (first.extra + later);
      assert (first.extra + later)[|first.extra|..] == later;
      AcsAreAccepted(ac, acs[1..], count', endOfBlock, rest);
    }
  }

  /** Every block that an encoder writes is accepted, and exactly its bits are consumed. */
  lemma BlockIsAccepted(dc: Table, ac: Table, b: Block, rest: Bits)
    requires IsDcTable(dc) && IsTable(ac) && Kraft(dc.counts) && Kraft(ac.counts) && IsBlock(dc, ac, b)
    ensures TryBlock(dc, ac, BlockBits(dc, ac, b) + rest) == (true, rest)
  {
    hide DecodedSymbol, CodeBits, Before, Kraft, AcBits, AcFrom, FitFrom;
    var later := AcBits(ac, b.acs, 0, b.endOfBlock) + rest;
    SymbolInFront(dc, b.dc, b.dcExtra + later);
    assert BlockBits(dc, ac, b) + rest == CodeBits(dc.counts, b.dc) + (b.dcExtra + later);
    assert (b.dcExtra + later)[|b.dcExtra|..] == later;
    AcsAreAccepted(ac, b.acs, 0, b.endOfBlock, rest);
  }

  /** What was decoded was in front. */
  lemma SymbolWasInFront(t: Table, bits: Bits) returns (k: nat)
    requires IsTable(t) && Kraft(t.counts) && DecodedSymbol(t, bits).0 >= 0
    ensures k < Before(t.counts, 16) && t.values[k] == DecodedSymbol(t, bits).0
    ensures bits == CodeBits(t.counts, k) + DecodedSymbol(t, bits).1
  {
    hide DecodeFrom, CodeBits, Kraft;
    var (index, rest) := DecodeIndex(t.counts, bits);
    IndexBound(t.counts, bits, 1, 0, 0, 0);
    k := index;
    DecodesExactly(t.counts, bits, k, rest);
  }

  lemma {:induction false} AcsWereThere(ac: Table, bits: Bits, count: nat, endOfBlock: nat)
    returns (acs: seq<Coefficient>, e: nat)
    requires IsTable(ac) && Kraft(ac.counts) && count <= 63 && AcFrom(ac, bits, count).0
    requires endOfBlock < Before(ac.counts, 16) && ac.values[endOfBlock] == 0
    ensures FitFrom(ac, acs, count) && e < Before(ac.counts, 16) && ac.values[e] == 0
    ensures bits == AcBits(ac, acs, count, e) + AcFrom(ac, bits, count).1
    decreases 63 - count
  {
    hide DecodedSymbol, CodeBits, Before, Kraft, AcBits;
    acs, e := [], endOfBlock;
    if count == 63 {
      NoCoefficients(ac, count, e);
      Empty(bits);
    } else {
      var (symbol, rest) := DecodedSymbol(ac, bits);
      var k := SymbolWasInFront(ac, bits);
      if symbol == 0 {
        e := k;
        NoCoefficients(ac, count, e);
      } else {
        var size, count' := symbol % 16, count + symbol / 16 + 1;
        var first, later := Coefficient(k, rest[..size]), rest[size..];
        var others;
        others, e := AcsWereThere(ac, later, count', endOfBlock);
        acs := [first] + others;
        CoefficientInFront(ac, first, others, count, e, AcFrom(ac, later, count').1);
        assert rest == first.extra + later;
      }
    }
  }

  lemma NoCoefficients(ac: Table, count: nat, e: nat)
    requires IsTable(ac) && count <= 63 && e < Before(ac.counts, 16)
    ensures AcBits(ac, [], count, e) == if count < 63 then CodeBits(ac.counts, e) else []
  {
    hide CodeBits;
  }

  lemma CoefficientInFront(ac: Table, c: Coefficient, others: seq<Coefficient>, count: nat, e: nat, end: Bits)
    requires IsTable(ac) && IsCoefficient(ac, c) && e < Before(ac.counts, 16)
    requires var count' := count + ac.values[c.k] / 16 + 1; count' <= 63 && FitFrom(ac, others, count')
    ensures FitFrom(ac, [c] + others, count)
    ensures AcBits(ac, [c] + others, count, e) + end
         == CodeBits(ac.counts, c.k) + (c.extra + (AcBits(ac, others, count + ac.values[c.k] / 16 + 1, e) + end))
  {
    hide CodeBits, Before;
    var acs, behind := [c] + others, AcBits(ac, others, count + ac.values[c.k] / 16 + 1, e);
    assert acs[0] == c && acs[1..] == others;
    var code := CodeBits(ac.counts, c.k);
    assert AcBits(ac, acs, count, e) == code + c.extra + behind;
    Assoc(c.extra, behind, end);
    Assoc(code, c.extra, behind);
    Assoc(code, c.extra + behind, end);
  }

  /** And nothing else is accepted: what the decoder takes is what an encoder writes. */
  lemma AcceptedIsBlock(dc: Table, ac: Table, bits: Bits, endOfBlock: nat) returns (b: Block)
    requires IsDcTable(dc) && IsTable(ac) && Kraft(dc.counts) && Kraft(ac.counts)
    requires endOfBlock < Before(ac.counts, 16) && ac.values[endOfBlock] == 0
    requires TryBlock(dc, ac, bits).0
    ensures IsBlock(dc, ac, b) && bits == BlockBits(dc, ac, b) + TryBlock(dc, ac, bits).1
  {
    hide DecodedSymbol, CodeBits, Before, Kraft, AcBits, AcFrom, FitFrom;
    var (size, rest) := DecodedSymbol(dc, bits);
    var k := SymbolWasInFront(dc, bits);
    var acs, e := AcsWereThere(ac, rest[size..], 0, endOfBlock);
    b := Block(k, rest[..size], acs, e);
    var code, behind, end := CodeBits(dc.counts, k), AcBits(ac, acs, 0, e), AcFrom(ac, rest[size..], 0).1;
    assert rest == b.dcExtra + rest[size..];
    Assoc(b.dcExtra, behind, end);
    Assoc(code, b.dcExtra, behind);
    Assoc(code, b.dcExtra + behind, end);
  }

  // --------------------------------------------------------------------- scans of symbols

  predicate AreSymbols(counts: bytes, ks: seq<nat>)
    requires IsCounts(counts)
  {
    forall i | 0 <= i < |ks| :: ks[i] < Before(counts, 16)
  }

  function SymbolBits(counts: bytes, ks: seq<nat>): Bits
    requires IsCounts(counts) && AreSymbols(counts, ks)
  {
    if ks == [] then [] else CodeBits(counts, ks[0]) + SymbolBits(counts, ks[1..])
  }

  /** n successive symbols, if so many can be decoded, and the bits behind them. */
  function DecodeMany(counts: bytes, bits: Bits, n: nat): (seq<int>, Bits)
    requires IsCounts(counts)
    decreases n
  {
    if n == 0 then ([], bits) else
      var (index, rest) := DecodeIndex(counts, bits);
      var (others, rest') := DecodeMany(counts, rest, n - 1);
      ([index] + others, rest')
  }

  lemma {:induction false} SymbolsAreDecoded(counts: bytes, ks: seq<nat>, rest: Bits)
    requires IsCounts(counts) && Kraft(counts) && AreSymbols(counts, ks)
    ensures DecodeMany(counts, SymbolBits(counts, ks) + rest, |ks|) == (ks, rest)
  {
    hide DecodeIndex, CodeBits, Before, Kraft;
    if ks == [] {
      assert [] + rest == rest;
    } else {
      var later := SymbolBits(counts, ks[1..]) + rest;
      assert SymbolBits(counts, ks) + rest == CodeBits(counts, ks[0]) + later;
      CodeIsDecoded(counts, ks[0], later);
      SymbolsAreDecoded(counts, ks[1..], rest);
      assert ks == [ks[0]] + ks[1..];
    }
  }

  /** From symbols to scan data and back: for every table that satisfies Kraft's inequality, the symbols are
      decoded from their packed and stuffed codes, whatever follows in the data, and what is left behind them
      is the padding and the data that follow. */
  lemma ScanIsDecoded(counts: bytes, ks: seq<nat>, more: bytes)
    requires IsCounts(counts) && Kraft(counts) && AreSymbols(counts, ks)
    ensures var bits := SymbolBits(counts, ks);
            DecodeMany(counts, AllBits(Payload(Stuffed(Packed(bits)) + more, 0)), |ks|)
            == (ks, Padding(bits) + AllBits(Payload(more, 0)))
  {
    hide DecodeMany, SymbolBits, Before, Kraft, AllBits, Packed, Stuffed, Payload;
    var bits := SymbolBits(counts, ks);
    WrittenBitsAreRead(bits, more);
    SymbolsAreDecoded(counts, ks, Padding(bits) + AllBits(Payload(more, 0)));
  }

  // ------------------------------------------------------------- the tables of annex K

  const DC_LUMA_COUNTS: bytes := [0, 1, 5, 1, 1, 1, 1, 1, 1, 0, 0, 0, 0, 0, 0, 0]
  const DC_CHROMA_COUNTS: bytes := [0, 3, 1, 1, 1, 1, 1, 1, 1, 1, 1, 0, 0, 0, 0, 0]
  const AC_LUMA_COUNTS: bytes := [0, 2, 1, 3, 3, 2, 4, 3, 5, 5, 4, 4, 0, 0, 1, 0x7D]
  const AC_CHROMA_COUNTS: bytes := [0, 2, 1, 2, 4, 4, 3, 4, 7, 5, 4, 4, 0, 1, 2, 0x77]

  lemma Powers()
    ensures Pow2(0) == 1 && Pow2(1) == 2 && Pow2(2) == 4 && Pow2(3) == 8 && Pow2(4) == 16 && Pow2(5) == 32
    ensures Pow2(6) == 64 && Pow2(7) == 128 && Pow2(8) == 256 && Pow2(9) == 512 && Pow2(10) == 1024
    ensures Pow2(11) == 2048 && Pow2(12) == 4096 && Pow2(13) == 8192 && Pow2(14) == 16384 && Pow2(15) == 32768
    ensures Pow2(16) == 65536
  {
  }

  lemma Level(counts: bytes, len: nat)
    requires IsCounts(counts) && 1 <= len <= 16
    ensures KraftSum(counts, len) == KraftSum(counts, len - 1) + counts[len - 1] * Pow2(16 - len)
    ensures Before(counts, len) == Before(counts, len - 1) + counts[len - 1]
  {
  }

  lemma Nothing(counts: bytes)
    requires IsCounts(counts)
    ensures KraftSum(counts, 0) == 0 == Before(counts, 0)
  {
  }

  /** Kraft's sum and the number of symbols, level by level. */
  lemma Sums(c: bytes)
    requires IsCounts(c)
    ensures KraftSum(c, 16) == 32768 * (c[0] as int) + 16384 * (c[1] as int) + 8192 * (c[2] as int)
                             + 4096 * (c[3] as int) + 2048 * (c[4] as int) + 1024 * (c[5] as int)
                             + 512 * (c[6] as int) + 256 * (c[7] as int) + 128 * (c[8] as int)
                             + 64 * (c[9] as int) + 32 * (c[10] as int) + 16 * (c[11] as int)
                             + 8 * (c[12] as int) + 4 * (c[13] as int) + 2 * (c[14] as int) + c[15]
    ensures Before(c, 16) == c[0] as int + c[1] + c[2] + c[3] + c[4] + c[5] + c[6] + c[7]
                           + c[8] + c[9] + c[10] + c[11] + c[12] + c[13] + c[14] + c[15]
  {
    hide KraftSum, Before, Pow2;
    Powers();
    Nothing(c);
    Level(c, 1); Level(c, 2); Level(c, 3); Level(c, 4);
    Level(c, 5); Level(c, 6); Level(c, 7); Level(c, 8);
    Level(c, 9); Level(c, 10); Level(c, 11); Level(c, 12);
    Level(c, 13); Level(c, 14); Level(c, 15); Level(c, 16);
  }

  /** The tables that the decoder is used with are within the theorems above. */
  lemma StandardTables()
    ensures Kraft(DC_LUMA_COUNTS) && Before(DC_LUMA_COUNTS, 16) == 12
    ensures Kraft(DC_CHROMA_COUNTS) && Before(DC_CHROMA_COUNTS, 16) == 12
    ensures Kraft(AC_LUMA_COUNTS) && Before(AC_LUMA_COUNTS, 16) == 162
    ensures Kraft(AC_CHROMA_COUNTS) && Before(AC_CHROMA_COUNTS, 16) == 162
  {
    hide KraftSum, Before, Pow2;
    Powers();
    Sums(DC_LUMA_COUNTS);
    Sums(DC_CHROMA_COUNTS);
    Sums(AC_LUMA_COUNTS);
    Sums(AC_CHROMA_COUNTS);
  }
}
