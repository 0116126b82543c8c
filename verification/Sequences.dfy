/** Facts about flattened sequences that several components share. */
module Sequences {
  function Concat<T>(parts: seq<seq<T>>): seq<T> {
    if parts == [] then [] else parts[0] + Concat(parts[1..])
  }

  lemma {:induction false} ConcatAppend<T>(a: seq<seq<T>>, b: seq<seq<T>>)
    ensures Concat(a + b) == Concat(a) + Concat(b)
  {
    if a == [] {
      assert a + b == b;
    } else {
      assert (a + b)[0] == a[0] && (a + b)[1..] == a[1..] + b;
      ConcatAppend(a[1..], b);
    }
  }

  lemma ConcatSnoc<T>(a: seq<seq<T>>, x: seq<T>)
    ensures Concat(a + [x]) == Concat(a) + x
  {
    ConcatAppend(a, [x]);
    assert Concat([x]) == x;
  }

  lemma SliceOfSlice<T>(s: seq<T>, a: nat, b: nat, c: nat, d: nat)
    requires a <= b <= |s| && c <= d <= b - a
    ensures s[a..b][c..d] == s[a + c..a + d]
  {
    var x, y := s[a..b][c..d], s[a + c..a + d];
    forall i | 0 <= i < d - c
      ensures x[i] == y[i]
    {
      assert x[i] == s[a..b][c + i] == s[a + (c + i)];
    }
    assert x == y;
  }

  lemma SliceOfTail<T>(s: seq<T>, a: nat, c: nat, d: nat)
    requires a <= |s| && c <= d <= |s| - a
    ensures s[a..][c..d] == s[a + c..a + d]
  {
  }

  /** If s continues with a and then b from a position on, this is where they lie. */
  lemma SplitTail<T>(s: seq<T>, pos: nat, a: seq<T>, b: seq<T>)
    requires pos <= |s| && s[pos..] == a + b
    ensures pos + |a| <= |s|
    ensures s[pos..pos + |a|] == a
    ensures s[pos + |a|..] == b
  {
    assert s[pos..][..|a|] == a && s[pos..][|a|..] == b;
  }

  lemma Assoc<T>(a: seq<T>, b: seq<T>, c: seq<T>)
    ensures (a + b) + c == a + (b + c)
  {
  }

  lemma Empty<T>(a: seq<T>)
    ensures [] + a == a && a + [] == a
  {
  }

  /** The front of a concatenation. */
  lemma Front<T>(a: seq<T>, b: seq<T>)
    requires a != []
    ensures (a + b)[0] == a[0] && (a + b)[1..] == a[1..] + b
  {
  }

  /** Two ways to cut the same sequence in two: the left part of one is a prefix of the left part of the other. */
  lemma TwoCuts<T>(a: seq<T>, b: seq<T>, first: seq<T>, rest: seq<T>)
    requires a + b == first + rest
    ensures if |first| <= |a| then a == first + a[|first|..] && a[|first|..] + b == rest else a == first[..|a|]
  {
    var s := a + b;
    assert a == s[..|a|] && first == s[..|first|] && rest == s[|first|..];
    if |first| <= |a| {
      assert a[..|first|] == s[..|a|][..|first|] == s[..|first|];
      assert s[|first|..] == a[|first|..] + b;
    } else {
      assert s[..|first|][..|a|] == s[..|a|];
    }
  }
}
