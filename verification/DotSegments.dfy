/** Removing dot segments from a URL path (remove_dot_segments in nxnet/http/detail/redirect_handler.cpp;
    section 5.2.4 of RFC 3986). */
module DotSegments {

  predicate StartsWith(s: string, prefix: string) {
    |prefix| <= |s| && s[..|prefix|] == prefix
  }

  /** The first '/' at or behind a position, or the end. */
  function SlashFrom(s: string, from: nat): (r: nat)
    requires from <= |s|
    ensures from <= r <= |s| && (r < |s| ==> s[r] == '/')
    ensures forall i | from <= i < r :: s[i] != '/'
    decreases |s| - from
  {
    if from == |s| || s[from] == '/' then from else SlashFrom(s, from + 1)
  }

  /** The output without its last segment: rfind('/') and erase. */
  function WithoutLast(output: string): string {
    CutLast(output, |output|)
  }

  function CutLast(output: string, n: nat): string
    requires n <= |output|
  {
    if n == 0 then output else if output[n - 1] == '/' then output[..n - 1] else CutLast(output, n - 1)
  }

  /** Where the first path segment ends: at the next '/' behind the first character. */
  function SegmentEnd(path: string): (r: nat)
    requires path != ""
    ensures 0 < r <= |path|
  {
    SlashFrom(path, 1)
  }

  // ---------------------------------------------------------------------- the loop

  /** One turn: the path left over and the output so far. */
  function Turn(path: string, output: string): (r: (string, string))
    requires path != ""
    ensures |r.0| < |path|
  {
    if StartsWith(path, "../") then (path[3..], output)
    else if StartsWith(path, "./") then (path[2..], output)
    else if StartsWith(path, "/./") then (path[2..], output)
    else if path == "/." then ("/", output)
    else if StartsWith(path, "/../") then (path[3..], WithoutLast(output))
    else if path == "/.." then ("/", WithoutLast(output))
    else if path == "." || path == ".." then ("", output)
    else (path[SegmentEnd(path)..], output + path[..SegmentEnd(path)])
  }

  function Removed(path: string, output: string): string
    decreases |path|
  {
    if path == "" then output else
      var (path', output') := Turn(path, output);
      Removed(path', output')
  }

  method RFind(s: string) returns (pos: int)
    ensures -1 <= pos < |s|
    ensures pos >= 0 ==> s[pos] == '/' && forall i | pos < i < |s| :: s[i] != '/'
    ensures pos == -1 ==> forall i | 0 <= i < |s| :: s[i] != '/'
    ensures (if pos >= 0 then s[..pos] else s) == WithoutLast(s)
  {
    pos := |s| - 1;
    while pos >= 0 && s[pos] != '/'
      invariant -1 <= pos < |s|
      invariant forall i | pos < i < |s| :: s[i] != '/'
      invariant CutLast(s, pos + 1) == WithoutLast(s)
    {
      pos := pos - 1;
    }
  }

  method RemoveDotSegments(url: string) returns (output: string)
    ensures output == Removed(url, "")
  {
    hide WithoutLast;
    var path := url;
    output := "";
    while path != ""
      invariant Removed(path, output) == Removed(url, "")
      decreases |path|
    {
      ghost var next := Turn(path, output);
      if StartsWith(path, "../") {
        path := path[3..];
      } else if StartsWith(path, "./") {
        path := path[2..];
      } else if StartsWith(path, "/./") {
        path := path[2..];
      } else if path == "/." {
        path := "/";
      } else if StartsWith(path, "/../") {
        path := path[3..];
        var pos := RFind(output);
        if pos != -1 {
          output := output[..pos];
        }
      } else if path == "/.." {
        path := "/";
        var pos := RFind(output);
        if pos != -1 {
          output := output[..pos];
        }
      } else if path == "." || path == ".." {
        path := "";
      } else {
        var end := SegmentEnd(path);
        output := output + path[..end];
        path := path[end..];
      }
      assert (path, output) == next;
    }
  }

  // --------------------------------------------------------------- the resolver on segments

  /** A path that begins with '/' as the segments behind its slashes. */
  function Segments(path: string): seq<string>
    requires path != "" ==> path[0] == '/'
    decreases |path|
  {
    if path == "" then [] else
      [path[1..SegmentEnd(path)]] + Segments(path[SegmentEnd(path)..])
  }

  function Join(segments: seq<string>): string {
    if segments == [] then "" else "/" + segments[0] + Join(segments[1..])
  }

  predicate NoSlash(s: string) {
    forall i | 0 <= i < |s| :: s[i] != '/'
  }

  predicate Proper(segments: seq<string>) {
    forall i | 0 <= i < |segments| :: NoSlash(segments[i])
  }

  predicate NoDots(segments: seq<string>) {
    forall i | 0 <= i < |segments| :: segments[i] != "." && segments[i] != ".."
  }

  function Popped(stack: seq<string>): seq<string> {
    if stack == [] then [] else stack[..|stack| - 1]
  }

  /** The stack after one segment: "." changes nothing, ".." takes one away, and either leaves an empty segment
      if it is the last one; any other segment is put on top. */
  function Pushed(s: string, last: bool, stack: seq<string>): seq<string> {
    if s == "." then (if last then stack + [""] else stack)
    else if s == ".." then (if last then Popped(stack) + [""] else Popped(stack))
    else stack + [s]
  }

  function Resolved(segments: seq<string>, stack: seq<string>): seq<string> {
    if segments == [] then stack
    else Resolved(segments[1..], Pushed(segments[0], |segments| == 1, stack))
  }

  // -------------------------------------------------------------------- the loop resolves

  lemma {:induction false} SlashFromIs(s: string, from: nat, r: nat)
    requires from <= r <= |s| && (r < |s| ==> s[r] == '/')
    requires forall i | from <= i < r :: s[i] != '/'
    ensures SlashFrom(s, from) == r
    decreases r - from
  {
    if from < r {
      SlashFromIs(s, from + 1, r);
    }
  }

  /** A slash, a segment, and what follows. */
  lemma PathParts(s: string, tail: string)
    ensures var path := "/" + s + tail;
            && path[0] == '/'
            && (forall i | 1 <= i < 1 + |s| :: path[i] == s[i - 1])
            && path[1 + |s|..] == tail
            && (tail != "" ==> path[1 + |s|] == tail[0])
  {
  }

  /** The first segment of a joined path. */
  lemma FrontSegment(s: string, rest: seq<string>)
    requires NoSlash(s) && Proper(rest)
    ensures var path := Join([s] + rest);
            path == "/" + s + Join(rest) && SegmentEnd(path) == 1 + |s| && path[1 + |s|..] == Join(rest)
  {
    JoinFront(s, rest);
    PathParts(s, Join(rest));
    if rest != [] { NotEmpty(rest); }
    SlashFromIs(Join([s] + rest), 1, 1 + |s|);
  }

  lemma JoinFront(s: string, rest: seq<string>)
    ensures Join([s] + rest) == "/" + s + Join(rest)
  {
    assert ([s] + rest)[1..] == rest;
  }

  lemma {:induction false} JoinSnoc(stack: seq<string>, s: string)
    ensures Join(stack + [s]) == Join(stack) + "/" + s
  {
    if stack == [] {
      assert Join([s]) == "/" + s + Join([]);
    } else {
      assert (stack + [s])[1..] == stack[1..] + [s];
      JoinSnoc(stack[1..], s);
    }
  }

  lemma {:induction false} CutLastIs(output: string, n: nat, pos: nat)
    requires pos < n <= |output| && output[pos] == '/' && forall i | pos < i < n :: output[i] != '/'
    ensures CutLast(output, n) == output[..pos]
  {
    if n > pos + 1 {
      CutLastIs(output, n - 1, pos);
    }
  }

  /** Erasing behind the last '/' pops the stack. */
  lemma ErasePops(stack: seq<string>)
    requires Proper(stack)
    ensures WithoutLast(Join(stack)) == Join(Popped(stack))
  {
    if stack != [] {
      var init, s := stack[..|stack| - 1], stack[|stack| - 1];
      assert stack == init + [s];
      JoinSnoc(init, s);
      var output, pos := Join(stack), |Join(init)|;
      assert forall i | pos < i < |output| :: output[i] == s[i - pos - 1];
      CutLastIs(output, |output|, pos);
    }
  }

  /** Which branch the loop takes depends on the first segment and on whether another follows. */
  lemma WhichTurn(s: string, tail: string)
    requires NoSlash(s) && (tail != "" ==> tail[0] == '/')
    ensures var path := "/" + s + tail;
            && !StartsWith(path, "../") && !StartsWith(path, "./") && path != "." && path != ".."
            && (StartsWith(path, "/./") <==> s == "." && tail != "")
            && (path == "/." <==> s == "." && tail == "")
            && (StartsWith(path, "/../") <==> s == ".." && tail != "")
            && (path == "/.." <==> s == ".." && tail == "")
  {
    var path := "/" + s + tail;
    PathParts(s, tail);
    assert StartsWith(path, "/./") ==> path[1] == path[..3][1] == '.' && path[2] == path[..3][2] == '/';
    assert StartsWith(path, "/../") ==>
        path[1] == path[..4][1] == '.' && path[2] == path[..4][2] == '.' && path[3] == path[..4][3] == '/';
    if |s| == 1 && s[0] == '.' { assert s == "."; }
    if |s| == 2 && s[0] == '.' && s[1] == '.' { assert s == ".."; }
  }

  /** One turn of the loop is one segment of the resolver. */
  lemma TurnResolves(s: string, rest: seq<string>, stack: seq<string>)
    requires NoSlash(s) && Proper(rest) && Proper(stack)
    ensures var stack' := if rest == [] && (s == "." || s == "..") then Pushed(s, false, stack)
                          else Pushed(s, rest == [], stack);
            Turn(Join([s] + rest), Join(stack))
            == (if rest == [] && (s == "." || s == "..") then "/" else Join(rest), Join(stack'))
  {
    hide SlashFrom, WithoutLast;
    var path := Join([s] + rest);
    FrontSegment(s, rest);
    ErasePops(stack);
    JoinSnoc(stack, s);
    assert rest != [] ==> Join(rest)[0] == '/';
    WhichTurn(s, Join(rest));
    assert path[..1 + |s|] == "/" + s;
    if s != "." && s != ".." {
      assert Join(stack) + path[..1 + |s|] == Join(stack) + "/" + s;
    }
  }

  lemma {:induction false} LoopResolves(segments: seq<string>, stack: seq<string>)
    requires Proper(segments) && Proper(stack)
    ensures Removed(Join(segments), Join(stack)) == Join(Resolved(segments, stack))
    decreases |segments|
  {
    hide Turn, Join;
    if segments == [] {
      EmptyPath(stack);
    } else {
      var s, rest := segments[0], segments[1..];
      assert segments == [s] + rest;
      TurnResolves(s, rest, stack);
      NotEmpty(segments);
      if rest == [] && (s == "." || s == "..") {
        var stack' := Pushed(s, false, stack);
        OneSlash();
        TurnResolves("", [], stack');
        assert [""] + [] == [""];
        NotEmpty([""]);
        EmptyPath(stack' + [""]);
        assert Resolved(segments, stack) == Resolved(rest, stack' + [""]) == stack' + [""];
      } else {
        LoopResolves(rest, Pushed(s, rest == [], stack));
      }
    }
  }

  lemma EmptyPath(stack: seq<string>)
    ensures Join([]) == "" && Removed("", Join(stack)) == Join(stack)
  {
  }

  lemma OneSlash()
    ensures Join([""]) == "/"
  {
  }

  lemma NotEmpty(segments: seq<string>)
    requires segments != []
    ensures Join(segments) != "" && Join(segments)[0] == '/'
  {
  }

  // ------------------------------------------------------------------------- results

  lemma {:induction false} SegmentsAreProper(path: string)
    requires path != "" ==> path[0] == '/'
    ensures Proper(Segments(path)) && Join(Segments(path)) == path && (Segments(path) == [] <==> path == "")
    decreases |path|
  {
    if path != "" {
      var end := SegmentEnd(path);
      SegmentsAreProper(path[end..]);
      assert path == "/" + path[1..end] + path[end..];
    }
  }

  lemma {:induction false} SegmentsOfJoin(segments: seq<string>)
    requires Proper(segments)
    ensures (Join(segments) != "" ==> Join(segments)[0] == '/') && Segments(Join(segments)) == segments
  {
    hide SlashFrom, SegmentEnd;
    if segments != [] {
      FrontSegment(segments[0], segments[1..]);
      assert segments == [segments[0]] + segments[1..];
      SegmentsOfJoin(segments[1..]);
    }
  }

  /** What the resolver leaves has no dot segments, and is not empty if there was a segment. */
  lemma {:induction false} ResolvedIsClean(segments: seq<string>, stack: seq<string>)
    requires Proper(segments) && Proper(stack) && NoDots(stack)
    ensures var r := Resolved(segments, stack); Proper(r) && NoDots(r) && (segments != [] ==> r != [])
    decreases |segments|
  {
    if segments != [] {
      ResolvedIsClean(segments[1..], Pushed(segments[0], |segments| == 1, stack));
    }
  }

  /** The resolver keeps segments that are not dots. */
  lemma {:induction false} ResolvedKeeps(segments: seq<string>, stack: seq<string>)
    requires NoDots(segments)
    ensures Resolved(segments, stack) == stack + segments
    decreases |segments|
  {
    if segments != [] {
      ResolvedKeeps(segments[1..], stack + [segments[0]]);
    }
  }

  /** For every path that begins with '/': the result is the stack resolver's, it begins with '/' and has no
      dot segments, and removing them again changes nothing. */
  lemma DotsAreRemoved(path: string)
    requires path != "" && path[0] == '/'
    ensures var r := Removed(path, "");
            && r == Join(Resolved(Segments(path), []))
            && r != "" && r[0] == '/'
            && NoDots(Segments(r))
            && Removed(r, "") == r
  {
    hide Removed, Segments, Resolved, Join;
    SegmentsAreProper(path);
    var segments := Segments(path);
    var resolved := Resolved(segments, []);
    EmptyPath([]);
    LoopResolves(segments, []);
    ResolvedIsClean(segments, []);
    NotEmpty(resolved);
    SegmentsOfJoin(resolved);
    ResolvedKeeps(resolved, []);
    assert [] + resolved == resolved;
    LoopResolves(resolved, []);
  }
}
