/**
 `removeDotSegments` of `src/base/uri/resource-uri.ts`.  Runs of empty segments collapse, and those
 at the front are dropped; `DotSegments` compares this with section 5.2.4 of RFC 3986.
 */
module PathSegments {
  import opened Utf8

  const SLASH: Unit := 0x2F
  const DOT: Unit := 0x2E

  // ---------------------------------------------------------------- splitting at slashes

  /** `path.split('/')` */
  function Segments(s: JsString): (segments: seq<JsString>)
    ensures segments != []
  {
    if s == [] then [[]]
    else
      var rest := Segments(s[1..]);
      if s[0] == SLASH then [[]] + rest else [[s[0]] + rest[0]] + rest[1..]
  }

  /** `segments.join('/')` */
  function Joined(segments: seq<JsString>): JsString
  {
    if segments == [] then []
    else if |segments| == 1 then segments[0]
    else segments[0] + [SLASH] + Joined(segments[1..])
  }

  predicate NoSlash(s: JsString) { forall i :: 0 <= i < |s| ==> s[i] != SLASH }

  predicate NoSlashes(segments: seq<JsString>) { forall i :: 0 <= i < |segments| ==> NoSlash(segments[i]) }

  lemma {:induction false} SegmentsHaveNoSlash(s: JsString)
    ensures NoSlashes(Segments(s))
  {
    if s != [] { SegmentsHaveNoSlash(s[1..]); }
  }

  lemma {:induction false} JoinedSegments(s: JsString)
    ensures Joined(Segments(s)) == s
  {
    if s != [] {
      JoinedSegments(s[1..]);
      var rest := Segments(s[1..]);
      if s[0] == SLASH {
        assert ([[]] + rest)[1..] == rest;
      } else {
        var all := [[s[0]] + rest[0]] + rest[1..];
        assert all[1..] == rest[1..];
        assert s == [s[0]] + s[1..];
      }
    }
  }

  lemma {:induction false} SegmentsOfOne(s: JsString)
    requires NoSlash(s)
    ensures Segments(s) == [s]
  {
    if s != [] {
      SegmentsOfOne(s[1..]);
      assert [s[0]] + s[1..] == s;
    }
  }

  lemma {:induction false} SegmentsOfJoin(s: JsString, rest: JsString)
    requires NoSlash(s)
    ensures Segments(s + [SLASH] + rest) == [s] + Segments(rest)
  {
    var all := s + [SLASH] + rest;
    if s == [] {
      assert all[1..] == rest;
    } else {
      assert all[1..] == s[1..] + [SLASH] + rest;
      SegmentsOfJoin(s[1..], rest);
      assert [s[0]] + s[1..] == s;
    }
  }

  lemma {:induction false} SegmentsOfJoined(segments: seq<JsString>)
    requires segments != [] && NoSlashes(segments)
    ensures Segments(Joined(segments)) == segments
  {
    if |segments| == 1 {
      SegmentsOfOne(segments[0]);
    } else {
      SegmentsOfJoined(segments[1..]);
      SegmentsOfJoin(segments[0], Joined(segments[1..]));
    }
  }

  lemma {:induction false} JoinedAppend(segments: seq<JsString>, s: JsString)
    requires segments != []
    ensures Joined(segments + [s]) == Joined(segments) + [SLASH] + s
  {
    if |segments| > 1 {
      assert (segments + [s])[1..] == segments[1..] + [s];
      JoinedAppend(segments[1..], s);
    } else {
      assert (segments + [s])[1..] == [s];
    }
  }

  // ---------------------------------------------------------------- the output stack

  predicate IsDot(s: JsString) { s == [DOT] }

  predicate IsDotDot(s: JsString) { s == [DOT, DOT] }

  /** The loop of `removePreviousPathSegment`. */
  function WithoutEmpties(output: seq<JsString>): (r: seq<JsString>)
    ensures r <= output
  {
    if output != [] && output[|output| - 1] == [] then WithoutEmpties(output[..|output| - 1]) else output
  }

  function Popped(output: seq<JsString>): (r: seq<JsString>)
    ensures r <= output
  {
    var kept := WithoutEmpties(output);
    if kept == [] then [] else kept[..|kept| - 1]
  }

  /** `applyPathSegment` */
  function Applied(output: seq<JsString>, segment: JsString): seq<JsString>
  {
    if segment == [] then
      if output != [] && output[|output| - 1] != [] then output + [[]] else output
    else if IsDot(segment) then output
    else if IsDotDot(segment) then Popped(output)
    else output + [segment]
  }

  function AppliedAll(output: seq<JsString>, segments: seq<JsString>): seq<JsString>
  {
    if segments == [] then output
    else Applied(AppliedAll(output, segments[..|segments| - 1]), segments[|segments| - 1])
  }

  predicate EndsWith(s: JsString, tail: JsString) { |tail| <= |s| && s[|s| - |tail|..] == tail }

  predicate HasTrailingSlash(path: JsString)
  {
    EndsWith(path, [SLASH]) || EndsWith(path, [SLASH, DOT]) || EndsWith(path, [SLASH, DOT, DOT])
  }

  predicate HasLeadingSlash(path: JsString) { path != [] && path[0] == SLASH }

  /** `formatNormalizedPath` */
  function Formatted(output: seq<JsString>, leading: bool, trailing: bool): JsString
  {
    var normalized := (if leading then [SLASH] else []) + Joined(output);
    if trailing && normalized != [SLASH] && !EndsWith(normalized, [SLASH]) then normalized + [SLASH] else normalized
  }

  function DotSegmentsRemoved(path: JsString): JsString
  {
    Formatted(AppliedAll([], Segments(path)), HasLeadingSlash(path), HasTrailingSlash(path))
  }

  // ---------------------------------------------------------------- the methods

  /** `removePreviousPathSegment` */
  method RemovePreviousPathSegment(output: seq<JsString>) returns (r: seq<JsString>)
    ensures r == Popped(output)
  {
    r := output;
    while r != [] && r[|r| - 1] == []
      invariant WithoutEmpties(r) == WithoutEmpties(output)
    {
      r := r[..|r| - 1];
    }
    if r != [] {
      r := r[..|r| - 1];
    }
  }

  /** `applyPathSegment` with `preserveEmptyPathSegment` */
  method ApplyPathSegment(output: seq<JsString>, segment: JsString) returns (r: seq<JsString>)
    ensures r == Applied(output, segment)
  {
    r := output;
    if segment == [] || IsDot(segment) {
      if segment == [] && |output| > 0 && output[|output| - 1] != [] {
        r := output + [[]];
      }
      return;
    }
    if IsDotDot(segment) {
      r := RemovePreviousPathSegment(output);
      return;
    }
    r := output + [segment];
  }

  /** `removeDotSegments` */
  method RemoveDotSegments(path: JsString) returns (r: JsString)
    ensures r == DotSegmentsRemoved(path)
  {
    var segments := Segments(path);
    var output: seq<JsString> := [];
    for i := 0 to |segments|
      invariant output == AppliedAll([], segments[..i])
    {
      assert segments[..i + 1][..i] == segments[..i];
      output := ApplyPathSegment(output, segments[i]);
    }
    assert segments[..|segments|] == segments;
    r := Formatted(output, HasLeadingSlash(path), HasTrailingSlash(path));
  }

  // ---------------------------------------------------------------- canonical paths

  /** No dot segment, no two empty segments in a row, none at the bottom. */
  ghost predicate Tidy(output: seq<JsString>)
  {
    NoSlashes(output) && (output != [] ==> output[0] != []) &&
    (forall i :: 0 <= i < |output| ==> !IsDot(output[i]) && !IsDotDot(output[i])) &&
    forall i :: 0 < i < |output| ==> output[i - 1] != [] || output[i] != []
  }

  lemma TidyPrefix(output: seq<JsString>, r: seq<JsString>)
    requires Tidy(output) && r <= output
    ensures Tidy(r)
  {
    assert forall i :: 0 <= i < |r| ==> r[i] == output[i];
    forall i | 0 < i < |r| ensures r[i - 1] != [] || r[i] != [] {
      assert output[i - 1] != [] || output[i] != [];
    }
  }

  lemma AppliedTidy(output: seq<JsString>, segment: JsString)
    requires Tidy(output) && NoSlash(segment)
    ensures Tidy(Applied(output, segment))
  {
    if IsDotDot(segment) { TidyPrefix(output, Popped(output)); }
  }

  lemma {:induction false} AllTidy(segments: seq<JsString>)
    requires NoSlashes(segments)
    ensures Tidy(AppliedAll([], segments))
  {
    if segments != [] {
      AllTidy(segments[..|segments| - 1]);
      AppliedTidy(AppliedAll([], segments[..|segments| - 1]), segments[|segments| - 1]);
    }
  }

  /** Tidy segments after the leading slash come out as they are. */
  lemma {:induction false} TidyStays(output: seq<JsString>)
    requires Tidy(output)
    ensures AppliedAll([], [[]] + output) == output
  {
    if output == [] {
      assert ([[]] + output)[..0] == [];
    } else {
      var n := |output| - 1;
      TidyPrefix(output, output[..n]);
      TidyStays(output[..n]);
      var all := [[]] + output;
      assert all[..|all| - 1] == [[]] + output[..n] && all[|all| - 1] == output[n];
      assert output == output[..n] + [output[n]];
      if n > 0 { assert output[n - 1] != [] || output[n] != []; }
    }
  }

  /** The whole path of a tidy stack. */
  function Rendered(output: seq<JsString>): JsString
  {
    if output == [] then [SLASH] else [SLASH] + Joined(output)
  }

  lemma {:induction false} JoinedEndsLike(segments: seq<JsString>)
    requires segments != [] && segments[0] != [] && NoSlashes(segments)
    ensures EndsWith(Joined(segments), [SLASH]) <==> segments[|segments| - 1] == []
  {
    var n := |segments| - 1;
    EndsWithSlash(Joined(segments));
    if n > 0 {
      assert segments == segments[..n] + [segments[n]];
      JoinedAppend(segments[..n], segments[n]);
    }
  }

  lemma EndsWithSlash(s: JsString)
    ensures EndsWith(s, [SLASH]) <==> s != [] && s[|s| - 1] == SLASH
  {
    if s != [] { assert s[|s| - 1..] == [s[|s| - 1]]; }
  }

  lemma {:induction false} SegmentsLast(front: JsString, tail: JsString)
    requires NoSlash(tail)
    ensures Segments(front + [SLASH] + tail) == Segments(front) + [tail]
  {
    var all := front + [SLASH] + tail;
    if front == [] {
      assert all[1..] == tail;
      SegmentsOfOne(tail);
    } else {
      assert all[1..] == front[1..] + [SLASH] + tail;
      SegmentsLast(front[1..], tail);
    }
  }

  /** A trailing slash, as the source tests it, is a last segment that is empty or a dot segment. */
  lemma TrailingIsLast(path: JsString)
    requires HasTrailingSlash(path)
    ensures var segments := Segments(path);
            var last := segments[|segments| - 1];
            (last == [] && EndsWith(path, [SLASH])) || IsDot(last) || IsDotDot(last)
  {
    if EndsWith(path, [SLASH]) {
      LastAfterSlash(path, []);
    } else if EndsWith(path, [SLASH, DOT]) {
      LastAfterSlash(path, [DOT]);
    } else {
      LastAfterSlash(path, [DOT, DOT]);
    }
  }

  lemma LastAfterSlash(path: JsString, tail: JsString)
    requires NoSlash(tail) && EndsWith(path, [SLASH] + tail)
    ensures Segments(path)[|Segments(path)| - 1] == tail
  {
    var front := path[..|path| - |tail| - 1];
    assert path == front + ([SLASH] + tail);
    assert path == front + [SLASH] + tail;
    SegmentsLast(front, tail);
  }

  /** The stack with the empty segment that `formatNormalizedPath` may add. */
  function Stack(path: JsString): seq<JsString>
  {
    var output := AppliedAll([], Segments(path));
    if HasTrailingSlash(path) && output != [] && output[|output| - 1] != [] then output + [[]] else output
  }

  lemma FormattedIsRendered(output: seq<JsString>, trailing: bool)
    requires Tidy(output)
    ensures Formatted(output, true, trailing)
         == Rendered(if trailing && output != [] && output[|output| - 1] != [] then output + [[]] else output)
  {
    var normalized := [SLASH] + Joined(output);
    if output == [] {
      assert normalized == [SLASH];
    } else {
      JoinedEndsLike(output);
      var joined := Joined(output);
      assert joined != [] && EndsWith(normalized, [SLASH]) == EndsWith(joined, [SLASH]) by {
        JoinedNonempty(output);
        assert normalized[|normalized| - 1..] == joined[|joined| - 1..];
      }
      JoinedAppend(output, []);
    }
  }

  lemma JoinedNonempty(segments: seq<JsString>)
    requires segments != [] && segments[0] != []
    ensures Joined(segments) != []
  {
  }

  /** Removing dot segments from an absolute path gives the path of a tidy stack. */
  lemma RemovedIsRendered(path: JsString)
    requires HasLeadingSlash(path)
    ensures Tidy(Stack(path)) && DotSegmentsRemoved(path) == Rendered(Stack(path))
  {
    SegmentsHaveNoSlash(path);
    AllTidy(Segments(path));
    FormattedIsRendered(AppliedAll([], Segments(path)), HasTrailingSlash(path));
  }

  /** The path of a tidy stack stays as it is. */
  lemma RenderedStays(output: seq<JsString>)
    requires Tidy(output)
    ensures DotSegmentsRemoved(Rendered(output)) == Rendered(output)
  {
    var path := Rendered(output);
    if output == [] {
      assert path[1..] == [];
      var segments, first: seq<JsString> := [[], []], [[]];
      assert Segments(path) == segments && segments[..1] == first && first[..0] == [];
      assert AppliedAll([], first) == [];
      FormattedIsRendered([], HasTrailingSlash(path));
    } else {
      assert path == [] + [SLASH] + Joined(output);
      SegmentsOfJoin([], Joined(output));
      SegmentsOfJoined(output);
      TidyStays(output);
      FormattedIsRendered(output, HasTrailingSlash(path));
      if HasTrailingSlash(path) { TrailingIsLast(path); }
    }
  }

  /** Removing dot segments twice is removing them once. */
  lemma RemovalIsIdempotent(path: JsString)
    requires path == [] || HasLeadingSlash(path)
    ensures DotSegmentsRemoved(DotSegmentsRemoved(path)) == DotSegmentsRemoved(path)
    ensures path == [] ==> DotSegmentsRemoved(path) == []
    ensures path != [] ==> HasLeadingSlash(DotSegmentsRemoved(path))
  {
    if path == [] {
      var first: seq<JsString> := [[]];
      assert Segments([]) == first && first[..0] == [];
      assert AppliedAll([], first) == [];
    } else {
      RemovedIsRendered(path);
      RenderedStays(Stack(path));
    }
  }

  /** An absolute path that removal leaves alone, and one that ends in a slash, cut before it. */
  lemma TrimmedStays(path: JsString)
    requires HasLeadingSlash(path) && DotSegmentsRemoved(path) == path && |path| > 1 && EndsWith(path, [SLASH])
    ensures var trimmed := path[..|path| - 1];
            HasLeadingSlash(trimmed) && DotSegmentsRemoved(trimmed) == trimmed && path == trimmed + [SLASH]
  {
    RemovedIsRendered(path);
    var output := Stack(path);
    var n := |output| - 1;
    EndsWithSlash(path);
    EndsWithSlash(Joined(output));
    JoinedEndsLike(output);
    assert path[1..] == Joined(output);
    JoinedAppend(output[..n], []);
    assert output == output[..n] + [[]];
    TidyPrefix(output, output[..n]);
    assert path[..|path| - 1] == Rendered(output[..n]);
    RenderedStays(output[..n]);
  }

  /** No segment of a path that removal leaves alone is a dot segment. */
  lemma NoDotSegments(path: JsString)
    requires HasLeadingSlash(path) && DotSegmentsRemoved(path) == path
    ensures forall i :: 0 <= i < |Segments(path)| ==> !IsDot(Segments(path)[i]) && !IsDotDot(Segments(path)[i])
  {
    RemovedIsRendered(path);
    var output := Stack(path);
    if output == [] {
      assert path[1..] == [];
    } else {
      assert path == [] + [SLASH] + Joined(output);
      SegmentsOfJoin([], Joined(output));
      SegmentsOfJoined(output);
    }
  }

  // ---------------------------------------------------------------- length

  lemma {:induction false} JoinedPrefix(segments: seq<JsString>, r: seq<JsString>)
    requires r <= segments
    ensures |Joined(r)| <= |Joined(segments)|
  {
    if |r| < |segments| {
      var n := |segments| - 1;
      JoinedPrefix(segments[..n], r);
      assert segments == segments[..n] + [segments[n]];
      if n > 0 { JoinedAppend(segments[..n], segments[n]); }
    } else {
      assert r == segments;
    }
  }

  /** The stack is at least a slash shorter than what was read, two when it ended in a dot segment. */
  lemma {:induction false} StackIsShorter(segments: seq<JsString>)
    requires |segments| >= 2 && segments[0] == []
    ensures var last := segments[|segments| - 1];
            |Joined(AppliedAll([], segments))| + (if IsDot(last) || IsDotDot(last) then 2 else 1) <= |Joined(segments)|
  {
    var n := |segments| - 1;
    var front, last := segments[..n], segments[n];
    assert segments == front + [last];
    JoinedAppend(front, last);
    var before := AppliedAll([], front);
    if n == 1 {
      assert front == [[]] && front[..0] == [];
      assert before == Applied(AppliedAll([], front[..0]), front[0]);
    } else {
      StackIsShorter(front);
    }
    AppliedLength(before, last);
  }

  lemma AppliedLength(output: seq<JsString>, segment: JsString)
    ensures |Joined(Applied(output, segment))|
         <= |Joined(output)| + (if IsDot(segment) || IsDotDot(segment) then 0
                                else if output == [] then |segment| else 1 + |segment|)
  {
    if IsDotDot(segment) {
      JoinedPrefix(output, Popped(output));
    } else if output != [] {
      JoinedAppend(output, segment);
    }
  }

  lemma RemovalIsNoLonger(path: JsString)
    requires HasLeadingSlash(path)
    ensures |DotSegmentsRemoved(path)| <= |path|
  {
    var segments := Segments(path);
    assert segments == [[]] + Segments(path[1..]);
    JoinedSegments(path);
    StackIsShorter(segments);
    RemovedIsRendered(path);
    var output := AppliedAll([], segments);
    if Stack(path) != output {
      TrailingIsLast(path);
      JoinedAppend(output, []);
      if segments[|segments| - 1] == [] { EmptyLast(segments); }
    }
  }

  /** After an empty last segment the stack is empty or ends in an empty segment. */
  lemma EmptyLast(segments: seq<JsString>)
    requires segments != [] && segments[|segments| - 1] == []
    ensures var output := AppliedAll([], segments); output == [] || output[|output| - 1] == []
  {
  }

  // ---------------------------------------------------------------- what removal keeps

  /** A property of texts that joining and cutting at slashes keeps. */
  ghost predicate SlashClosed(q: JsString -> bool)
  {
    q([]) && q([SLASH]) && (forall a, b :: q(a) && q(b) ==> q(a + b)) &&
    forall a, b :: q(a + [SLASH] + b) ==> q(a) && q(b)
  }

  ghost predicate Each(q: JsString -> bool, segments: seq<JsString>)
  {
    forall i :: 0 <= i < |segments| ==> q(segments[i])
  }

  lemma {:induction false} EachOfJoined(q: JsString -> bool, segments: seq<JsString>)
    requires SlashClosed(q) && segments != []
    ensures q(Joined(segments)) <==> Each(q, segments)
  {
    if |segments| > 1 {
      var rest := segments[1..];
      EachOfJoined(q, rest);
      if q(Joined(segments)) {
        assert q(segments[0] + [SLASH] + Joined(rest));
        assert forall i :: 0 < i < |segments| ==> segments[i] == rest[i - 1];
      }
      if Each(q, segments) {
        assert Each(q, rest);
        assert q(segments[0] + [SLASH]) && q(segments[0] + [SLASH] + Joined(rest));
      }
    }
  }

  lemma {:induction false} EachOfStack(q: JsString -> bool, segments: seq<JsString>)
    requires SlashClosed(q) && Each(q, segments)
    ensures Each(q, AppliedAll([], segments))
  {
    if segments != [] {
      var n := |segments| - 1;
      EachOfStack(q, segments[..n]);
      var before := AppliedAll([], segments[..n]);
      assert q(segments[n]);
      assert Each(q, before + [segments[n]]) && Each(q, Popped(before));
    }
  }

  lemma RemovalKeeps(q: JsString -> bool, path: JsString)
    requires SlashClosed(q) && q(path) && HasLeadingSlash(path)
    ensures q(DotSegmentsRemoved(path))
  {
    JoinedSegments(path);
    EachOfJoined(q, Segments(path));
    EachOfStack(q, Segments(path));
    RemovedIsRendered(path);
    var output := Stack(path);
    assert Each(q, output);
    if output != [] {
      EachOfJoined(q, output);
      assert q([SLASH] + Joined(output));
    }
  }
}
