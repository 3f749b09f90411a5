/**
 `remove_dot_segments` of section 5.2.4 of RFC 3986, and when `removeDotSegments` of
 `src/base/uri/resource-uri.ts` does the same.
 */
module DotSegments {
  import opened Utf8
  import opened PathSegments
  import CanonicalJson

  // ---------------------------------------------------------------- the algorithm of the RFC

  /** The first slash at or after `i`, or the end. */
  function NextSlash(s: JsString, i: nat): (k: nat)
    requires i <= |s|
    ensures i <= k <= |s| && (k < |s| ==> s[k] == SLASH) && forall j :: i <= j < k ==> s[j] != SLASH
    decreases |s| - i
  {
    if i == |s| || s[i] == SLASH then i else NextSlash(s, i + 1)
  }

  /** The output buffer without its last segment and the slash before it, if any. */
  function WithoutLastSegment(output: JsString): JsString
  {
    if output == [] then []
    else if output[|output| - 1] == SLASH then output[..|output| - 1]
    else WithoutLastSegment(output[..|output| - 1])
  }

  predicate At(s: JsString, i: nat, u: Unit) { i < |s| && s[i] == u }

  /** The input begins with `/` and `dots` dots, followed by a slash. */
  predicate Inside(s: JsString, dots: nat)
  {
    At(s, 0, SLASH) && (forall i :: 1 <= i <= dots ==> At(s, i, DOT)) && At(s, dots + 1, SLASH)
  }

  /** The input is `/` and `dots` dots. */
  predicate AtEnd(s: JsString, dots: nat)
  {
    |s| == dots + 1 && At(s, 0, SLASH) && forall i :: 1 <= i <= dots ==> At(s, i, DOT)
  }

  /** Steps 2A to 2E, in this order, until the input buffer is empty. */
  function Rfc(input: JsString, output: JsString): JsString
    decreases |input|
  {
    if input == [] then output
    else if At(input, 0, DOT) && At(input, 1, DOT) && At(input, 2, SLASH) then Rfc(input[3..], output)
    else if At(input, 0, DOT) && At(input, 1, SLASH) then Rfc(input[2..], output)
    else if Inside(input, 1) then Rfc(input[2..], output)
    else if AtEnd(input, 1) then Rfc([SLASH], output)
    else if Inside(input, 2) then Rfc(input[3..], WithoutLastSegment(output))
    else if AtEnd(input, 2) then Rfc([SLASH], WithoutLastSegment(output))
    else if input == [DOT] || input == [DOT, DOT] then Rfc([], output)
    else
      var k := NextSlash(input, 1);
      Rfc(input[k..], output + input[..k])
  }

  // ---------------------------------------------------------------- segment by segment

  function Pop(stack: seq<JsString>): seq<JsString> { if stack == [] then [] else stack[..|stack| - 1] }

  function Stepped(stack: seq<JsString>, segment: JsString): seq<JsString>
  {
    if IsDot(segment) then stack else if IsDotDot(segment) then Pop(stack) else stack + [segment]
  }

  function SteppedAll(stack: seq<JsString>, segments: seq<JsString>): seq<JsString>
  {
    if segments == [] then stack
    else Stepped(SteppedAll(stack, segments[..|segments| - 1]), segments[|segments| - 1])
  }

  /** A slash before each segment. */
  function Slashed(stack: seq<JsString>): JsString
  {
    if stack == [] then [] else Slashed(stack[..|stack| - 1]) + [SLASH] + stack[|stack| - 1]
  }

  /** A dot segment at the end leaves an empty segment behind. */
  function Closed(segments: seq<JsString>): seq<JsString>
    requires segments != []
  {
    var last := segments[|segments| - 1];
    if IsDot(last) || IsDotDot(last) then segments + [[]] else segments
  }

  lemma SlashedAppend(stack: seq<JsString>, s: JsString)
    ensures Slashed(stack + [s]) == Slashed(stack) + [SLASH] + s
  {
    assert (stack + [s])[..|stack|] == stack;
  }

  lemma {:induction false} SlashedIsJoined(stack: seq<JsString>)
    requires stack != []
    ensures Slashed(stack) == [SLASH] + Joined(stack)
  {
    var n := |stack| - 1;
    if n == 0 {
      assert stack[..0] == [];
    } else {
      SlashedIsJoined(stack[..n]);
      JoinedAppend(stack[..n], stack[n]);
      assert stack[..n] + [stack[n]] == stack;
    }
  }

  lemma {:induction false} LastSegmentRemoved(front: JsString, s: JsString)
    requires NoSlash(s)
    ensures WithoutLastSegment(front + [SLASH] + s) == front
  {
    var all := front + [SLASH] + s;
    if s != [] {
      LastSegmentRemoved(front, s[..|s| - 1]);
      assert all[..|all| - 1] == front + [SLASH] + s[..|s| - 1];
    } else {
      assert all[..|all| - 1] == front;
    }
  }

  lemma PopIsRemoval(stack: seq<JsString>)
    requires NoSlashes(stack)
    ensures WithoutLastSegment(Slashed(stack)) == Slashed(Pop(stack))
  {
    if stack != [] { LastSegmentRemoved(Slashed(Pop(stack)), stack[|stack| - 1]); }
  }

  lemma {:induction false} SteppedFirst(stack: seq<JsString>, s: JsString, rest: seq<JsString>)
    ensures SteppedAll(stack, [s] + rest) == SteppedAll(Stepped(stack, s), rest)
  {
    if rest == [] {
      assert [s] + rest == [s] && [s][..0] == [];
      assert SteppedAll(stack, [s][..0]) == stack;
    } else {
      var n := |rest| - 1;
      SteppedFirst(stack, s, rest[..n]);
      assert ([s] + rest)[..n + 1] == [s] + rest[..n];
    }
  }

  /** The dots between the first slash and the next one, or the end, are the first segment. */
  lemma FirstSegmentDots(s: JsString, input: JsString)
    requires NoSlash(s) && |s| < |input| && input[0] == SLASH && input[1..|s| + 1] == s
    requires |s| + 1 < |input| ==> input[|s| + 1] == SLASH
    ensures Inside(input, 1) <==> IsDot(s) && |input| > 2
    ensures Inside(input, 2) <==> IsDotDot(s) && |input| > 3
    ensures AtEnd(input, 1) <==> IsDot(s) && |input| == 2
    ensures AtEnd(input, 2) <==> IsDotDot(s) && |input| == 3
    ensures NextSlash(input, 1) == |s| + 1 && input[..|s| + 1] == [SLASH] + s
  {
    hide NextSlash, Inside, AtEnd, AllDots, IsDot, IsDotDot;
    FirstSegmentEnds(s, input);
    DotsAre(s, input, 1);
    DotsAre(s, input, 2);
    DotsOrNot(s);
  }

  lemma FirstSegmentEnds(s: JsString, input: JsString)
    requires NoSlash(s) && |s| < |input| && input[0] == SLASH && input[1..|s| + 1] == s
    requires |s| + 1 < |input| ==> input[|s| + 1] == SLASH
    ensures NextSlash(input, 1) == |s| + 1 && input[..|s| + 1] == [SLASH] + s
  {
    hide NextSlash;
    forall j | 1 <= j < |s| + 1 ensures input[j] != SLASH {
      assert input[j] == s[j - 1];
    }
    NextSlashAt(input, 1, |s| + 1);
  }

  lemma DotsOrNot(s: JsString)
    ensures IsDot(s) <==> AllDots(s) && |s| == 1
    ensures IsDotDot(s) <==> AllDots(s) && |s| == 2
  {
  }

  lemma DotsAre(s: JsString, input: JsString, dots: nat)
    requires NoSlash(s) && |s| < |input| && input[0] == SLASH && input[1..|s| + 1] == s
    requires |s| + 1 < |input| ==> input[|s| + 1] == SLASH
    ensures Inside(input, dots) <==> AllDots(s) && |s| == dots && |input| > dots + 1
    ensures AtEnd(input, dots) <==> AllDots(s) && |s| == dots && |input| == dots + 1
  {
    assert forall j :: 0 <= j < |s| ==> s[j] == input[j + 1];
    forall i | 1 <= i <= |s| ensures !At(input, i, SLASH) {
      assert input[i] == s[i - 1];
    }
    if Inside(input, dots) || AtEnd(input, dots) {
      assert !At(input, |s| + 1, DOT);
      assert |s| == dots;
      assert forall j :: 0 <= j < |s| ==> s[j] == input[j + 1] && At(input, j + 1, DOT);
    }
  }

  predicate AllDots(s: JsString) { forall i :: 0 <= i < |s| ==> s[i] == DOT }

  lemma {:induction false} NextSlashAt(s: JsString, i: nat, k: nat)
    requires i <= k <= |s| && (k < |s| ==> s[k] == SLASH) && forall j :: i <= j < k ==> s[j] != SLASH
    ensures NextSlash(s, i) == k
    decreases k - i
  {
    if i < k { NextSlashAt(s, i + 1, k); }
  }

  /** What one segment at the front of the input does. */
  lemma RfcFirst(stack: seq<JsString>, s: JsString, rest: JsString)
    requires NoSlash(s) && NoSlashes(stack)
    ensures Rfc([SLASH] + s + [SLASH] + rest, Slashed(stack)) == Rfc([SLASH] + rest, Slashed(Stepped(stack, s)))
  {
    hide Rfc, Slashed, WithoutLastSegment;
    PopIsRemoval(stack);
    if IsDot(s) || IsDotDot(s) {
      RfcDots(Slashed(stack), s, rest);
    } else {
      RfcText(stack, s, rest);
    }
  }

  lemma AfterFirst(s: JsString, rest: JsString)
    ensures ([SLASH] + s + [SLASH] + rest)[|s| + 1..] == [SLASH] + rest
  {
    assert [SLASH] + s + [SLASH] + rest == ([SLASH] + s) + ([SLASH] + rest);
  }

  lemma RfcDots(output: JsString, s: JsString, rest: JsString)
    requires IsDot(s) || IsDotDot(s)
    ensures Rfc([SLASH] + s + [SLASH] + rest, output)
         == Rfc([SLASH] + rest, if IsDot(s) then output else WithoutLastSegment(output))
  {
    hide Inside, AtEnd, NextSlash, WithoutLastSegment;
    var input := [SLASH] + s + [SLASH] + rest;
    FirstSegmentDots(s, input);
    AfterFirst(s, rest);
  }

  lemma RfcText(stack: seq<JsString>, s: JsString, rest: JsString)
    requires NoSlash(s) && !IsDot(s) && !IsDotDot(s)
    ensures Rfc([SLASH] + s + [SLASH] + rest, Slashed(stack)) == Rfc([SLASH] + rest, Slashed(stack + [s]))
  {
    hide Inside, AtEnd, NextSlash, Slashed, WithoutLastSegment, IsDot, IsDotDot;
    var input := [SLASH] + s + [SLASH] + rest;
    FirstSegmentDots(s, input);
    AfterFirst(s, rest);
    SlashedAppend(stack, s);
    assert Slashed(stack) + ([SLASH] + s) == Slashed(stack) + [SLASH] + s;
  }

  lemma RfcLast(stack: seq<JsString>, s: JsString)
    requires NoSlash(s) && NoSlashes(stack)
    ensures Rfc([SLASH] + s, Slashed(stack)) == Slashed(SteppedAll(stack, Closed([s])))
  {
    hide Inside, AtEnd, NextSlash, Slashed, WithoutLastSegment, SteppedAll, Closed;
    var input := [SLASH] + s;
    FirstSegmentDots(s, input);
    OneSegment(stack, s);
    PopIsRemoval(stack);
    if IsDot(s) || IsDotDot(s) {
      JustSlash(Stepped(stack, s));
    } else {
      RfcPlain(stack, s);
    }
  }

  lemma RfcPlain(stack: seq<JsString>, s: JsString)
    requires NoSlash(s) && !IsDot(s) && !IsDotDot(s)
    ensures Rfc([SLASH] + s, Slashed(stack)) == Slashed(stack + [s])
  {
    hide Inside, AtEnd, NextSlash, Slashed, WithoutLastSegment;
    var input := [SLASH] + s;
    FirstSegmentDots(s, input);
    assert input[|s| + 1..] == [];
    SlashedAppend(stack, s);
    assert Slashed(stack) + ([SLASH] + s) == Slashed(stack) + [SLASH] + s;
  }

  lemma JustSlash(stack: seq<JsString>)
    ensures Rfc([SLASH], Slashed(stack)) == Slashed(stack + [[]])
  {
    var input := [SLASH];
    assert NextSlash(input, 1) == 1 && input[1..] == [] && input[..1] == input;
    SlashedAppend(stack, []);
  }

  lemma OneSegment(stack: seq<JsString>, s: JsString)
    ensures SteppedAll(stack, Closed([s])) == if IsDot(s) || IsDotDot(s) then Stepped(stack, s) + [[]] else stack + [s]
  {
    assert [s][..0] == [] && SteppedAll(stack, [s][..0]) == stack;
    assert ([s] + [[]])[..1] == [s];
  }

  /** On an absolute path the buffers of the RFC hold a stack of segments. */
  lemma {:induction false} RfcOfSegments(stack: seq<JsString>, segments: seq<JsString>)
    requires segments != [] && NoSlashes(segments) && NoSlashes(stack)
    ensures Rfc([SLASH] + Joined(segments), Slashed(stack)) == Slashed(SteppedAll(stack, Closed(segments)))
    decreases |segments|
  {
    hide Rfc, Slashed, SteppedAll;
    var s, rest := segments[0], segments[1..];
    if rest == [] {
      assert segments == [s];
      RfcLast(stack, s);
    } else {
      assert [SLASH] + Joined(segments) == [SLASH] + s + [SLASH] + Joined(rest);
      RfcFirst(stack, s, Joined(rest));
      RfcOfSegments(Stepped(stack, s), rest);
      SteppedFirst(stack, s, Closed(rest));
      assert Closed(segments) == [s] + Closed(rest);
    }
  }

  // ---------------------------------------------------------------- both stacks side by side

  function Texts(stack: seq<JsString>): nat
  {
    if stack == [] then 0 else Texts(stack[..|stack| - 1]) + if stack[|stack| - 1] == [] then 0 else 1
  }

  /** The stack of the RFC without empty segments at the front and with one for each run of them. */
  function Deduped(stack: seq<JsString>): seq<JsString>
  {
    if stack == [] then [] else Applied(Deduped(stack[..|stack| - 1]), stack[|stack| - 1])
  }

  /** In the algorithm of the RFC some `..` removed an empty segment, and a text segment below it has
      been on the stack ever since. */
  predicate Spoilt(segments: seq<JsString>)
  {
    if segments == [] then false
    else
      var front, last := segments[..|segments| - 1], segments[|segments| - 1];
      if !IsDotDot(last) then Spoilt(front)
      else
        var stack := SteppedAll([], front);
        Texts(Pop(stack)) > 0 && (Spoilt(front) || stack[|stack| - 1] == [])
  }

  predicate NoDots(stack: seq<JsString>) { forall i :: 0 <= i < |stack| ==> !IsDot(stack[i]) && !IsDotDot(stack[i]) }

  ghost predicate Related(rfc: seq<JsString>, code: seq<JsString>, spoilt: bool)
  {
    NoDots(rfc) && Tidy(code) && if spoilt then Texts(code) < Texts(rfc) else code == Deduped(rfc)
  }

  lemma TextsAppend(stack: seq<JsString>, s: JsString)
    ensures Texts(stack + [s]) == Texts(stack) + if s == [] then 0 else 1
  {
    assert (stack + [s])[..|stack|] == stack;
  }

  lemma DedupedAppend(stack: seq<JsString>, s: JsString)
    ensures Deduped(stack + [s]) == Applied(Deduped(stack), s)
  {
    assert (stack + [s])[..|stack|] == stack;
  }

  lemma {:induction false} TextsOfDeduped(stack: seq<JsString>)
    requires NoDots(stack)
    ensures Texts(Deduped(stack)) == Texts(stack)
    ensures Texts(stack) == 0 ==> Deduped(stack) == []
  {
    if stack != [] {
      var n := |stack| - 1;
      TextsOfDeduped(stack[..n]);
      TextsAppend(Deduped(stack[..n]), stack[n]);
    }
  }

  lemma {:induction false} TextsOfPopped(code: seq<JsString>)
    ensures Texts(Popped(code)) == if Texts(code) == 0 then 0 else Texts(code) - 1
  {
    if code != [] && code[|code| - 1] == [] { TextsOfPopped(code[..|code| - 1]); }
  }

  lemma {:induction false} NoTextNoStack(code: seq<JsString>)
    requires code != [] && code[0] != []
    ensures Texts(code) > 0
  {
    if |code| > 1 { NoTextNoStack(code[..|code| - 1]); }
  }

  lemma PopRelated(rfc: seq<JsString>, code: seq<JsString>, spoilt: bool)
    requires Related(rfc, code, spoilt)
    ensures Related(Pop(rfc), Popped(code), Texts(Pop(rfc)) > 0 && (spoilt || rfc[|rfc| - 1] == []))
  {
    TidyPrefix(code, Popped(code));
    TextsOfPopped(code);
    TextsOfDeduped(rfc);
    TextsOfDeduped(Pop(rfc));
    if Texts(code) == 0 && code != [] { NoTextNoStack(code); }
    if rfc != [] && rfc[|rfc| - 1] != [] { DedupedPop(rfc); }
  }

  lemma DedupedPop(rfc: seq<JsString>)
    requires rfc != [] && rfc[|rfc| - 1] != [] && NoDots(rfc)
    ensures Popped(Deduped(rfc)) == Deduped(Pop(rfc))
  {
    var s := rfc[|rfc| - 1];
    assert Deduped(rfc) == Deduped(Pop(rfc)) + [s];
    assert WithoutEmpties(Deduped(rfc)) == Deduped(rfc);
  }

  lemma StepRelated(rfc: seq<JsString>, code: seq<JsString>, spoilt: bool, s: JsString)
    requires Related(rfc, code, spoilt) && NoSlash(s) && !IsDotDot(s)
    ensures Related(Stepped(rfc, s), Applied(code, s), spoilt)
  {
    hide Texts, Deduped, Tidy;
    AppliedTidy(code, s);
    TextsAppend(rfc, s);
    TextsAppend(code, s);
    TextsAppend(code, []);
    DedupedAppend(rfc, s);
  }

  lemma {:induction false} AllRelated(segments: seq<JsString>)
    requires NoSlashes(segments)
    ensures Related(SteppedAll([], segments), AppliedAll([], segments), Spoilt(segments))
  {
    if segments != [] {
      var n := |segments| - 1;
      AllRelated(segments[..n]);
      var rfc, code := SteppedAll([], segments[..n]), AppliedAll([], segments[..n]);
      if IsDotDot(segments[n]) {
        PopRelated(rfc, code, Spoilt(segments[..n]));
      } else {
        StepRelated(rfc, code, Spoilt(segments[..n]), segments[n]);
      }
    }
  }

  lemma {:induction false} TidyIsDeduped(stack: seq<JsString>)
    requires Tidy(stack)
    ensures Deduped(stack) == stack
  {
    if stack != [] {
      var n := |stack| - 1;
      TidyPrefix(stack, stack[..n]);
      TidyIsDeduped(stack[..n]);
      if n > 0 { assert stack[n - 1] != [] || stack[n] != []; }
    }
  }

  // ---------------------------------------------------------------- the code, in the same terms

  lemma {:induction false} AppliedFirstEmpty(segments: seq<JsString>)
    ensures AppliedAll([], [[]] + segments) == AppliedAll([], segments)
  {
    var all := [[]] + segments;
    if segments == [] {
      assert all[..0] == [] && AppliedAll([], all[..0]) == [];
    } else {
      var n := |segments| - 1;
      AppliedFirstEmpty(segments[..n]);
      assert all[..|all| - 1] == [[]] + segments[..n];
    }
  }

  /** The segments behind the leading slash. */
  function Inner(path: JsString): (segments: seq<JsString>)
    requires HasLeadingSlash(path)
    ensures segments != []
  {
    Segments(path[1..])
  }

  lemma DottedEndIsTrailing(path: JsString)
    requires HasLeadingSlash(path)
    ensures var last := Inner(path)[|Inner(path)| - 1]; IsDot(last) || IsDotDot(last) ==> HasTrailingSlash(path)
  {
    hide Joined, Segments, HasTrailingSlash;
    var segments := Inner(path);
    var n := |segments| - 1;
    var last := segments[n];
    JoinedSegments(path[1..]);
    SlashedIsJoined(segments);
    assert path == Slashed(segments[..n]) + [SLASH] + last;
    if IsDot(last) || IsDotDot(last) { DottedEnd(Slashed(segments[..n]), last); }
  }

  lemma DottedEnd(front: JsString, last: JsString)
    requires IsDot(last) || IsDotDot(last)
    ensures HasTrailingSlash(front + [SLASH] + last)
  {
    var path := front + [SLASH] + last;
    assert path[|path| - |last| - 1..] == [SLASH] + last;
  }

  lemma StackIsClosed(path: JsString)
    requires HasLeadingSlash(path)
    ensures Stack(path) == AppliedAll([], Closed(Inner(path)))
  {
    var segments := Inner(path);
    var last := segments[|segments| - 1];
    assert Segments(path) == [[]] + segments;
    AppliedFirstEmpty(segments);
    DottedEndIsTrailing(path);
    if HasTrailingSlash(path) { TrailingIsLast(path); }
    if IsDot(last) || IsDotDot(last) {
      assert (segments + [[]])[..|segments|] == segments;
    } else if last == [] {
      EmptyLast(segments);
    }
  }

  // ---------------------------------------------------------------- when they agree

  function Removed(path: JsString): JsString { Rfc(path, []) }

  lemma RemovedIsSlashed(path: JsString)
    requires HasLeadingSlash(path)
    ensures Removed(path) == Slashed(SteppedAll([], Closed(Inner(path))))
  {
    hide Rfc, SteppedAll, Joined, Segments, Closed, NoSlash;
    SegmentsHaveNoSlash(path[1..]);
    JoinedSegments(path[1..]);
    RfcOfSegments([], Inner(path));
    assert Slashed([]) == [] && path == [SLASH] + path[1..];
  }

  lemma {:induction false} SteppedHasNoSlash(segments: seq<JsString>)
    requires NoSlashes(segments)
    ensures NoSlashes(SteppedAll([], segments))
  {
    if segments != [] { SteppedHasNoSlash(segments[..|segments| - 1]); }
  }

  lemma ClosedStack(segments: seq<JsString>)
    requires segments != [] && NoSlashes(segments)
    ensures SteppedAll([], Closed(segments)) != [] && NoSlashes(SteppedAll([], Closed(segments)))
    ensures Spoilt(Closed(segments)) == Spoilt(segments)
  {
    SteppedHasNoSlash(Closed(segments));
    assert (segments + [[]])[..|segments|] == segments;
  }

  lemma SameText(rfc: seq<JsString>, code: seq<JsString>)
    requires rfc != [] && NoSlashes(rfc) && NoSlashes(code)
    ensures Slashed(rfc) == Rendered(code) <==> rfc == (if code == [] then [[]] else code)
  {
    SlashedIsJoined(rfc);
    var other := if code == [] then [[]] else code;
    assert Rendered(code) == [SLASH] + Joined(other);
    assert ([SLASH] + Joined(rfc))[1..] == Joined(rfc) && ([SLASH] + Joined(other))[1..] == Joined(other);
    SegmentsOfJoined(rfc);
    SegmentsOfJoined(other);
  }

  /** No empty segment at the front and no two in a row, unless the path is a slash. */
  ghost predicate SingleSlashed(path: JsString)
    requires HasLeadingSlash(path)
  {
    path == [SLASH] || Tidy(Inner(path))
  }

  lemma SlashedSegments(stack: seq<JsString>)
    requires stack != [] && NoSlashes(stack)
    ensures HasLeadingSlash(Slashed(stack)) && Inner(Slashed(stack)) == stack
    ensures SingleSlashed(Slashed(stack)) <==> stack == [[]] || Tidy(stack)
  {
    SlashedIsJoined(stack);
    assert Slashed(stack)[1..] == Joined(stack);
    SegmentsOfJoined(stack);
    if Slashed(stack) == [SLASH] { assert Slashed(stack)[1..] == []; }
    if stack == [[]] { assert Slashed(stack) == [SLASH]; }
  }

  /** On an absolute path the code does what the RFC says if and only if the result of the RFC has no
      empty segment at the front and no two in a row, and no `..` has removed an empty segment above
      a text segment that stayed. */
  lemma AgreesIff(path: JsString)
    requires HasLeadingSlash(path)
    ensures HasLeadingSlash(Removed(path))
    ensures DotSegmentsRemoved(path) == Removed(path) <==> SingleSlashed(Removed(path)) && !Spoilt(Inner(path))
  {
    hide Rfc, Slashed, SteppedAll, AppliedAll, Rendered, Stack, DotSegmentsRemoved, SingleSlashed, Spoilt, Deduped,
         Tidy, Segments;
    var closed := Closed(Inner(path));
    var rfc, code := SteppedAll([], closed), AppliedAll([], closed);
    SegmentsHaveNoSlash(path[1..]);
    ClosedStack(Inner(path));
    RemovedIsSlashed(path);
    RemovedIsRendered(path);
    StackIsClosed(path);
    AllRelated(closed);
    CodeHasNoSlash(code);
    SameText(rfc, code);
    SlashedSegments(rfc);
    SameStackIff(rfc, code, Spoilt(closed));
  }

  lemma CodeHasNoSlash(code: seq<JsString>)
    requires Tidy(code)
    ensures NoSlashes(code)
  {
  }

  lemma SameStackIff(rfc: seq<JsString>, code: seq<JsString>, spoilt: bool)
    requires Related(rfc, code, spoilt) && rfc != []
    ensures rfc == (if code == [] then [[]] else code) <==> (rfc == [[]] || Tidy(rfc)) && !spoilt
  {
    if Tidy(rfc) { TidyIsDeduped(rfc); }
    if rfc == [[]] { assert rfc[..0] == [] && Texts(rfc[..0]) == 0 && Deduped(rfc[..0]) == []; }
  }

  // ---------------------------------------------------------------- examples

  lemma ThreeSegments(s: seq<JsString>)
    requires |s| == 3
    ensures SteppedAll([], s) == Stepped(Stepped(Stepped([], s[0]), s[1]), s[2])
    ensures AppliedAll([], s) == Applied(Applied(Applied([], s[0]), s[1]), s[2])
  {
    assert s[..2][..1] == s[..1] && s[..1][..0] == [];
    assert SteppedAll([], s[..1][..0]) == [] == AppliedAll([], s[..1][..0]);
    assert SteppedAll([], s[..1]) == Stepped([], s[0]) && AppliedAll([], s[..1]) == Applied([], s[0]);
  }

  lemma FourSegments(s: seq<JsString>)
    requires |s| == 4
    ensures SteppedAll([], s) == Stepped(Stepped(Stepped(Stepped([], s[0]), s[1]), s[2]), s[3])
    ensures AppliedAll([], s) == Applied(Applied(Applied(Applied([], s[0]), s[1]), s[2]), s[3])
  {
    ThreeSegments(s[..3]);
  }

  lemma Evaluated(path: JsString, segments: seq<JsString>)
    requires segments != [] && NoSlashes(segments) && path == [SLASH] + Joined(segments) && Closed(segments) == segments
    ensures Removed(path) == Slashed(SteppedAll([], segments))
    ensures DotSegmentsRemoved(path) == Rendered(AppliedAll([], segments))
  {
    assert path[1..] == Joined(segments);
    SegmentsOfJoined(segments);
    RemovedIsSlashed(path);
    RemovedIsRendered(path);
    StackIsClosed(path);
  }

  const A: JsString := [0x61]
  const B: JsString := [0x62]

  /** A run of slashes: "/a///b" becomes "/a//b". */
  lemma RunOfSlashes()
    ensures var path := CanonicalJson.Lit("/a///b");
            Removed(path) == path && DotSegmentsRemoved(path) == CanonicalJson.Lit("/a//b")
  {
    hide SteppedAll, AppliedAll, Slashed, Removed, DotSegmentsRemoved, Joined, Closed, Stack, NoSlashes;
    var segments := [A, [], [], B];
    JoinedFour(A, [], [], B);
    JoinedThree(A, [], B);
    assert CanonicalJson.Lit("/a///b") == [SLASH] + Joined(segments);
    assert CanonicalJson.Lit("/a//b") == [SLASH] + Joined([A, [], B]);
    NoSlashInside([A, [], [], B]);
    Evaluated(CanonicalJson.Lit("/a///b"), segments);
    RunStacks();
    SlashedIsJoined(segments);
  }

  lemma NoSlashInside(segments: seq<JsString>)
    requires segments != [] && segments[|segments| - 1] == B
    requires forall i :: 0 <= i < |segments| ==> segments[i] in {A, [], B, [DOT, DOT]}
    ensures NoSlashes(segments) && Closed(segments) == segments
  {
  }

  lemma RunStacks()
    ensures SteppedAll([], [A, [], [], B]) == [A, [], [], B] && AppliedAll([], [A, [], [], B]) == [A, [], B]
  {
    hide SteppedAll, AppliedAll;
    FourSegments([A, [], [], B]);
  }

  lemma JoinedThree(x: JsString, y: JsString, z: JsString)
    ensures Joined([x, y, z]) == x + [SLASH] + (y + [SLASH] + z)
  {
    assert [x, y, z][1..] == [y, z] && [y, z][1..] == [z];
    assert Joined([y, z]) == y + [SLASH] + z;
  }

  lemma JoinedFour(w: JsString, x: JsString, y: JsString, z: JsString)
    ensures Joined([w, x, y, z]) == w + [SLASH] + (x + [SLASH] + (y + [SLASH] + z))
  {
    assert [w, x, y, z][1..] == [x, y, z];
    JoinedThree(x, y, z);
  }

  /** An empty segment before `..`: "/a//../b" becomes "/b" instead of "/a/b". */
  lemma EmptyBeforeDots()
    ensures var path := CanonicalJson.Lit("/a//../b");
            Removed(path) == CanonicalJson.Lit("/a/b") && DotSegmentsRemoved(path) == CanonicalJson.Lit("/b")
  {
    hide SteppedAll, AppliedAll, Slashed, Removed, DotSegmentsRemoved, Joined, Closed, Stack, NoSlashes;
    var segments: seq<JsString> := [A, [], [DOT, DOT], B];
    JoinedFour(A, [], [DOT, DOT], B);
    JoinedTwo();
    assert CanonicalJson.Lit("/a//../b") == [SLASH] + Joined(segments);
    assert CanonicalJson.Lit("/a/b") == [SLASH] + Joined([A, B]) && CanonicalJson.Lit("/b") == [SLASH] + Joined([B]);
    NoSlashInside(segments);
    Evaluated(CanonicalJson.Lit("/a//../b"), segments);
    DotsStacks();
    SlashedIsJoined([A, B]);
  }

  lemma JoinedTwo()
    ensures Joined([A, B]) == A + [SLASH] + B && Joined([B]) == B
  {
    assert [A, B][1..] == [B];
  }

  lemma DotsStacks()
    ensures SteppedAll([], [A, [], [DOT, DOT], B]) == [A, B] && AppliedAll([], [A, [], [DOT, DOT], B]) == [B]
  {
    hide SteppedAll, AppliedAll;
    FourSegments([A, [], [DOT, DOT], B]);
    PoppedEmpty();
    assert [A, []][..1] == [A];
  }

  lemma PoppedEmpty()
    ensures Popped([A, []]) == []
  {
    assert [A, []][..1] == [A] && WithoutEmpties([A]) == [A];
  }

  // ---------------------------------------------------------------- a simple sufficient condition

  predicate NoneEmpty(segments: seq<JsString>) { forall i :: 0 <= i < |segments| ==> segments[i] != [] }

  lemma {:induction false} NoneEmptyStays(segments: seq<JsString>)
    requires NoneEmpty(segments)
    ensures NoneEmpty(SteppedAll([], segments)) && !Spoilt(segments)
  {
    if segments != [] { NoneEmptyStays(segments[..|segments| - 1]); }
  }

  /** In particular on every absolute path without an empty segment before the last. */
  lemma AgreesWithoutEmptySegments(path: JsString)
    requires HasLeadingSlash(path) && NoneEmpty(Inner(path)[..|Inner(path)| - 1])
    ensures DotSegmentsRemoved(path) == Removed(path)
  {
    hide Rfc, Slashed, Stack, DotSegmentsRemoved, SingleSlashed;
    var segments := Inner(path);
    SegmentsHaveNoSlash(path[1..]);
    NoneEmptyStays(segments[..|segments| - 1]);
    AgreesIff(path);
    ClosedStack(segments);
    RemovedIsSlashed(path);
    SlashedSegments(SteppedAll([], Closed(segments)));
    AllRelated(Closed(segments));
    OnlyLastEmpty(segments);
  }

  lemma OnlyLastEmpty(segments: seq<JsString>)
    requires segments != [] && NoneEmpty(segments[..|segments| - 1])
    requires NoDots(SteppedAll([], Closed(segments))) && NoSlashes(SteppedAll([], Closed(segments)))
    ensures !Spoilt(segments)
    ensures SteppedAll([], Closed(segments)) == [[]] || Tidy(SteppedAll([], Closed(segments)))
  {
    hide SteppedAll, NoSlashes, NoDots, Tidy, Closed;
    var n := |segments| - 1;
    NoneEmptyStays(segments[..n]);
    var before, last := SteppedAll([], segments[..n]), segments[n];
    SteppedLast(segments);
    if IsDot(last) || IsDotDot(last) { TidyButLast(Stepped(before, last), []); } else { TidyButLast(before, last); }
  }

  lemma TidyButLast(stack: seq<JsString>, s: JsString)
    requires NoneEmpty(stack) && NoDots(stack + [s]) && NoSlashes(stack + [s])
    ensures stack + [s] == [[]] || Tidy(stack + [s])
  {
  }

  lemma SteppedLast(segments: seq<JsString>)
    requires segments != []
    ensures var n := |segments| - 1;
            var before, last := SteppedAll([], segments[..n]), segments[n];
            SteppedAll([], Closed(segments))
            == if IsDot(last) || IsDotDot(last) then Stepped(before, last) + [[]] else before + [last]
  {
    assert (segments + [[]])[..|segments|] == segments;
  }
}
