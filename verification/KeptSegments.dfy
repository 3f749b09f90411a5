/**
 When `removeDotSegments` of `src/base/uri/resource-uri.ts` does what section 5.2.4 of RFC 3986 says, read
 off the segments of the path: which of them stay, and which a later `..` removes.
 */
module KeptSegments {
  import opened Utf8
  import opened PathSegments
  import opened DotSegments

  // ---------------------------------------------------------------- which segments stay

  /** How much higher the stack is after the segments from `i` on. */
  function Rise(segments: seq<JsString>, i: nat): int
    decreases |segments|
  {
    if |segments| <= i then 0
    else
      var last := segments[|segments| - 1];
      Rise(segments[..|segments| - 1], i) + if IsDot(last) then 0 else if IsDotDot(last) then -1 else 1
  }

  /** This segment is pushed and stays: from it on, no point has seen as many `..` as other segments. */
  predicate Kept(segments: seq<JsString>, i: nat)
  {
    i < |segments| && !IsDot(segments[i]) && !IsDotDot(segments[i]) &&
    forall k :: i < k <= |segments| ==> Rise(segments[..k], i) > 0
  }

  /** The positions of the segments on the stack of the RFC. */
  function Places(segments: seq<JsString>): seq<nat>
  {
    if segments == [] then []
    else
      var front, n := Places(segments[..|segments| - 1]), |segments| - 1;
      if IsDot(segments[n]) then front
      else if IsDotDot(segments[n]) then if front == [] then [] else front[..|front| - 1]
      else front + [n]
  }

  /** Each place is kept, at its height on the stack. */
  ghost predicate Heights(segments: seq<JsString>, places: seq<nat>)
  {
    forall p :: 0 <= p < |places| ==>
      places[p] < |segments| && Rise(segments, places[p]) == |places| - p && Kept(segments, places[p])
  }

  predicate Increasing(places: seq<nat>) { forall p, q :: 0 <= p < q < |places| ==> places[p] < places[q] }

  ghost predicate HoldsKept(segments: seq<JsString>, places: seq<nat>)
  {
    forall i :: 0 <= i < |segments| && Kept(segments, i) ==> i in places
  }

  ghost predicate PlacesOf(segments: seq<JsString>, places: seq<nat>)
  {
    Heights(segments, places) && Increasing(places) && HoldsKept(segments, places)
  }

  lemma RiseOneMore(segments: seq<JsString>, i: nat)
    requires i < |segments|
    ensures var n := |segments| - 1;
            Rise(segments, i) == Rise(segments[..n], i) +
              if IsDot(segments[n]) then 0 else if IsDotDot(segments[n]) then -1 else 1
  {
  }

  /** One more segment keeps what was kept, unless it removes it. */
  lemma KeptOneMore(segments: seq<JsString>, i: nat)
    requires i + 1 < |segments|
    ensures Kept(segments, i) <==> Kept(segments[..|segments| - 1], i) && Rise(segments, i) > 0
  {
    hide Rise;
    var n := |segments| - 1;
    assert segments[..n + 1] == segments;
    assert forall k :: 0 <= k <= n ==> segments[..n][..k] == segments[..k];
  }

  lemma KeptLast(segments: seq<JsString>)
    requires segments != []
    ensures var n := |segments| - 1; Kept(segments, n) <==> !IsDot(segments[n]) && !IsDotDot(segments[n])
  {
    var n := |segments| - 1;
    assert segments[..n + 1] == segments && Rise(segments[..n], n) == 0;
  }

  lemma {:induction false} PlacesAreKept(segments: seq<JsString>)
    ensures PlacesOf(segments, Places(segments))
  {
    if segments != [] {
      PlacesAreKept(segments[..|segments| - 1]);
      PlacesOneMore(segments);
    }
  }

  /** What one more segment does to the earlier ones, if it changes the height by this much. */
  ghost predicate Shifted(segments: seq<JsString>, change: int)
    requires segments != []
  {
    var n := |segments| - 1;
    forall i :: 0 <= i < n ==>
      Rise(segments, i) == Rise(segments[..n], i) + change &&
      (Kept(segments, i) <==> Kept(segments[..n], i) && Rise(segments, i) > 0)
  }

  lemma ShiftedBy(segments: seq<JsString>)
    requires segments != [] && PlacesOf(segments[..|segments| - 1], Places(segments[..|segments| - 1]))
    ensures var last := segments[|segments| - 1];
            Shifted(segments, if IsDot(last) then 0 else if IsDotDot(last) then -1 else 1)
  {
    hide Rise, Kept, Places, PlacesOf;
    var n := |segments| - 1;
    var change := if IsDot(segments[n]) then 0 else if IsDotDot(segments[n]) then -1 else 1;
    forall i | 0 <= i < n
      ensures Rise(segments, i) == Rise(segments[..n], i) + change
      ensures Kept(segments, i) <==> Kept(segments[..n], i) && Rise(segments, i) > 0
    {
      RiseOneMore(segments, i);
      KeptOneMore(segments, i);
    }
  }

  lemma PlacesOneMore(segments: seq<JsString>)
    requires segments != [] && PlacesOf(segments[..|segments| - 1], Places(segments[..|segments| - 1]))
    ensures PlacesOf(segments, Places(segments))
  {
    hide Rise, Kept, PlacesOf, Shifted;
    var n := |segments| - 1;
    ShiftedBy(segments);
    KeptLast(segments);
    LastRises(segments);
    if IsDot(segments[n]) {
      PlacesStay(segments, Places(segments[..n]));
    } else if IsDotDot(segments[n]) {
      PlacesPop(segments, Places(segments[..n]));
    } else {
      PlacesPush(segments, Places(segments[..n]));
    }
  }

  lemma PlacesStay(segments: seq<JsString>, before: seq<nat>)
    requires segments != [] && PlacesOf(segments[..|segments| - 1], before)
    requires Shifted(segments, 0) && !Kept(segments, |segments| - 1)
    ensures PlacesOf(segments, before)
  {
    hide Rise, Kept;
  }

  lemma PlacesPop(segments: seq<JsString>, before: seq<nat>)
    requires segments != [] && PlacesOf(segments[..|segments| - 1], before)
    requires Shifted(segments, -1) && !Kept(segments, |segments| - 1)
    ensures PlacesOf(segments, if before == [] then [] else before[..|before| - 1])
  {
    hide Rise, Kept;
    var n, places := |segments| - 1, if before == [] then [] else before[..|before| - 1];
    forall p | 0 <= p < |places|
      ensures places[p] < |segments| && Rise(segments, places[p]) == |places| - p && Kept(segments, places[p])
    {
      assert Rise(segments[..n], before[p]) == |before| - p;
    }
    forall i | 0 <= i < n && Kept(segments, i) ensures i in places {
      var p :| 0 <= p < |before| && before[p] == i;
      assert Rise(segments, before[p]) == |before| - p - 1;
      assert places[p] == i;
    }
  }

  lemma PlacesPush(segments: seq<JsString>, before: seq<nat>)
    requires segments != [] && PlacesOf(segments[..|segments| - 1], before)
    requires Shifted(segments, 1) && Kept(segments, |segments| - 1) && Rise(segments, |segments| - 1) == 1
    ensures PlacesOf(segments, before + [|segments| - 1])
  {
    hide Rise, Kept, Shifted, Heights, HoldsKept;
    HeightsPush(segments, before);
    HoldsPush(segments, before);
    PlacesInside(segments[..|segments| - 1], before);
  }

  lemma PlacesInside(segments: seq<JsString>, places: seq<nat>)
    requires Heights(segments, places)
    ensures forall p :: 0 <= p < |places| ==> places[p] < |segments|
  {
    hide Rise, Kept;
  }

  lemma HeightsPush(segments: seq<JsString>, before: seq<nat>)
    requires segments != [] && Heights(segments[..|segments| - 1], before) && Shifted(segments, 1)
    requires Kept(segments, |segments| - 1) && Rise(segments, |segments| - 1) == 1
    ensures Heights(segments, before + [|segments| - 1])
  {
    hide Rise, Kept;
    var n, places := |segments| - 1, before + [|segments| - 1];
    forall p | 0 <= p < |places|
      ensures places[p] < |segments| && Rise(segments, places[p]) == |places| - p && Kept(segments, places[p])
    {
      if p < |before| { assert Rise(segments[..n], before[p]) == |before| - p; }
    }
  }

  lemma HoldsPush(segments: seq<JsString>, before: seq<nat>)
    requires segments != [] && HoldsKept(segments[..|segments| - 1], before) && Shifted(segments, 1)
    ensures HoldsKept(segments, before + [|segments| - 1])
  {
    hide Rise, Kept;
    var n := |segments| - 1;
    forall i | 0 <= i <= n && Kept(segments, i) ensures i in before + [n] {
      if i < n { assert Kept(segments[..n], i) && i in before; }
    }
  }

  lemma LastRises(segments: seq<JsString>)
    requires segments != []
    ensures var n := |segments| - 1; !IsDot(segments[n]) && !IsDotDot(segments[n]) ==> Rise(segments, n) == 1
  {
    assert Rise(segments[..|segments| - 1], |segments| - 1) == 0;
  }

  lemma {:induction false} StackOfPlaces(segments: seq<JsString>)
    ensures var places := Places(segments);
            |places| == |SteppedAll([], segments)| &&
            forall p :: 0 <= p < |places| ==>
              places[p] < |segments| && SteppedAll([], segments)[p] == segments[places[p]]
  {
    if segments != [] { StackOfPlaces(segments[..|segments| - 1]); }
  }

  /** An empty segment that stays has no text segment right before it among those that stay. */
  ghost predicate StaysBare(segments: seq<JsString>, j: nat)
  {
    Kept(segments, j) && segments[j] == [] &&
    !exists i :: 0 <= i < j && Kept(segments, i) && segments[i] != [] && !exists k :: i < k < j && Kept(segments, k)
  }

  /** One empty segment, and nothing else, stays. */
  ghost predicate StaysAlone(segments: seq<JsString>, j: nat)
  {
    Kept(segments, j) && segments[j] == [] && forall i :: 0 <= i < |segments| && i != j ==> !Kept(segments, i)
  }

  /** An empty segment is removed although a text segment before it stays. */
  ghost predicate RemovedAbove(segments: seq<JsString>, j: nat)
  {
    j < |segments| && segments[j] == [] && !Kept(segments, j) &&
    exists i :: 0 <= i < j && Kept(segments, i) && segments[i] != []
  }

  ghost predicate SomeRemovedAbove(segments: seq<JsString>) { exists j: nat :: RemovedAbove(segments, j) }

  lemma KeptIsPlace(segments: seq<JsString>, i: nat)
    ensures Kept(segments, i) <==> i in Places(segments)
  {
    PlacesAreKept(segments);
  }

  lemma {:induction false} SomeText(stack: seq<JsString>)
    ensures Texts(stack) > 0 <==> exists p :: 0 <= p < |stack| && stack[p] != []
  {
    if stack != [] {
      var n := |stack| - 1;
      SomeText(stack[..n]);
      if Texts(stack[..n]) > 0 {
        var p :| 0 <= p < n && stack[..n][p] != [];
        assert stack[p] != [];
      }
    }
  }

  /** A segment other than `..` removes nothing and adds nothing above which anything is removed. */
  lemma OthersRemoveNothing(segments: seq<JsString>)
    requires segments != [] && !IsDotDot(segments[|segments| - 1])
    ensures SomeRemovedAbove(segments) <==> SomeRemovedAbove(segments[..|segments| - 1])
  {
    hide Kept, Places;
    var n := |segments| - 1;
    var front := segments[..n];
    forall i: nat | i < n ensures Kept(segments, i) <==> Kept(front, i) {
      KeptIsPlace(segments, i);
      KeptIsPlace(front, i);
      PlacesGrow(segments, i);
    }
    KeptLast(segments);
    forall j: nat ensures RemovedAbove(segments, j) <==> RemovedAbove(front, j) {
      SameRemovedAbove(segments, j);
    }
  }

  lemma PlacesGrow(segments: seq<JsString>, i: nat)
    requires i + 1 < |segments| && !IsDotDot(segments[|segments| - 1])
    ensures i in Places(segments) <==> i in Places(segments[..|segments| - 1])
  {
  }

  lemma SameRemovedAbove(segments: seq<JsString>, j: nat)
    requires segments != [] && !IsDotDot(segments[|segments| - 1])
    requires Kept(segments, |segments| - 1) <==> !IsDot(segments[|segments| - 1])
    requires forall i: nat :: i < |segments| - 1 ==> (Kept(segments, i) <==> Kept(segments[..|segments| - 1], i))
    ensures RemovedAbove(segments, j) <==> RemovedAbove(segments[..|segments| - 1], j)
  {
    hide Kept;
    assert forall i: nat :: i < |segments| - 1 ==> segments[..|segments| - 1][i] == segments[i];
  }

  /** A `..` removes what is on top: one more empty segment, perhaps, above the texts that stay. */
  lemma DotsRemoveTop(segments: seq<JsString>)
    requires segments != [] && IsDotDot(segments[|segments| - 1])
    ensures var front := segments[..|segments| - 1];
            var stack := SteppedAll([], front);
            SomeRemovedAbove(segments) <==>
              Texts(Pop(stack)) > 0 && (SomeRemovedAbove(front) || stack[|stack| - 1] == [])
  {
    hide Kept, Places, SteppedAll, Texts, RemovedAbove;
    var n := |segments| - 1;
    var front := segments[..n];
    var stack, places := SteppedAll([], front), Places(front);
    StackOfPlaces(front);
    PlacesAreKept(front);
    SomeText(Pop(stack));
    forall j: nat | RemovedAbove(segments, j)
      ensures Texts(Pop(stack)) > 0 && (RemovedAbove(front, j) || stack[|stack| - 1] == [])
    {
      RemovedWasAbove(segments, j);
    }
    if Texts(Pop(stack)) > 0 {
      var p :| 0 <= p < |stack| - 1 && stack[p] != [];
      if stack[|stack| - 1] == [] { TopIsRemovedAbove(segments, p, places[|places| - 1]); }
      forall j: nat | RemovedAbove(front, j) ensures RemovedAbove(segments, j) {
        StillRemovedAbove(segments, p, j);
      }
    }
  }

  /** After a `..`, those stay that were on the stack below the top. */
  lemma KeptBelowTop(segments: seq<JsString>, i: nat)
    requires segments != [] && IsDotDot(segments[|segments| - 1])
    ensures var places := Places(segments[..|segments| - 1]);
            Kept(segments, i) <==> places != [] && i in places[..|places| - 1]
  {
    hide Kept;
    KeptIsPlace(segments, i);
  }

  lemma RemovedWasAbove(segments: seq<JsString>, j: nat)
    requires segments != [] && IsDotDot(segments[|segments| - 1]) && RemovedAbove(segments, j)
    ensures var front := segments[..|segments| - 1];
            var stack := SteppedAll([], front);
            Texts(Pop(stack)) > 0 && (RemovedAbove(front, j) || stack[|stack| - 1] == [])
  {
    hide Kept, Places, SteppedAll, Texts;
    var n := |segments| - 1;
    var front := segments[..n];
    var stack, places := SteppedAll([], front), Places(front);
    StackOfPlaces(front);
    var i: nat :| i < j && Kept(segments, i) && segments[i] != [];
    KeptBelowTop(segments, i);
    KeptIsPlace(front, i);
    var p :| 0 <= p < |places| - 1 && places[p] == i;
    assert Pop(stack)[p] != [];
    SomeText(Pop(stack));
    KeptIsPlace(front, j);
    KeptBelowTop(segments, j);
    if j in places {
      var q :| 0 <= q < |places| && places[q] == j;
      assert forall t :: 0 <= t < |places| - 1 ==> places[..|places| - 1][t] == places[t];
    }
  }

  lemma TopIsRemovedAbove(segments: seq<JsString>, p: nat, j: nat)
    requires segments != [] && IsDotDot(segments[|segments| - 1])
    requires var front := segments[..|segments| - 1];
             var stack, places := SteppedAll([], front), Places(front);
             p < |stack| - 1 && |places| == |stack| && j == places[|places| - 1] && stack[p] != [] &&
             stack[|stack| - 1] == []
    ensures RemovedAbove(segments, j)
  {
    hide Kept, Places, SteppedAll;
    var front := segments[..|segments| - 1];
    var places := Places(front);
    StackOfPlaces(front);
    PlacesAreKept(front);
    KeptBelowTop(segments, j);
    KeptBelowTop(segments, places[p]);
    assert places[..|places| - 1][p] == places[p];
    assert forall q :: 0 <= q < |places| - 1 ==> places[..|places| - 1][q] == places[q] < j;
  }

  lemma StillRemovedAbove(segments: seq<JsString>, p: nat, j: nat)
    requires segments != [] && IsDotDot(segments[|segments| - 1]) && RemovedAbove(segments[..|segments| - 1], j)
    requires var stack := SteppedAll([], segments[..|segments| - 1]); p < |stack| - 1 && stack[p] != []
    ensures RemovedAbove(segments, j)
  {
    hide Kept, Places, SteppedAll;
    var front := segments[..|segments| - 1];
    var places := Places(front);
    StackOfPlaces(front);
    PlacesAreKept(front);
    KeptIsPlace(front, j);
    KeptBelowTop(segments, j);
    var i: nat :| i < j && Kept(front, i) && front[i] != [];
    KeptIsPlace(front, i);
    var q :| 0 <= q < |places| && places[q] == i;
    var low := if q < |places| - 1 then q else p;
    assert places[..|places| - 1][low] == places[low] && places[low] < j;
    KeptBelowTop(segments, places[low]);
  }

  lemma {:induction false} SpoiltIff(segments: seq<JsString>)
    ensures Spoilt(segments) <==> SomeRemovedAbove(segments)
  {
    hide Kept, RemovedAbove;
    if segments == [] {
      NothingRemoved();
    } else {
      SpoiltIff(segments[..|segments| - 1]);
      if IsDotDot(segments[|segments| - 1]) { DotsRemoveTop(segments); } else { OthersRemoveNothing(segments); }
    }
  }

  lemma NothingRemoved()
    ensures !SomeRemovedAbove([])
  {
  }

  /** On the stack: one empty segment alone, or none at the front and no two in a row. */
  lemma SingleIff(segments: seq<JsString>)
    requires NoDots(SteppedAll([], segments)) && NoSlashes(SteppedAll([], segments))
    ensures SteppedAll([], segments) == [[]] || Tidy(SteppedAll([], segments)) <==>
      (exists j: nat :: StaysAlone(segments, j)) || !exists j: nat :: StaysBare(segments, j)
  {
    hide Kept, Places, SteppedAll, StaysBare, StaysAlone;
    var stack := SteppedAll([], segments);
    BareIff(segments);
    if stack == [[]] { AloneOnStack(segments); }
    forall j: nat | StaysAlone(segments, j) ensures stack == [[]] {
      OnlyPlace(segments, j);
    }
    TidyIff(stack);
  }

  /** An empty segment at the front or behind another one. */
  predicate BareAt(stack: seq<JsString>, p: nat)
  {
    p < |stack| && stack[p] == [] && (p == 0 || stack[p - 1] == [])
  }

  lemma TidyIff(stack: seq<JsString>)
    requires NoDots(stack) && NoSlashes(stack)
    ensures Tidy(stack) <==> forall p: nat :: !BareAt(stack, p)
  {
    if forall p: nat :: !BareAt(stack, p) {
      assert !BareAt(stack, 0);
      forall i | 0 < i < |stack| ensures stack[i - 1] != [] || stack[i] != [] { assert !BareAt(stack, i); }
    }
  }

  lemma BareIff(segments: seq<JsString>)
    ensures (exists j: nat :: StaysBare(segments, j)) <==> exists p: nat :: BareAt(SteppedAll([], segments), p)
  {
    hide Kept, Places, SteppedAll;
    StackOfPlaces(segments);
    var places := Places(segments);
    forall j: nat | StaysBare(segments, j) ensures exists p: nat :: BareAt(SteppedAll([], segments), p) {
      KeptIsPlace(segments, j);
      var p: nat :| p < |places| && places[p] == j;
      BareOnStack(segments, p);
      assert BareAt(SteppedAll([], segments), p);
    }
    forall p: nat | BareAt(SteppedAll([], segments), p) ensures exists j: nat :: StaysBare(segments, j) {
      BareOnStack(segments, p);
      assert StaysBare(segments, places[p]);
    }
  }

  lemma BareOnStack(segments: seq<JsString>, p: nat)
    requires p < |Places(segments)|
    ensures var stack := SteppedAll([], segments);
            |stack| == |Places(segments)| &&
            (StaysBare(segments, Places(segments)[p]) <==> stack[p] == [] && (p == 0 || stack[p - 1] == []))
  {
    hide Kept, Places, SteppedAll;
    StackOfPlaces(segments);
    PlacesAreKept(segments);
    var places := Places(segments);
    var j := places[p];
    if p > 0 {
      assert Kept(segments, places[p - 1]);
      forall k: nat | places[p - 1] < k < j ensures !Kept(segments, k) {
        NothingBetween(segments, p, k);
      }
    }
    forall i: nat | i < j && Kept(segments, i) && !exists k :: i < k < j && Kept(segments, k)
      ensures p > 0 && i == places[p - 1]
    {
      var q :| 0 <= q < |places| && places[q] == i;
    }
  }

  lemma NothingBetween(segments: seq<JsString>, p: nat, k: nat)
    requires 0 < p < |Places(segments)| && Places(segments)[p - 1] < k < Places(segments)[p]
    ensures !Kept(segments, k)
  {
    hide Kept, Places;
    PlacesAreKept(segments);
    var places := Places(segments);
    assert forall q :: 0 <= q < p ==> places[q] <= places[p - 1];
    assert forall q :: p <= q < |places| ==> places[q] >= places[p];
    KeptIsPlace(segments, k);
  }

  lemma AloneOnStack(segments: seq<JsString>)
    requires SteppedAll([], segments) == [[]]
    ensures exists j: nat :: StaysAlone(segments, j)
  {
    hide Kept, Places, SteppedAll;
    StackOfPlaces(segments);
    PlacesAreKept(segments);
    var j := Places(segments)[0];
    assert StaysAlone(segments, j);
  }

  lemma OnlyPlace(segments: seq<JsString>, j: nat)
    requires StaysAlone(segments, j)
    ensures SteppedAll([], segments) == [[]]
  {
    hide Kept, Places, SteppedAll;
    StackOfPlaces(segments);
    PlacesAreKept(segments);
    var places := Places(segments);
    KeptIsPlace(segments, j);
    assert |places| > 1 ==> places[0] < places[1];
    forall p | 0 <= p < |places| ensures places[p] == j { assert Kept(segments, places[p]); }
  }

  /** The same, read off the segments of the path, with an empty one behind a final dot segment: each
      empty segment that stays stands right behind a text segment that stays, unless it stays alone, and
      none is removed while a text segment before it stays. */
  lemma AgreesIffOnSegments(path: JsString)
    requires HasLeadingSlash(path)
    ensures var segments := Closed(Inner(path));
            DotSegmentsRemoved(path) == Removed(path) <==>
              ((exists j: nat :: StaysAlone(segments, j)) || !exists j: nat :: StaysBare(segments, j)) &&
              !exists j: nat :: RemovedAbove(segments, j)
  {
    hide Rfc, Slashed, SteppedAll, AppliedAll, Stack, DotSegmentsRemoved, Removed, SingleSlashed, Spoilt, Segments;
    hide StaysAlone, StaysBare, RemovedAbove, Tidy;
    var closed := Closed(Inner(path));
    SegmentsHaveNoSlash(path[1..]);
    ClosedStack(Inner(path));
    AgreesIff(path);
    RemovedIsSlashed(path);
    SlashedSegments(SteppedAll([], closed));
    AllRelated(closed);
    SpoiltIff(closed);
    SingleIff(closed);
  }
}
