/**
 `computeProposalGroupDependencyClosure` of `src/proposal/semantic-diff.ts`: a depth-first search over
 change groups with one set of groups being visited and one of groups already included.
 */
module DependencyClosure {
  import opened Wrappers
  import opened Utf8

  datatype Group = Group(id: JsString, dependsOn: seq<JsString>)

  type Graph = map<JsString, Group>

  datatype ClosureError = GroupNotFound(id: JsString) | DependencyNotFound(id: JsString) | DependencyCycle(id: JsString)

  // ---------------------------------------------------------------- reachability

  predicate Edge(g: Graph, x: JsString, y: JsString) { x in g && y in g[x].dependsOn }

  predicate Path(g: Graph, p: seq<JsString>)
  {
    p != [] && forall i :: 0 < i < |p| ==> Edge(g, p[i - 1], p[i])
  }

  ghost predicate Reach(g: Graph, x: JsString, y: JsString)
  {
    exists p :: Path(g, p) && p[0] == x && p[|p| - 1] == y
  }

  ghost predicate OnCycle(g: Graph, x: JsString)
  {
    exists p :: |p| > 1 && Path(g, p) && p[0] == x && p[|p| - 1] == x
  }

  ghost predicate Reachable(g: Graph, requested: seq<JsString>, y: JsString)
  {
    exists i :: 0 <= i < |requested| && Reach(g, requested[i], y)
  }

  /** Everything requested or reachable exists, and no reachable group is on a cycle. */
  ghost predicate WellFounded(g: Graph, requested: seq<JsString>)
  {
    (forall i :: 0 <= i < |requested| ==> requested[i] in g) &&
    forall y :: Reachable(g, requested, y) ==> y in g && !OnCycle(g, y)
  }

  ghost predicate Closed(g: Graph, s: set<JsString>)
  {
    forall x, y :: x in s && Edge(g, x, y) ==> y in s
  }

  lemma ReachSelf(g: Graph, x: JsString)
    ensures Reach(g, x, x)
  {
    assert Path(g, [x]);
  }

  lemma ReachEdge(g: Graph, x: JsString, y: JsString, z: JsString)
    requires Edge(g, x, y) && Reach(g, y, z)
    ensures Reach(g, x, z)
  {
    var p :| Path(g, p) && p[0] == y && p[|p| - 1] == z;
    var q := [x] + p;
    forall i | 0 < i < |q| ensures Edge(g, q[i - 1], q[i]) {
      if i > 1 { assert Edge(g, p[i - 2], p[i - 1]); }
    }
    assert Path(g, q);
  }

  lemma {:induction false} ClosedKeepsPaths(g: Graph, s: set<JsString>, p: seq<JsString>, i: nat)
    requires Closed(g, s) && Path(g, p) && i < |p| && p[0] in s
    ensures p[i] in s
  {
    if i > 0 {
      ClosedKeepsPaths(g, s, p, i - 1);
      assert Edge(g, p[i - 1], p[i]);
    }
  }

  lemma ClosedKeepsReach(g: Graph, s: set<JsString>, x: JsString, y: JsString)
    requires Closed(g, s) && x in s && Reach(g, x, y)
    ensures y in s
  {
    var p :| Path(g, p) && p[0] == x && p[|p| - 1] == y;
    ClosedKeepsPaths(g, s, p, |p| - 1);
  }

  /** A group whose dependencies lie in a closed set without it is on no cycle. */
  lemma NoCycleAbove(g: Graph, s: set<JsString>, x: JsString)
    requires Closed(g, s) && x !in s && forall y :: Edge(g, x, y) ==> y in s
    ensures !OnCycle(g, x)
  {
    if OnCycle(g, x) {
      var p :| |p| > 1 && Path(g, p) && p[0] == x && p[|p| - 1] == x;
      assert Edge(g, p[0], p[1]);
      var tail := p[1..];
      forall i | 0 < i < |tail| ensures Edge(g, tail[i - 1], tail[i]) { assert Edge(g, p[i], p[i + 1]); }
      ClosedKeepsPaths(g, s, tail, |tail| - 1);
    }
  }

  // ---------------------------------------------------------------- the search

  /** The groups on the way to the one being looked at, in order: a path of the graph. */
  ghost predicate Stack(g: Graph, stack: seq<JsString>, visiting: set<JsString>)
  {
    (forall i :: 0 <= i < |stack| ==> stack[i] in visiting) &&
    (forall x :: x in visiting ==> x in stack) &&
    forall i :: 0 < i < |stack| ==> Edge(g, stack[i - 1], stack[i])
  }

  lemma CycleOnStack(g: Graph, stack: seq<JsString>, visiting: set<JsString>, x: JsString)
    requires Stack(g, stack, visiting) && x in visiting && stack != [] && Edge(g, stack[|stack| - 1], x)
    ensures OnCycle(g, x)
  {
    var k :| 0 <= k < |stack| && stack[k] == x;
    var p := stack[k..] + [x];
    forall i | 0 < i < |p| ensures Edge(g, p[i - 1], p[i]) {
      if i < |p| - 1 { assert Edge(g, stack[k + i - 1], stack[k + i]); }
    }
    assert Path(g, p);
  }

  /** What the included set has at all times: it is closed, exists, and has no cycle. */
  ghost predicate Settled(g: Graph, included: set<JsString>)
  {
    Closed(g, included) && forall x :: x in included ==> x in g && !OnCycle(g, x)
  }

  ghost predicate Explains(g: Graph, from: JsString, e: ClosureError)
  {
    Reach(g, from, e.id) &&
    match e
    case GroupNotFound(_) => false
    case DependencyNotFound(id) => id !in g
    case DependencyCycle(id) => OnCycle(g, id)
  }

  class Search {
    const groupById: Graph
    var visiting: set<JsString>
    var included: set<JsString>

    constructor (groupById: Graph)
      ensures this.groupById == groupById && visiting == {} && included == {}
    {
      this.groupById := groupById;
      visiting, included := {}, {};
    }

    /** `includeDependencies` */
    method Include(groupId: JsString, ghost stack: seq<JsString>) returns (error: Option<ClosureError>)
      requires Settled(groupById, included) && visiting !! included && Stack(groupById, stack, visiting)
      requires stack != [] ==> Edge(groupById, stack[|stack| - 1], groupId)
      modifies this
      ensures error.None? ==>
        Settled(groupById, included) && visiting !! included && visiting == old(visiting) &&
        old(included) + {groupId} <= included &&
        forall x :: x in included - old(included) ==> Reach(groupById, groupId, x)
      ensures error.Some? ==> Explains(groupById, groupId, error.value)
      decreases groupById.Keys - visiting
    {
      ReachSelf(groupById, groupId);
      if groupId in included {
        return None;
      }
      if groupId in visiting {
        CycleOnStack(groupById, stack, visiting, groupId);
        return Some(DependencyCycle(groupId));
      }
      if groupId !in groupById {
        return Some(DependencyNotFound(groupId));
      }
      var dependsOn := groupById[groupId].dependsOn;
      visiting := visiting + {groupId};
      ghost var deeper := stack + [groupId];
      StackPush(groupById, stack, old(visiting), groupId);
      for i := 0 to |dependsOn|
        invariant visiting == old(visiting) + {groupId} && visiting !! included && Settled(groupById, included)
        invariant old(included) <= included && forall j :: 0 <= j < i ==> dependsOn[j] in included
        invariant forall x :: x in included - old(included) ==> Reach(groupById, groupId, x)
      {
        assert Edge(groupById, groupId, dependsOn[i]);
        ghost var before := included;
        error := Include(dependsOn[i], deeper);
        if error.Some? {
          ReachEdge(groupById, groupId, dependsOn[i], error.value.id);
          return;
        }
        forall x | x in included - before ensures Reach(groupById, groupId, x) {
          ReachEdge(groupById, groupId, dependsOn[i], x);
        }
      }
      SettledGrows(groupById, included, groupId);
      visiting := visiting - {groupId};
      included := included + {groupId};
      return None;
    }
  }

  lemma StackPush(g: Graph, stack: seq<JsString>, visiting: set<JsString>, x: JsString)
    requires Stack(g, stack, visiting) && (stack != [] ==> Edge(g, stack[|stack| - 1], x))
    ensures Stack(g, stack + [x], visiting + {x})
  {
  }

  lemma SettledGrows(g: Graph, included: set<JsString>, x: JsString)
    requires Settled(g, included) && x in g && x !in included
    requires forall j :: 0 <= j < |g[x].dependsOn| ==> g[x].dependsOn[j] in included
    ensures Settled(g, included + {x})
  {
    NoCycleAbove(g, included, x);
  }

  // ---------------------------------------------------------------- the closure

  function ById(groups: seq<Group>): Graph
  {
    if groups == [] then map[]
    else
      var last := groups[|groups| - 1];
      ById(groups[..|groups| - 1])[last.id := last]
  }

  /** `new Map(groups.map(...))`: of two groups with one id the later wins. */
  method GroupById(groups: seq<Group>) returns (groupById: Graph)
    ensures groupById == ById(groups)
  {
    groupById := map[];
    for i := 0 to |groups|
      invariant groupById == ById(groups[..i])
    {
      assert groups[..i + 1][..i] == groups[..i];
      groupById := groupById[groups[i].id := groups[i]];
    }
    assert groups[..|groups|] == groups;
  }

  /** The ids of the groups in a set, in the order of the groups. */
  function IdsIn(groups: seq<Group>, s: set<JsString>): seq<JsString>
  {
    if groups == [] then []
    else
      var last := groups[|groups| - 1].id;
      IdsIn(groups[..|groups| - 1], s) + if last in s then [last] else []
  }

  method FilterIds(groups: seq<Group>, s: set<JsString>) returns (ids: seq<JsString>)
    ensures ids == IdsIn(groups, s)
  {
    ids := [];
    for i := 0 to |groups|
      invariant ids == IdsIn(groups[..i], s)
    {
      assert groups[..i + 1][..i] == groups[..i];
      if groups[i].id in s {
        ids := ids + [groups[i].id];
      }
    }
    assert groups[..|groups|] == groups;
  }

  ghost predicate IsReachableSet(g: Graph, requested: seq<JsString>, s: set<JsString>)
  {
    forall x :: x in s <==> Reachable(g, requested, x)
  }

  /** What an error says: the first requested group that is missing, a reachable id that is missing,
      or a reachable group on a cycle. */
  ghost predicate ErrorHolds(g: Graph, requested: seq<JsString>, e: ClosureError)
  {
    match e
    case GroupNotFound(id) =>
      id !in g && exists i :: 0 <= i < |requested| && requested[i] == id && forall j :: 0 <= j < i ==> requested[j] in g
    case DependencyNotFound(id) => id !in g && Reachable(g, requested, id)
    case DependencyCycle(id) => OnCycle(g, id) && Reachable(g, requested, id)
  }

  /** The closure exists exactly when the requested part of the graph is well founded; it is then the
      reachable groups in their original order, and otherwise the error names a real fault. */
  method ComputeClosure(groups: seq<Group>, requested: seq<JsString>) returns (r: Result<seq<JsString>, ClosureError>)
    ensures r.Ok? <==> WellFounded(ById(groups), requested)
    ensures r.Ok? ==> exists s :: IsReachableSet(ById(groups), requested, s) && r.value == IdsIn(groups, s)
    ensures r.Err? ==> ErrorHolds(ById(groups), requested, r.error)
  {
    var groupById := GroupById(groups);
    for i := 0 to |requested|
      invariant forall j :: 0 <= j < i ==> requested[j] in groupById
    {
      if requested[i] !in groupById {
        return Err(GroupNotFound(requested[i]));
      }
    }
    var search := new Search(groupById);
    for i := 0 to |requested|
      invariant search.groupById == groupById && search.visiting == {} && Settled(groupById, search.included)
      invariant forall j :: 0 <= j < i ==> requested[j] in search.included
      invariant forall x :: x in search.included ==> Reachable(groupById, requested, x)
    {
      ghost var before := search.included;
      var error := search.Include(requested[i], []);
      if error.Some? {
        assert Reachable(groupById, requested, error.value.id);
        return Err(error.value);
      }
      forall x | x in search.included - before ensures Reachable(groupById, requested, x) {
        assert Reach(groupById, requested[i], x);
      }
    }
    IncludedIsReachable(groupById, requested, search.included);
    var ids := FilterIds(groups, search.included);
    return Ok(ids);
  }

  lemma IncludedIsReachable(g: Graph, requested: seq<JsString>, included: set<JsString>)
    requires Settled(g, included) && forall j :: 0 <= j < |requested| ==> requested[j] in included
    requires forall x :: x in included ==> Reachable(g, requested, x)
    ensures IsReachableSet(g, requested, included) && WellFounded(g, requested)
  {
    forall y | Reachable(g, requested, y) ensures y in included {
      var i :| 0 <= i < |requested| && Reach(g, requested[i], y);
      ClosedKeepsReach(g, included, requested[i], y);
    }
  }

  // ---------------------------------------------------------------- the result, with distinct ids

  ghost predicate DistinctIds(groups: seq<Group>)
  {
    forall i, j :: 0 <= i < j < |groups| ==> groups[i].id != groups[j].id
  }

  /** With distinct ids every group of the set appears exactly once, at its rank among them. */
  lemma {:induction false} IdsInOrder(groups: seq<Group>, s: set<JsString>, i: nat)
    requires DistinctIds(groups) && i < |groups|
    ensures groups[i].id in s <==> groups[i].id in IdsIn(groups, s)
    ensures groups[i].id in s ==>
      |IdsIn(groups[..i], s)| < |IdsIn(groups, s)| && IdsIn(groups, s)[|IdsIn(groups[..i], s)|] == groups[i].id
  {
    var n := |groups| - 1;
    if i < n {
      assert groups[..n][..i] == groups[..i];
      IdsInOrder(groups[..n], s, i);
    } else {
      OnlyFromGroups(groups[..n], s, groups[n].id);
    }
  }

  lemma {:induction false} OnlyFromGroups(groups: seq<Group>, s: set<JsString>, id: JsString)
    requires forall i :: 0 <= i < |groups| ==> groups[i].id != id
    ensures id !in IdsIn(groups, s)
  {
    if groups != [] {
      OnlyFromGroups(groups[..|groups| - 1], s, id);
    }
  }
}
