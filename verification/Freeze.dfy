/**
 The two traversals of cyclic object graphs: `deepFreeze` of `src/base/immutability/deep-freeze.ts`,
 which recurses, and `isDeepFrozenInertData` of `src/model/document-snapshot-cache.ts`, which keeps a
 worklist.
 */
module Freeze {
  datatype Value = Plain | Ref(node: Node)

  /** An own property; `value` is what reading it gives, `accessor` says that its descriptor has none. */
  datatype Property = Property(symbolKey: bool, isLength: bool, accessor: bool, enumerable: bool, value: Value)

  class Node {
    var frozen: bool
    var properties: seq<Property>
    const isArray: bool
  }

  /** A set of objects whose properties refer to objects of the set only. */
  ghost predicate Closed(graph: set<Node>)
    reads graph`properties
  {
    forall n, i :: n in graph && 0 <= i < |n.properties| && n.properties[i].value.Ref? ==>
      n.properties[i].value.node in graph
  }

  /** Following these property numbers leads from one object to the other. */
  ghost predicate Leads(graph: set<Node>, from: Node, path: seq<nat>, to: Node)
    requires Closed(graph) && from in graph
    reads graph`properties
    decreases |path|
  {
    if path == [] then from == to
    else
      path[0] < |from.properties| && from.properties[path[0]].value.Ref? &&
      Leads(graph, from.properties[path[0]].value.node, path[1..], to)
  }

  ghost predicate Reach(graph: set<Node>, from: Node, to: Node)
    requires Closed(graph) && from in graph
    reads graph`properties
  {
    exists path :: Leads(graph, from, path, to)
  }

  ghost predicate ChildrenIn(n: Node, s: set<Node>)
    reads n`properties
  {
    forall i :: 0 <= i < |n.properties| && n.properties[i].value.Ref? ==> n.properties[i].value.node in s
  }

  lemma ReachSelf(graph: set<Node>, n: Node)
    requires Closed(graph) && n in graph
    ensures Reach(graph, n, n)
  {
    assert Leads(graph, n, [], n);
  }

  lemma ReachThrough(graph: set<Node>, from: Node, i: nat, to: Node)
    requires Closed(graph) && from in graph && i < |from.properties| && from.properties[i].value.Ref?
    requires Reach(graph, from.properties[i].value.node, to)
    ensures Reach(graph, from, to)
  {
    var path :| Leads(graph, from.properties[i].value.node, path, to);
    assert ([i] + path)[1..] == path;
    assert Leads(graph, from, [i] + path, to);
  }

  lemma {:induction false} LeadsFurther(graph: set<Node>, from: Node, path: seq<nat>, to: Node, i: nat)
    requires Closed(graph) && from in graph && Leads(graph, from, path, to) && to in graph
    requires i < |to.properties| && to.properties[i].value.Ref?
    ensures Leads(graph, from, path + [i], to.properties[i].value.node)
    decreases |path|
  {
    if path == [] {
      assert [i][1..] == [];
    } else {
      assert (path + [i])[1..] == path[1..] + [i];
      LeadsFurther(graph, from.properties[path[0]].value.node, path[1..], to, i);
    }
  }

  lemma ReachFurther(graph: set<Node>, from: Node, to: Node, i: nat)
    requires Closed(graph) && from in graph && Reach(graph, from, to) && to in graph
    requires i < |to.properties| && to.properties[i].value.Ref?
    ensures Reach(graph, from, to.properties[i].value.node)
  {
    var path :| Leads(graph, from, path, to);
    LeadsFurther(graph, from, path, to, i);
  }

  /** A set that holds the children of each of its members holds everything reachable from them. */
  lemma {:induction false} StaysInside(graph: set<Node>, s: set<Node>, from: Node, path: seq<nat>, to: Node)
    requires Closed(graph) && from in graph && Leads(graph, from, path, to)
    requires from in s && forall n :: n in s ==> n in graph && ChildrenIn(n, s)
    ensures to in s
    decreases |path|
  {
    if path != [] {
      StaysInside(graph, s, from.properties[path[0]].value.node, path[1..], to);
    }
  }

  // ---------------------------------------------------------------- freezing

  class Freezer {
    var visited: set<Node>

    constructor ()
      ensures visited == {}
    {
      visited := {};
    }

    /** `freezeValue`: freezes what it newly visits, before returning, and nothing else. */
    method FreezeValue(value: Value, ghost graph: set<Node>)
      requires Closed(graph) && (value.Ref? ==> value.node in graph)
      modifies this, graph`frozen
      ensures old(visited) <= visited && visited - old(visited) <= graph
      ensures value.Ref? ==> value.node in visited
      ensures forall n :: n in visited - old(visited) ==>
        ChildrenIn(n, visited) && value.Ref? && Reach(graph, value.node, n)
      ensures forall n :: n in graph ==> n.frozen == (old(n.frozen) || n in visited - old(visited))
      decreases graph - visited
    {
      if value.Plain? || value.node in visited {
        return;
      }
      var node := value.node;
      ReachSelf(graph, node);
      visited := visited + {node};
      for key := 0 to |node.properties|
        invariant old(visited) + {node} <= visited && visited - old(visited) <= graph
        invariant forall i :: 0 <= i < key && node.properties[i].value.Ref? ==> node.properties[i].value.node in visited
        invariant forall n :: n in visited - old(visited) ==>
          (n == node || ChildrenIn(n, visited)) && Reach(graph, node, n)
        invariant forall n :: n in graph ==> n.frozen == (old(n.frozen) || n in visited - old(visited) - {node})
      {
        ghost var before := visited;
        FreezeValue(node.properties[key].value, graph);
        forall n | n in visited - before ensures Reach(graph, node, n) {
          ReachThrough(graph, node, key, n);
        }
      }
      node.frozen := true;
    }
  }

  /** `deepFreeze`: afterwards exactly the reachable objects, and those frozen before, are frozen. */
  method DeepFreeze(root: Node, ghost graph: set<Node>)
    requires Closed(graph) && root in graph
    modifies graph`frozen
    ensures forall n :: n in graph ==> n.frozen == (old(n.frozen) || Reach(graph, root, n))
  {
    var freezer := new Freezer();
    freezer.FreezeValue(Ref(root), graph);
    forall n | n in graph && Reach(graph, root, n) ensures n in freezer.visited {
      var path :| Leads(graph, root, path, n);
      StaysInside(graph, freezer.visited, root, path, n);
    }
  }

  // ---------------------------------------------------------------- inspecting

  /** `isInertDataDescriptor` */
  predicate IsInert(p: Property, ownerIsArray: bool)
  {
    !p.symbolKey && !p.accessor && (p.enumerable || (ownerIsArray && p.isLength))
  }

  ghost predicate InertObject(n: Node)
    reads n`properties
  {
    forall i :: 0 <= i < |n.properties| ==> IsInert(n.properties[i], n.isArray)
  }

  ghost predicate ChildrenSeen(n: Node, visited: set<Node>, pending: seq<Node>)
    reads n`properties
  {
    forall i :: 0 <= i < |n.properties| && n.properties[i].value.Ref? ==>
      n.properties[i].value.node in visited || n.properties[i].value.node in pending
  }

  /** One of the first `count` properties holds this object. */
  ghost predicate HoldsBefore(n: Node, count: nat, child: Node)
    requires count <= |n.properties|
    reads n`properties
  {
    exists i :: 0 <= i < count && n.properties[i].value == Ref(child)
  }

  /** The inner loop: every property is inert, and the objects they hold are put on the worklist. */
  method PushProperties(current: Node, pending: seq<Node>) returns (inert: bool, next: seq<Node>)
    ensures inert <==> InertObject(current)
    ensures inert ==> pending <= next && ChildrenSeen(current, {}, next)
    ensures inert ==> forall k :: |pending| <= k < |next| ==> HoldsBefore(current, |current.properties|, next[k])
  {
    next := pending;
    for key := 0 to |current.properties|
      invariant forall i :: 0 <= i < key ==> IsInert(current.properties[i], current.isArray)
      invariant pending <= next
      invariant forall i :: 0 <= i < key && current.properties[i].value.Ref? ==>
        current.properties[i].value.node in next
      invariant forall k :: |pending| <= k < |next| ==> HoldsBefore(current, key, next[k])
    {
      var property := current.properties[key];
      assert forall m :: m in next && HoldsBefore(current, key, m) ==> HoldsBefore(current, key + 1, m);
      if !IsInert(property, current.isArray) {
        assert !InertObject(current);
        return false, next;
      }
      if property.value.Ref? {
        next := next + [property.value.node];
      }
    }
    return true, next;
  }

  /** `isDeepFrozenInertData`: true exactly when every reachable object is frozen and inert. */
  method IsDeepFrozenInertData(root: Node, ghost graph: set<Node>) returns (r: bool)
    requires Closed(graph) && root in graph
    ensures r <==> forall n :: n in graph && Reach(graph, root, n) ==> n.frozen && InertObject(n)
  {
    var pending := [root];
    var visited: set<Node> := {};
    ReachSelf(graph, root);
    while pending != []
      invariant visited <= graph && (root in visited || root in pending)
      invariant forall k :: 0 <= k < |pending| ==> pending[k] in graph && Reach(graph, root, pending[k])
      invariant forall n :: n in visited ==> n.frozen && InertObject(n) && ChildrenSeen(n, visited, pending)
      decreases graph - visited, |pending|
    {
      var last := |pending| - 1;
      var current := pending[last];
      ghost var before := pending;
      pending := pending[..last];
      assert before == pending + [current];
      if current !in visited {
        if !current.frozen {
          return false;
        }
        ghost var rest := pending;
        assert forall j :: 0 <= j < |rest| ==> rest[j] == before[j];
        var inert;
        inert, pending := PushProperties(current, pending);
        if !inert {
          return false;
        }
        visited := visited + {current};
        assert rest <= pending && current in graph && Reach(graph, root, current);
        forall k | 0 <= k < |pending| ensures pending[k] in graph && Reach(graph, root, pending[k]) {
          PushedIsReached(graph, root, current, rest, pending, k);
        }
      }
    }
    forall n | n in graph && Reach(graph, root, n) ensures n in visited {
      var path :| Leads(graph, root, path, n);
      StaysInside(graph, visited, root, path, n);
    }
    return true;
  }

  lemma PushedIsReached(graph: set<Node>, root: Node, current: Node, rest: seq<Node>, pending: seq<Node>, k: nat)
    requires Closed(graph) && root in graph && current in graph && Reach(graph, root, current)
    requires rest <= pending && k < |pending|
    requires forall j :: 0 <= j < |rest| ==> rest[j] in graph && Reach(graph, root, rest[j])
    requires forall j :: |rest| <= j < |pending| ==> HoldsBefore(current, |current.properties|, pending[j])
    ensures pending[k] in graph && Reach(graph, root, pending[k])
  {
    if k < |rest| {
      assert pending[k] == rest[k];
    } else {
      var i :| 0 <= i < |current.properties| && current.properties[i].value == Ref(pending[k]);
      ReachFurther(graph, root, current, i);
    }
  }

  /** The two traversals agree: what was deeply frozen passes the inspection exactly when it is inert. */
  method FreezeAndInspect(root: Node, ghost graph: set<Node>) returns (passed: bool)
    requires Closed(graph) && root in graph
    modifies graph`frozen
    ensures passed <==> forall n :: n in graph && Reach(graph, root, n) ==> InertObject(n)
  {
    DeepFreeze(root, graph);
    passed := IsDeepFrozenInertData(root, graph);
  }
}
