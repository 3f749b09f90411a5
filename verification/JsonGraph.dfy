/**
 `serializeCanonicalJson` of `src/base/serialization/canonical-json.ts` on object graphs: shared and
 cyclic values, prototypes, property descriptors and holes.  It prints exactly what unfolds to a
 finite tree, as it prints the tree.
 */
module JsonGraph {
  import opened Wrappers
  import opened Utf8
  import opened CodePointOrder
  import opened CanonicalJson

  /** A value that is no object. */
  type Primitive = j: Json | !j.Array? && !j.Object? witness Null

  datatype Value = Plain(json: Primitive) | Unsupported | Ref(id: nat)

  /** What `getOwnPropertyDescriptor` gives; `Special` is an accessor or not enumerable. */
  datatype Descriptor = Hole | Special | Data(value: Value)

  datatype Key = Symbol | Text(s: JsString)

  datatype Field = Field(key: Key, descriptor: Descriptor)

  /** `ordinary`: the prototype is the expected one; `otherKeys`: an array has keys besides its indices. */
  datatype Node =
    | ArrayNode(ordinary: bool, items: seq<Descriptor>, otherKeys: bool)
    | ObjectNode(ordinary: bool, fields: seq<Field>)

  /** The object that each number stands for. */
  type Graph = nat -> Node

  datatype Failure =
    | InTree(reason: Reason) | UnsupportedValue | CyclicValue | SparseArray
    | InvalidObjectPrototype | InvalidPropertyDescriptor

  // ---------------------------------------------------------------- the checks before printing

  function ItemFailure(d: Descriptor): Option<Failure>
  {
    match d
    case Hole => Some(SparseArray)
    case Special => Some(InvalidPropertyDescriptor)
    case Data(_) => None
  }

  function ItemsFailure(items: seq<Descriptor>): (f: Option<Failure>)
    ensures f.None? <==> forall i :: 0 <= i < |items| ==> items[i].Data?
  {
    if items == [] then None
    else if ItemFailure(items[0]).Some? then ItemFailure(items[0])
    else ItemsFailure(items[1..])
  }

  /** `validateCanonicalObjectKey` */
  function KeyFailure(k: Key): Option<Failure>
  {
    match k
    case Symbol => Some(InvalidPropertyDescriptor)
    case Text(s) => if WellFormed(s) then None else Some(InTree(InvalidUnicodeString))
  }

  function KeysFailure(fields: seq<Field>): (f: Option<Failure>)
    ensures f.None? <==> forall i :: 0 <= i < |fields| ==> KeyFailure(fields[i].key).None?
  {
    if fields == [] then None
    else if KeyFailure(fields[0].key).Some? then KeyFailure(fields[0].key)
    else KeysFailure(fields[1..])
  }

  predicate AllData(fields: seq<Field>) { forall i :: 0 <= i < |fields| ==> fields[i].descriptor.Data? }

  function NodeFailure(n: Node): Option<Failure>
  {
    if !n.ordinary then Some(InvalidObjectPrototype)
    else if n.ArrayNode? then
      if ItemsFailure(n.items).Some? then ItemsFailure(n.items)
      else if n.otherKeys then Some(InvalidPropertyDescriptor) else None
    else if KeysFailure(n.fields).Some? then KeysFailure(n.fields)
    else if !AllData(n.fields) then Some(InvalidPropertyDescriptor) else None
  }

  /** The values of an object that passes the checks, with their keys; an array's keys are empty. */
  function Entries(n: Node): (es: seq<Entry<Value>>)
    requires NodeFailure(n).None?
    ensures n.ArrayNode? ==> |es| == |n.items| && forall i :: 0 <= i < |es| ==> es[i] == Entry([], n.items[i].value)
    ensures n.ObjectNode? ==>
      |es| == |n.fields| && forall i :: 0 <= i < |es| ==>
        es[i] == Entry(n.fields[i].key.s, n.fields[i].descriptor.value)
  {
    if n.ArrayNode? then seq(|n.items|, i requires 0 <= i < |n.items| => Entry([], n.items[i].value))
    else seq(|n.fields|, i requires 0 <= i < |n.fields| => Entry(n.fields[i].key.s, n.fields[i].descriptor.value))
  }

  // ---------------------------------------------------------------- printing

  function Lifted(r: Result<JsString, Reason>): Result<JsString, Failure>
  {
    if r.Ok? then Ok(r.value) else Err(InTree(r.error))
  }

  /** The objects are visited in the order in which they are printed. */
  function Ordered(n: Node): (es: seq<Entry<Value>>)
    requires NodeFailure(n).None?
  {
    if n.ArrayNode? then Entries(n) else Sort(Entries(n))
  }

  function Part(n: Node, key: JsString, text: JsString): JsString { if n.ArrayNode? then text else Property(key, text) }

  function Wrapped(n: Node, parts: seq<JsString>): JsString
  {
    if n.ArrayNode? then [OPEN_BRACKET] + Join(parts) + [CLOSE_BRACKET] else [OPEN_BRACE] + Join(parts) + [CLOSE_BRACE]
  }

  /** `serializeValue` with the objects that are being printed around it. */
  function Printed(g: Graph, v: Value, active: set<nat>, depth: nat): Result<JsString, Failure>
    requires depth <= MAX_DEPTH + 1
    decreases MAX_DEPTH + 1 - depth, 1, 0
  {
    match v
    case Plain(j) => Lifted(Serialize(j, depth))
    case Unsupported => Err(UnsupportedValue)
    case Ref(id) =>
      if depth > MAX_DEPTH then Err(InTree(MaximumDepthExceeded))
      else if id in active then Err(CyclicValue)
      else if NodeFailure(g(id)).Some? then Err(NodeFailure(g(id)).value)
      else match PrintedParts(g, g(id), Ordered(g(id)), active + {id}, depth + 1)
        case Err(e) => Err(e)
        case Ok(parts) => Ok(Wrapped(g(id), parts))
  }

  function PrintedParts(g: Graph, n: Node, es: seq<Entry<Value>>, active: set<nat>,
                        depth: nat): (r: Result<seq<JsString>, Failure>)
    requires depth <= MAX_DEPTH + 1
    ensures r.Ok? ==> |r.value| == |es|
    decreases MAX_DEPTH + 1 - depth, 2, |es|
  {
    if es == [] then Ok([])
    else match Printed(g, es[0].value, active, depth)
      case Err(e) => Err(e)
      case Ok(text) =>
        match PrintedParts(g, n, es[1..], active, depth)
        case Err(e) => Err(e)
        case Ok(parts) => Ok([Part(n, es[0].key, text)] + parts)
  }

  // ---------------------------------------------------------------- the printer

  function Continued(front: seq<JsString>, r: Result<seq<JsString>, Failure>): Result<seq<JsString>, Failure>
  {
    match r
    case Err(e) => Err(e)
    case Ok(parts) => Ok(front + parts)
  }

  lemma ContinuedStep(front: seq<JsString>, part: JsString, r: Result<seq<JsString>, Failure>)
    ensures Continued([], r) == r
    ensures Continued(front, Continued([part], r)) == Continued(front + [part], r)
  {
    if r.Ok? {
      assert [] + r.value == r.value;
      assert front + ([part] + r.value) == (front + [part]) + r.value;
    }
  }

  class Printer {
    const graph: Graph
    var activeObjects: set<nat>

    constructor (graph: Graph)
      ensures this.graph == graph && activeObjects == {}
    {
      this.graph := graph;
      activeObjects := {};
    }

    /** `serializeValue`: the active objects are those of before when it returns. */
    method SerializeValue(v: Value, depth: nat) returns (r: Result<JsString, Failure>)
      requires depth <= MAX_DEPTH + 1
      modifies this
      ensures activeObjects == old(activeObjects) && r == Printed(graph, v, activeObjects, depth)
      decreases MAX_DEPTH + 1 - depth, 1
    {
      hide Serialize;
      match v
      case Plain(j) =>
        var printed := CanonicalJson.SerializeValue(j, depth);
        return Lifted(printed);
      case Unsupported => return Err(UnsupportedValue);
      case Ref(id) =>
        if depth > MAX_DEPTH {
          return Err(InTree(MaximumDepthExceeded));
        }
        if id in activeObjects {
          return Err(CyclicValue);
        }
        activeObjects := activeObjects + {id};
        r := SerializeNode(graph(id), depth);
        activeObjects := activeObjects - {id};
    }

    /** `serializeArray` and `serializeObject` */
    method SerializeNode(n: Node, depth: nat) returns (r: Result<JsString, Failure>)
      requires depth <= MAX_DEPTH
      modifies this
      ensures activeObjects == old(activeObjects)
      ensures NodeFailure(n).Some? ==> r == Err(NodeFailure(n).value)
      ensures NodeFailure(n).None? ==>
        r == match PrintedParts(graph, n, Ordered(n), activeObjects, depth + 1)
             case Err(e) => Err(e)
             case Ok(parts) => Ok(Wrapped(n, parts))
      decreases MAX_DEPTH + 1 - depth, 0
    {
      hide NodeFailure, Ordered, Printed, PrintedParts, Wrapped, Serialize;
      var failure := CheckNode(n);
      if failure.Some? {
        return Err(failure.value);
      }
      var parts := SerializeEntries(n, Ordered(n), depth + 1);
      return if parts.Err? then Err(parts.error) else Ok(Wrapped(n, parts.value));
    }

    /** The loop over the items, or over the sorted keys. */
    method SerializeEntries(n: Node, entries: seq<Entry<Value>>, depth: nat) returns (r: Result<seq<JsString>, Failure>)
      requires depth <= MAX_DEPTH + 1
      modifies this
      ensures activeObjects == old(activeObjects) && r == PrintedParts(graph, n, entries, activeObjects, depth)
      decreases MAX_DEPTH + 1 - depth, 2
    {
      hide Printed, Part;
      var parts: seq<JsString> := [];
      assert entries[0..] == entries;
      ContinuedStep([], [], PrintedParts(graph, n, entries, activeObjects, depth));
      for i := 0 to |entries|
        invariant activeObjects == old(activeObjects)
        invariant PrintedParts(graph, n, entries, activeObjects, depth)
               == Continued(parts, PrintedParts(graph, n, entries[i..], activeObjects, depth))
      {
        var item := SerializeValue(entries[i].value, depth);
        if item.Err? {
          return Err(item.error);
        }
        assert entries[i..][1..] == entries[i + 1..];
        var part := Part(n, entries[i].key, item.value);
        ContinuedStep(parts, part, PrintedParts(graph, n, entries[i + 1..], activeObjects, depth));
        parts := parts + [part];
      }
      assert parts + [] == parts;
      return Ok(parts);
    }
  }

  /** The loops over the items or the keys and descriptors, up to the first failure. */
  method CheckNode(n: Node) returns (failure: Option<Failure>)
    ensures failure == NodeFailure(n)
  {
    if !n.ordinary {
      return Some(InvalidObjectPrototype);
    }
    if n.ArrayNode? {
      for index := 0 to |n.items|
        invariant ItemsFailure(n.items) == ItemsFailure(n.items[index..])
      {
        if ItemFailure(n.items[index]).Some? {
          return ItemFailure(n.items[index]);
        }
        assert n.items[index..][1..] == n.items[index + 1..];
      }
      return if n.otherKeys then Some(InvalidPropertyDescriptor) else None;
    }
    for index := 0 to |n.fields|
      invariant KeysFailure(n.fields) == KeysFailure(n.fields[index..])
    {
      if KeyFailure(n.fields[index].key).Some? {
        return KeyFailure(n.fields[index].key);
      }
      assert n.fields[index..][1..] == n.fields[index + 1..];
    }
    for index := 0 to |n.fields|
      invariant forall j :: 0 <= j < index ==> n.fields[j].descriptor.Data?
    {
      if !n.fields[index].descriptor.Data? {
        return Some(InvalidPropertyDescriptor);
      }
    }
    return None;
  }

  // ---------------------------------------------------------------- unfolding to a tree

  /** The tree that a value stands for, if it is no higher than `n`: every reference is replaced by
      what it refers to. */
  function Unfolded(g: Graph, v: Value, n: nat): Option<Json>
    decreases n, 1, 0
  {
    match v
    case Plain(j) => Some(j)
    case Unsupported => None
    case Ref(id) =>
      if n == 0 || NodeFailure(g(id)).Some? then None
      else match UnfoldedAll(g, Entries(g(id)), n - 1)
        case None => None
        case Some(es) => Some(TreeOf(g(id), es))
  }

  function TreeOf(n: Node, es: seq<Entry<Json>>): Json
  {
    if n.ArrayNode? then Array(seq(|es|, i requires 0 <= i < |es| => es[i].value)) else Object(es)
  }

  function UnfoldedAll(g: Graph, es: seq<Entry<Value>>, n: nat): (r: Option<seq<Entry<Json>>>)
    ensures r.Some? ==> |r.value| == |es|
    decreases n, 2, |es|
  {
    if es == [] then Some([])
    else match Unfolded(g, es[0].value, n)
      case None => None
      case Some(t) =>
        match UnfoldedAll(g, es[1..], n)
        case None => None
        case Some(ts) => Some([Entry(es[0].key, t)] + ts)
  }

  lemma {:induction false} UnfoldedAt(g: Graph, es: seq<Entry<Value>>, n: nat)
    ensures UnfoldedAll(g, es, n).Some? <==> forall i :: 0 <= i < |es| ==> Unfolded(g, es[i].value, n).Some?
    ensures UnfoldedAll(g, es, n).Some? ==>
      forall i :: 0 <= i < |es| ==>
        UnfoldedAll(g, es, n).value[i] == Entry(es[i].key, Unfolded(g, es[i].value, n).value)
  {
    if es != [] {
      UnfoldedAt(g, es[1..], n);
      assert forall i :: 0 < i < |es| ==> es[i] == es[1..][i - 1];
    }
  }

  lemma {:induction false} PartsAt(g: Graph, n: Node, es: seq<Entry<Value>>, active: set<nat>, depth: nat)
    requires depth <= MAX_DEPTH + 1
    ensures PrintedParts(g, n, es, active, depth).Ok?
       <==> forall i :: 0 <= i < |es| ==> Printed(g, es[i].value, active, depth).Ok?
    ensures PrintedParts(g, n, es, active, depth).Ok? ==> forall i :: 0 <= i < |es| ==>
      PrintedParts(g, n, es, active, depth).value[i] == Part(n, es[i].key, Printed(g, es[i].value, active, depth).value)
  {
    hide Printed;
    if es != [] {
      PartsAt(g, n, es[1..], active, depth);
      assert forall i :: 0 < i < |es| ==> es[i] == es[1..][i - 1];
    }
  }

  /** More room for the height changes nothing. */
  lemma {:induction false} UnfoldedMore(g: Graph, v: Value, n: nat, m: nat)
    requires Unfolded(g, v, n).Some? && n <= m
    ensures Unfolded(g, v, m) == Unfolded(g, v, n)
    decreases n
  {
    hide UnfoldedAll, NodeFailure, Entries, TreeOf;
    if v.Ref? {
      var es := Entries(g(v.id));
      UnfoldedAt(g, es, n - 1);
      forall i | 0 <= i < |es| ensures Unfolded(g, es[i].value, m - 1) == Unfolded(g, es[i].value, n - 1) {
        UnfoldedMore(g, es[i].value, n - 1, m - 1);
      }
      UnfoldedAt(g, es, m - 1);
      assert UnfoldedAll(g, es, m - 1).value == UnfoldedAll(g, es, n - 1).value;
    }
  }

  // ---------------------------------------------------------------- sorting and unfolding

  function Mapped(es: seq<Entry<Value>>, f: Value -> Json): (r: seq<Entry<Json>>)
    ensures |r| == |es| && forall i :: 0 <= i < |es| ==> r[i] == Entry(es[i].key, f(es[i].value))
  {
    seq(|es|, i requires 0 <= i < |es| => Entry(es[i].key, f(es[i].value)))
  }

  lemma {:induction false} InsertMapped(e: Entry<Value>, es: seq<Entry<Value>>, f: Value -> Json)
    ensures Insert(Entry(e.key, f(e.value)), Mapped(es, f)) == Mapped(Insert(e, es), f)
  {
    hide Before, Mapped;
    if es == [] || Before(e.key, es[0].key) {
      MappedCons(e, es, f);
    } else {
      InsertMapped(e, es[1..], f);
      MappedCons(es[0], es[1..], f);
      MappedCons(es[0], Insert(e, es[1..]), f);
      assert [es[0]] + es[1..] == es;
      assert Mapped(es, f)[1..] == Mapped(es[1..], f);
    }
  }

  lemma MappedCons(e: Entry<Value>, es: seq<Entry<Value>>, f: Value -> Json)
    ensures Mapped([e] + es, f) == [Entry(e.key, f(e.value))] + Mapped(es, f)
  {
  }

  /** Sorting looks at the keys only. */
  lemma {:induction false} SortMapped(es: seq<Entry<Value>>, f: Value -> Json)
    ensures Sort(Mapped(es, f)) == Mapped(Sort(es), f)
  {
    if es == [] {
      assert Mapped(es, f) == [] && Mapped(Sort(es), f) == [];
    } else {
      SortMapped(es[1..], f);
      assert Mapped(es, f)[1..] == Mapped(es[1..], f);
      InsertMapped(es[0], Sort(es[1..]), f);
    }
  }

  function Tree(g: Graph, n: nat): Value -> Json
  {
    v => if Unfolded(g, v, n).Some? then Unfolded(g, v, n).value else Null
  }

  /** The trees of the printed entries, in the order of printing. */
  lemma OrderedTrees(g: Graph, node: Node, n: nat)
    requires NodeFailure(node).None? && UnfoldedAll(g, Entries(node), n).Some?
    ensures var ts := UnfoldedAll(g, Entries(node), n).value;
            Mapped(Ordered(node), Tree(g, n)) == InOrder(node, ts)
    ensures forall i :: 0 <= i < |Ordered(node)| ==> Unfolded(g, Ordered(node)[i].value, n).Some?
  {
    var es := Entries(node);
    UnfoldedAt(g, es, n);
    assert Mapped(es, Tree(g, n)) == UnfoldedAll(g, es, n).value;
    SortMapped(es, Tree(g, n));
    OrderedAreEntries(node);
  }

  /** Printing visits exactly the entries of an object. */
  lemma OrderedAreEntries(node: Node)
    requires NodeFailure(node).None?
    ensures forall i :: 0 <= i < |Ordered(node)| ==> Ordered(node)[i] in Entries(node)
    ensures forall i :: 0 <= i < |Entries(node)| ==> Entries(node)[i] in Ordered(node)
  {
    assert forall i :: 0 <= i < |Ordered(node)| ==> Ordered(node)[i] in Ordered(node);
  }

  // ---------------------------------------------------------------- trees print like graphs

  function InOrder(node: Node, ts: seq<Entry<Json>>): seq<Entry<Json>> { if node.ArrayNode? then ts else Sort(ts) }

  /** These are the printed parts of an array or an object, made from the texts of its trees. */
  ghost predicate AreParts(node: Node, order: seq<Entry<Json>>, depth: nat, parts: seq<JsString>)
  {
    |parts| == |order| &&
    forall i :: 0 <= i < |order| ==>
      Serialize(order[i].value, depth).Ok? &&
      parts[i] == Part(node, order[i].key, Serialize(order[i].value, depth).value)
  }

  lemma ArrayPartsIff(node: Node, ts: seq<Entry<Json>>, depth: nat, parts: seq<JsString>)
    requires node.ArrayNode? && depth <= MAX_DEPTH
    ensures AreParts(node, ts, depth + 1, parts) <==>
      SerializeItems(TreeOf(node, ts), TreeOf(node, ts).items, depth + 1) == Ok(parts)
  {
    hide Serialize;
    var t := TreeOf(node, ts);
    assert forall i :: 0 <= i < |ts| ==> t.items[i] == ts[i].value;
    if AreParts(node, ts, depth + 1, parts) {
      forall i | 0 <= i < |ts| ensures Serialize(t.items[i], depth + 1) == Ok(parts[i]) {
        assert Serialize(ts[i].value, depth + 1).Ok?;
      }
      ItemsFromParts(t, t.items, depth + 1, parts);
    } else if SerializeItems(t, t.items, depth + 1).Ok? {
      ItemParts(t, t.items, depth + 1);
      if SerializeItems(t, t.items, depth + 1).value == parts {
        forall i | 0 <= i < |ts| ensures Serialize(ts[i].value, depth + 1) == Ok(parts[i]) {
          assert Serialize(t.items[i], depth + 1) == Ok(parts[i]);
        }
      }
    }
  }

  lemma ObjectPartsIff(node: Node, ts: seq<Entry<Json>>, depth: nat, parts: seq<JsString>)
    requires node.ObjectNode? && depth <= MAX_DEPTH
    ensures forall i :: 0 <= i < |Sort(ts)| ==> Sort(ts)[i].value < TreeOf(node, ts)
    ensures AreParts(node, Sort(ts), depth + 1, parts)
       <==> SerializeFields(TreeOf(node, ts), Sort(ts), depth + 1) == Ok(parts)
  {
    hide Serialize, Sort;
    var t := TreeOf(node, ts);
    SerializedObject(t, ts, depth);
    if AreParts(node, Sort(ts), depth + 1, parts) {
      FieldsFromParts(t, Sort(ts), depth + 1, parts);
    } else if SerializeFields(t, Sort(ts), depth + 1).Ok? {
      FieldParts(t, Sort(ts), depth + 1);
    }
  }

  /** A tree has a text exactly when its parts have theirs. */
  lemma TreeFromParts(node: Node, ts: seq<Entry<Json>>, depth: nat, parts: seq<JsString>)
    requires depth <= MAX_DEPTH && (node.ObjectNode? ==> KeysWellFormed(ts))
    requires AreParts(node, InOrder(node, ts), depth + 1, parts)
    ensures Serialize(TreeOf(node, ts), depth) == Ok(Wrapped(node, parts))
  {
    hide Serialize, Sort, AreParts;
    var t := TreeOf(node, ts);
    if node.ArrayNode? {
      ArrayPartsIff(node, ts, depth, parts);
      SerializedArray(t, t.items, depth);
    } else {
      ObjectPartsIff(node, ts, depth, parts);
      SerializedObject(t, ts, depth);
    }
  }

  lemma PartsOfTree(node: Node, ts: seq<Entry<Json>>, depth: nat) returns (parts: seq<JsString>)
    requires Serialize(TreeOf(node, ts), depth).Ok?
    ensures depth <= MAX_DEPTH && Serialize(TreeOf(node, ts), depth) == Ok(Wrapped(node, parts))
    ensures AreParts(node, InOrder(node, ts), depth + 1, parts)
  {
    hide Serialize, Sort, AreParts;
    var t := TreeOf(node, ts);
    if node.ArrayNode? {
      SerializedArray(t, t.items, depth);
      parts := SerializeItems(t, t.items, depth + 1).value;
      ArrayPartsIff(node, ts, depth, parts);
    } else {
      SerializedObject(t, ts, depth);
      parts := SerializeFields(t, Sort(ts), depth + 1).value;
      ObjectPartsIff(node, ts, depth, parts);
    }
  }

  lemma KeysOfTrees(g: Graph, node: Node, n: nat)
    requires NodeFailure(node).None? && node.ObjectNode? && UnfoldedAll(g, Entries(node), n).Some?
    ensures KeysWellFormed(UnfoldedAll(g, Entries(node), n).value)
  {
    UnfoldedAt(g, Entries(node), n);
    assert forall i :: 0 <= i < |node.fields| ==> KeyFailure(node.fields[i].key).None?;
  }

  /** What is printed unfolds to a tree with the same text. */
  lemma {:induction false} PrintedUnfolds(g: Graph, v: Value, active: set<nat>, depth: nat)
    requires depth <= MAX_DEPTH + 1 && Printed(g, v, active, depth).Ok?
    ensures var n := MAX_DEPTH + 1 - depth;
            Unfolded(g, v, n).Some? &&
            Serialize(Unfolded(g, v, n).value, depth) == Ok(Printed(g, v, active, depth).value)
    decreases MAX_DEPTH + 1 - depth
  {
    hide Serialize, Entries, Ordered, UnfoldedAll, PrintedParts;
    if v.Ref? {
      var node, n := g(v.id), MAX_DEPTH - depth;
      var es, inside := Ordered(node), active + {v.id};
      PartsAt(g, node, es, inside, depth + 1);
      forall i | 0 <= i < |es| ensures SameText(g, es[i].value, n, inside, depth + 1) {
        PrintedUnfolds(g, es[i].value, inside, depth + 1);
      }
      NodeUnfolds(g, node, n, inside, depth, PrintedParts(g, node, es, inside, depth + 1).value);
    }
  }

  /** The value is printed, and unfolds to a tree with the same text. */
  ghost predicate SameText(g: Graph, v: Value, n: nat, active: set<nat>, depth: nat)
    requires depth <= MAX_DEPTH + 1
  {
    Printed(g, v, active, depth).Ok? && Unfolded(g, v, n).Some? &&
    Serialize(Unfolded(g, v, n).value, depth) == Ok(Printed(g, v, active, depth).value)
  }

  lemma NodeUnfolds(g: Graph, node: Node, n: nat, active: set<nat>, depth: nat, parts: seq<JsString>)
    requires depth <= MAX_DEPTH && NodeFailure(node).None?
    requires PrintedParts(g, node, Ordered(node), active, depth + 1) == Ok(parts)
    requires forall i :: 0 <= i < |Ordered(node)| ==> SameText(g, Ordered(node)[i].value, n, active, depth + 1)
    ensures UnfoldedAll(g, Entries(node), n).Some?
    ensures Serialize(TreeOf(node, UnfoldedAll(g, Entries(node), n).value), depth) == Ok(Wrapped(node, parts))
  {
    hide Serialize, Entries, Ordered, UnfoldedAll, PrintedParts, Printed, Unfolded, NodeFailure, TreeOf, Part, InOrder;
    var es := Ordered(node);
    PartsAt(g, node, es, active, depth + 1);
    EntriesUnfold(g, node, n);
    OrderedTrees(g, node, n);
    var ts := UnfoldedAll(g, Entries(node), n).value;
    if node.ObjectNode? { KeysOfTrees(g, node, n); }
    var order := Mapped(es, Tree(g, n));
    forall i | 0 <= i < |order|
      ensures Serialize(order[i].value, depth + 1).Ok?
      ensures parts[i] == Part(node, order[i].key, Serialize(order[i].value, depth + 1).value)
    {
      assert SameText(g, es[i].value, n, active, depth + 1);
    }
    TreeFromParts(node, ts, depth, parts);
  }

  lemma EntriesUnfold(g: Graph, node: Node, n: nat)
    requires NodeFailure(node).None? && forall i :: 0 <= i < |Ordered(node)| ==>
      Unfolded(g, Ordered(node)[i].value, n).Some?
    ensures UnfoldedAll(g, Entries(node), n).Some?
  {
    hide Ordered, Unfolded;
    OrderedAreEntries(node);
    UnfoldedAt(g, Entries(node), n);
  }

  // ---------------------------------------------------------------- paths and cycles

  /** Following these entry numbers leads from the value to the object. */
  predicate Leads(g: Graph, v: Value, path: seq<nat>, id: nat)
    decreases |path|
  {
    v.Ref? &&
    if path == [] then v.id == id
    else
      NodeFailure(g(v.id)).None? && path[0] < |Entries(g(v.id))| &&
      Leads(g, Entries(g(v.id))[path[0]].value, path[1..], id)
  }

  ghost predicate Reaches(g: Graph, v: Value, id: nat) { exists path :: Leads(g, v, path, id) }

  /** The value leads to an object that contains itself. */
  ghost predicate Cyclic(g: Graph, v: Value)
  {
    exists path, id, loop :: Leads(g, v, path, id) && loop != [] && Leads(g, Ref(id), loop, id)
  }

  lemma LeadsThrough(g: Graph, id: nat, k: nat, path: seq<nat>, to: nat)
    requires NodeFailure(g(id)).None? && k < |Entries(g(id))| && Leads(g, Entries(g(id))[k].value, path, to)
    ensures Leads(g, Ref(id), [k] + path, to) && Reaches(g, Ref(id), to)
  {
    assert ([k] + path)[0] == k && ([k] + path)[1..] == path;
    assert Leads(g, Ref(id), [k] + path, to);
  }

  lemma CyclicThrough(g: Graph, id: nat, k: nat)
    requires NodeFailure(g(id)).None? && k < |Entries(g(id))| && Cyclic(g, Entries(g(id))[k].value)
    ensures Cyclic(g, Ref(id))
  {
    var path, to, loop :| Leads(g, Entries(g(id))[k].value, path, to) && loop != [] && Leads(g, Ref(to), loop, to);
    LeadsThrough(g, id, k, path, to);
  }

  /** What a path leads to unfolds with as much less height as the path is long. */
  lemma {:induction false} ReachedUnfolds(g: Graph, v: Value, path: seq<nat>, id: nat, n: nat)
    requires Leads(g, v, path, id) && Unfolded(g, v, n).Some?
    ensures |path| <= n && Unfolded(g, Ref(id), n - |path|).Some?
    decreases |path|
  {
    hide UnfoldedAll, NodeFailure, Entries, TreeOf;
    if path != [] {
      var es := Entries(g(v.id));
      UnfoldedAt(g, es, n - 1);
      ReachedUnfolds(g, es[path[0]].value, path[1..], id, n - 1);
    }
  }

  lemma LeastHeight(g: Graph, v: Value, n: nat) returns (m: nat)
    requires Unfolded(g, v, n).Some?
    ensures m <= n && Unfolded(g, v, m).Some? && forall k :: 0 <= k < m ==> Unfolded(g, v, k).None?
  {
    hide Unfolded;
    m := 0;
    while Unfolded(g, v, m).None?
      invariant m <= n && forall k :: 0 <= k < m ==> Unfolded(g, v, k).None?
      decreases n - m
    {
      m := m + 1;
    }
  }

  /** What unfolds does not contain itself. */
  lemma NoLoop(g: Graph, id: nat, loop: seq<nat>, n: nat)
    requires Unfolded(g, Ref(id), n).Some? && Leads(g, Ref(id), loop, id)
    ensures loop == []
  {
    var m := LeastHeight(g, Ref(id), n);
    ReachedUnfolds(g, Ref(id), loop, id, m);
  }

  lemma UnfoldedIsAcyclic(g: Graph, v: Value, n: nat)
    requires Unfolded(g, v, n).Some?
    ensures !Cyclic(g, v)
  {
    hide Unfolded, Leads;
    forall path, id, loop | Leads(g, v, path, id) && Leads(g, Ref(id), loop, id) ensures loop == [] {
      ReachedUnfolds(g, v, path, id, n);
      NoLoop(g, id, loop, n - |path|);
    }
  }

  // ---------------------------------------------------------------- what unfolds is printed

  /** None of the objects around a value is reached from it. */
  ghost predicate Apart(g: Graph, v: Value, active: set<nat>) { forall id :: id in active ==> !Reaches(g, v, id) }

  lemma EntriesApart(g: Graph, id: nat, k: nat, active: set<nat>, n: nat)
    requires Unfolded(g, Ref(id), n).Some? && NodeFailure(g(id)).None? && k < |Entries(g(id))|
    requires Apart(g, Ref(id), active)
    ensures Apart(g, Entries(g(id))[k].value, active + {id})
  {
    hide Unfolded, Entries, Leads;
    var v := Entries(g(id))[k].value;
    forall path, o | o in active + {id} ensures !Leads(g, v, path, o) {
      if Leads(g, v, path, o) {
        LeadsThrough(g, id, k, path, o);
        if o == id { NoLoop(g, id, [k] + path, n); }
      }
    }
  }

  /** What unfolds to a tree with a text is printed with this text. */
  lemma {:induction false} UnfoldedPrints(g: Graph, v: Value, active: set<nat>, depth: nat, n: nat)
    requires depth <= MAX_DEPTH + 1 && Apart(g, v, active)
    requires Unfolded(g, v, n).Some? && Serialize(Unfolded(g, v, n).value, depth).Ok?
    ensures SameText(g, v, n, active, depth)
    decreases n
  {
    hide Serialize, Entries, Ordered, UnfoldedAll, Unfolded, Printed, PrintedParts, NodeFailure, Apart, AreParts,
         SameText;
    if v.Ref? {
      var node := g(v.id);
      var parts := NodeOfUnfolded(g, v.id, depth, n);
      var es, inside := Ordered(node), active + {v.id};
      OrderedTrees(g, node, n - 1);
      OrderedAreEntries(node);
      forall i | 0 <= i < |es| ensures SameText(g, es[i].value, n - 1, inside, depth + 1) {
        PartHasText(g, node, n - 1, depth, parts, i);
        var k :| 0 <= k < |Entries(node)| && Entries(node)[k] == es[i];
        EntriesApart(g, v.id, k, active, n);
        UnfoldedPrints(g, es[i].value, inside, depth + 1, n - 1);
      }
      NodePrints(g, v.id, n, active, depth);
    } else {
      PlainPrints(g, v, n, active, depth);
    }
  }

  lemma PlainPrints(g: Graph, v: Value, n: nat, active: set<nat>, depth: nat)
    requires depth <= MAX_DEPTH + 1 && !v.Ref? && Unfolded(g, v, n).Some?
    requires Serialize(Unfolded(g, v, n).value, depth).Ok?
    ensures SameText(g, v, n, active, depth)
  {
    hide Serialize;
  }

  /** What an object that unfolds to a tree with a text is made of. */
  lemma NodeOfUnfolded(g: Graph, id: nat, depth: nat, n: nat) returns (parts: seq<JsString>)
    requires Unfolded(g, Ref(id), n).Some? && Serialize(Unfolded(g, Ref(id), n).value, depth).Ok?
    ensures n > 0 && depth <= MAX_DEPTH && NodeFailure(g(id)).None? && UnfoldedAll(g, Entries(g(id)), n - 1).Some?
    ensures AreParts(g(id), InOrder(g(id), UnfoldedAll(g, Entries(g(id)), n - 1).value), depth + 1, parts)
  {
    hide Serialize, Entries, UnfoldedAll, NodeFailure, TreeOf, InOrder, AreParts;
    parts := PartsOfTree(g(id), UnfoldedAll(g, Entries(g(id)), n - 1).value, depth);
  }

  lemma ApartFromItself(g: Graph, id: nat, active: set<nat>)
    requires Apart(g, Ref(id), active)
    ensures id !in active
  {
    assert Leads(g, Ref(id), [], id);
  }

  lemma PartHasText(g: Graph, node: Node, n: nat, depth: nat, parts: seq<JsString>, i: nat)
    requires NodeFailure(node).None? && UnfoldedAll(g, Entries(node), n).Some? && i < |Ordered(node)|
    requires AreParts(node, InOrder(node, UnfoldedAll(g, Entries(node), n).value), depth + 1, parts)
    ensures Unfolded(g, Ordered(node)[i].value, n).Some?
    ensures Serialize(Unfolded(g, Ordered(node)[i].value, n).value, depth + 1).Ok?
  {
    hide Serialize, Entries, Ordered, UnfoldedAll, Unfolded, InOrder;
    OrderedTrees(g, node, n);
    var order := Mapped(Ordered(node), Tree(g, n));
    assert Serialize(order[i].value, depth + 1).Ok?;
  }

  lemma NodePrints(g: Graph, id: nat, n: nat, active: set<nat>, depth: nat)
    requires n > 0 && depth <= MAX_DEPTH && NodeFailure(g(id)).None? && Apart(g, Ref(id), active)
    requires forall i :: 0 <= i < |Ordered(g(id))| ==>
      SameText(g, Ordered(g(id))[i].value, n - 1, active + {id}, depth + 1)
    ensures SameText(g, Ref(id), n, active, depth)
  {
    hide Serialize, Entries, Ordered, UnfoldedAll, PrintedParts, NodeFailure, TreeOf, Apart;
    var node, inside := g(id), active + {id};
    ApartFromItself(g, id, active);
    PartsAt(g, node, Ordered(node), inside, depth + 1);
    assert forall i :: 0 <= i < |Ordered(node)| ==> SameText(g, Ordered(node)[i].value, n - 1, inside, depth + 1);
    NodeUnfolds(g, node, n - 1, inside, depth, PrintedParts(g, node, Ordered(node), inside, depth + 1).value);
  }

  // ---------------------------------------------------------------- the theorems

  /** An object graph has a text exactly when it unfolds to a finite tree that has this text: shared
      objects are printed once for each place, and cycles never. */
  lemma PrintsItsTree(g: Graph, v: Value, text: JsString)
    ensures Printed(g, v, {}, 0) == Ok(text)
       <==> exists n :: 0 <= n && Unfolded(g, v, n).Some? && Serialize(Unfolded(g, v, n).value, 0) == Ok(text)
  {
    hide Serialize, Printed, Unfolded;
    if Printed(g, v, {}, 0) == Ok(text) {
      PrintedUnfolds(g, v, {}, 0);
    }
    forall n: nat | Unfolded(g, v, n).Some? && Serialize(Unfolded(g, v, n).value, 0) == Ok(text)
      ensures Printed(g, v, {}, 0) == Ok(text)
    {
      UnfoldedPrints(g, v, {}, 0, n);
    }
  }

  /** A value that leads to a cycle is refused, and only such a value is refused as cyclic. */
  lemma CyclesAreRefused(g: Graph, v: Value)
    ensures Cyclic(g, v) ==> Printed(g, v, {}, 0).Err?
    ensures Printed(g, v, {}, 0) == Err(CyclicValue) ==> Cyclic(g, v)
  {
    hide Printed, Cyclic, Unfolded;
    if Printed(g, v, {}, 0).Ok? {
      PrintedUnfolds(g, v, {}, 0);
      UnfoldedIsAcyclic(g, v, MAX_DEPTH + 1);
    }
    if Printed(g, v, {}, 0) == Err(CyclicValue) { CyclicMeansCycle(g, v, {}, 0); }
  }

  /** `cyclic-value` means that the value leads to an object around it, or to a cycle of its own. */
  lemma {:induction false} CyclicMeansCycle(g: Graph, v: Value, active: set<nat>, depth: nat)
    requires depth <= MAX_DEPTH + 1 && Printed(g, v, active, depth) == Err(CyclicValue)
    ensures Cyclic(g, v) || exists id :: id in active && Reaches(g, v, id)
    decreases MAX_DEPTH + 1 - depth
  {
    hide Cyclic, Reaches, PrintedParts, Ordered, Entries;
    if v.Ref? {
      var node := g(v.id);
      if v.id in active {
        ReachesItself(g, v.id);
      } else if NodeFailure(node).Some? {
        NodeIsNotCyclic(node);
      } else {
        var i := FailedPart(g, node, Ordered(node), active + {v.id}, depth + 1, CyclicValue);
        OrderedAreEntries(node);
        var k :| 0 <= k < |Entries(node)| && Entries(node)[k] == Ordered(node)[i];
        CyclicMeansCycle(g, Entries(node)[k].value, active + {v.id}, depth + 1);
        CycleFromEntry(g, v.id, k, active);
      }
    }
  }

  lemma ReachesItself(g: Graph, id: nat)
    ensures Reaches(g, Ref(id), id)
  {
    assert Leads(g, Ref(id), [], id);
  }

  lemma NodeIsNotCyclic(n: Node)
    requires NodeFailure(n).Some?
    ensures NodeFailure(n).value != CyclicValue
  {
    if n.ArrayNode? { ItemsAreNotCyclic(n.items); } else { KeysAreNotCyclic(n.fields); }
  }

  lemma {:induction false} ItemsAreNotCyclic(items: seq<Descriptor>)
    ensures ItemsFailure(items) != Some(CyclicValue)
  {
    if items != [] { ItemsAreNotCyclic(items[1..]); }
  }

  lemma {:induction false} KeysAreNotCyclic(fields: seq<Field>)
    ensures KeysFailure(fields) != Some(CyclicValue)
  {
    if fields != [] { KeysAreNotCyclic(fields[1..]); }
  }

  lemma {:induction false} FailedPart(g: Graph, n: Node, es: seq<Entry<Value>>, active: set<nat>, depth: nat,
                                      e: Failure) returns (i: nat)
    requires depth <= MAX_DEPTH + 1 && PrintedParts(g, n, es, active, depth) == Err(e)
    ensures i < |es| && Printed(g, es[i].value, active, depth) == Err(e)
    decreases |es|
  {
    hide Printed;
    if Printed(g, es[0].value, active, depth).Err? {
      i := 0;
    } else {
      var j := FailedPart(g, n, es[1..], active, depth, e);
      i := j + 1;
    }
  }

  lemma CycleFromEntry(g: Graph, id: nat, k: nat, active: set<nat>)
    requires NodeFailure(g(id)).None? && k < |Entries(g(id))|
    requires var v := Entries(g(id))[k].value; Cyclic(g, v) || exists o :: o in active + {id} && Reaches(g, v, o)
    ensures Cyclic(g, Ref(id)) || exists o :: o in active && Reaches(g, Ref(id), o)
  {
    var v := Entries(g(id))[k].value;
    if Cyclic(g, v) {
      CyclicThrough(g, id, k);
    } else {
      var o :| o in active + {id} && Reaches(g, v, o);
      var path :| Leads(g, v, path, o);
      LeadsThrough(g, id, k, path, o);
    }
  }
}
