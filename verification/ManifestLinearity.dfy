/**
 Any number of snapshot commits, stopped and resumed at every await, together with any other storage
 traffic and crashes: how the manifest of a document may change.
 */
module ManifestLinearity {
  import opened Wrappers
  import opened Utf8
  import opened DurableStorage
  import opened SnapshotStore

  datatype Process = Process(input: Input, pc: Pc)

  datatype World = World(store: Store, commits: seq<Process>)

  datatype Action =
    | Starts(input: Input)
    | Continues(k: nat, gate: Gate)
    | Crashes
    | Otherwise(gate: Gate, op: Op)

  function Acted(x: Env, w: World, action: Action): World
  {
    match action
    case Starts(i) => World(w.store, w.commits + [Process(i, Begun(x, i))])
    case Continues(k, gate) =>
      if k >= |w.commits| then w
      else
        var p := w.commits[k];
        var next := Advanced(x, w.store, p.input, p.pc, gate);
        World(next.store, w.commits[k := Process(p.input, next.pc)])
    case Crashes => World(Crashed(w.store), w.commits)
    case Otherwise(gate, op) => World(Step(w.store, gate, op), w.commits)
  }

  function After(x: Env, actions: seq<Action>): World
  {
    if actions == [] then World(EMPTY_STORE, [])
    else Acted(x, After(x, actions[..|actions| - 1]), actions[|actions| - 1])
  }

  /** Manifests are switched by commits and by nothing else; other operations are free. */
  predicate LeavesManifests(action: Action) { action.Otherwise? ==> !action.op.SwitchManifest? }

  ghost predicate OnlyCommitsSwitch(actions: seq<Action>)
  {
    forall i :: 0 <= i < |actions| ==> LeavesManifests(actions[i])
  }

  // ---------------------------------------------------------------- how a manifest may change

  function Current(st: Store, uri: JsString): Option<Manifest>
  {
    if uri in st.manifests then Some(st.manifests[uri]) else None
  }

  /** `later` may follow `earlier`: the generation and the sequence never fall, the same generation
      is the same manifest, and the same sequence is the same revision. */
  predicate Precedes(earlier: Option<Manifest>, later: Option<Manifest>)
  {
    Generation(earlier) <= Generation(later) &&
    (Generation(earlier) == Generation(later) ==> earlier == later) &&
    (earlier.Some? ==>
      later.Some? && earlier.value.draft.sequence <= later.value.draft.sequence &&
      (earlier.value.draft.sequence == later.value.draft.sequence ==>
        SameIdentity(RevisionOf(earlier.value.draft), RevisionOf(later.value.draft))))
  }

  lemma PrecedesTransitive(x: Option<Manifest>, y: Option<Manifest>, z: Option<Manifest>)
    requires Precedes(x, y) && Precedes(y, z)
    ensures Precedes(x, z)
  {
  }

  /** Snapshots are never removed, and every document's manifest moves forward. */
  ghost predicate Grows(st: Store, st': Store)
  {
    st.snapshots.Keys <= st'.snapshots.Keys && forall uri :: Precedes(Current(st, uri), Current(st', uri))
  }

  lemma GrowsTransitive(st: Store, st': Store, st'': Store)
    requires Grows(st, st') && Grows(st', st'')
    ensures Grows(st, st'')
  {
    forall uri ensures Precedes(Current(st, uri), Current(st'', uri)) {
      PrecedesTransitive(Current(st, uri), Current(st', uri), Current(st'', uri));
    }
  }

  // ---------------------------------------------------------------- the invariant

  /** What a commit knows at each await: between reading the manifest and switching it, others may
      have switched it, but only forward. */
  ghost predicate Ordered(x: Env, st: Store, p: Process)
  {
    var i := p.input;
    (p.pc.Done? || ValidInput(x, i)) &&
    match p.pc
    case Switching(seen) =>
      (seen.Some? ==> Normal(x, seen.value, i.fence.uri)) &&
      MayAdvance(seen, i.revision) && Precedes(seen, Current(st, i.fence.uri))
    case Done(Ok(m)) => m.draft == DraftOf(i.revision) && Precedes(Some(m), Current(st, i.fence.uri))
    case _ => true
  }

  ghost predicate AllOrdered(x: Env, w: World)
  {
    forall k :: 0 <= k < |w.commits| ==> Ordered(x, w.store, w.commits[k])
  }

  lemma StaysOrdered(x: Env, st: Store, st': Store, p: Process)
    requires Ordered(x, st, p) && Grows(st, st')
    ensures Ordered(x, st', p)
  {
    var uri := p.input.fence.uri;
    if p.pc.Switching? {
      PrecedesTransitive(p.pc.seen, Current(st, uri), Current(st', uri));
    } else if p.pc.Done? && p.pc.reply.Ok? {
      PrecedesTransitive(Some(p.pc.reply.value), Current(st, uri), Current(st', uri));
    }
  }

  /** A switch either changes nothing, or raises the generation of its document by exactly one and
      reports the manifest it wrote, which follows the manifest that the commit had read. */
  lemma SwitchReplies(x: Env, st: Store, i: Input, seen: Option<Manifest>, gate: Gate)
    requires Ordered(x, st, Process(i, Switching(seen)))
    ensures var next := Advanced(x, st, i, Switching(seen), gate);
            next.pc.Done? &&
            if next.pc.reply.Ok? then
              next.store == st.(manifests := st.manifests[i.fence.uri := next.pc.reply.value]) &&
              next.pc.reply.value == Manifest(DraftOf(i.revision), GenerationOf(st, i.fence.uri) + 1) &&
              Current(st, i.fence.uri) == seen && Normal(x, next.pc.reply.value, i.fence.uri)
            else next.store == st
  {
  }

  lemma AwaitGrows(x: Env, st: Store, i: Input, pc: Pc, gate: Gate)
    requires Ordered(x, st, Process(i, pc))
    ensures Grows(st, Advanced(x, st, i, pc, gate).store)
    ensures Ordered(x, Advanced(x, st, i, pc, gate).store, Process(i, Advanced(x, st, i, pc, gate).pc))
  {
    if pc.Switching? { SwitchGrows(x, st, i, pc.seen, gate); } else { QuietAwait(x, st, i, pc, gate); }
  }

  lemma SwitchGrows(x: Env, st: Store, i: Input, seen: Option<Manifest>, gate: Gate)
    requires Ordered(x, st, Process(i, Switching(seen)))
    ensures var next := Advanced(x, st, i, Switching(seen), gate);
            Grows(st, next.store) && Ordered(x, next.store, Process(i, next.pc))
  {
    hide Advanced, Normal, ValidInput;
    SwitchReplies(x, st, i, seen, gate);
  }

  lemma QuietAwait(x: Env, st: Store, i: Input, pc: Pc, gate: Gate)
    requires Ordered(x, st, Process(i, pc)) && !pc.Switching?
    ensures var next := Advanced(x, st, i, pc, gate);
            next.store.manifests == st.manifests && Grows(st, next.store) && Ordered(x, next.store, Process(i, next.pc))
  {
    hide Normal;
  }

  lemma ActionGrows(x: Env, w: World, action: Action)
    requires AllOrdered(x, w) && LeavesManifests(action)
    ensures Grows(w.store, Acted(x, w, action).store) && AllOrdered(x, Acted(x, w, action))
  {
    var next := Acted(x, w, action);
    StoreGrows(x, w, action);
    hide Advanced, Grows, Precedes, Step, Crashed;
    forall k | 0 <= k < |next.commits| ensures Ordered(x, next.store, next.commits[k]) {
      if k < |w.commits| && next.commits[k] == w.commits[k] {
        StaysOrdered(x, w.store, next.store, w.commits[k]);
      }
    }
  }

  lemma StoreGrows(x: Env, w: World, action: Action)
    requires AllOrdered(x, w) && LeavesManifests(action)
    ensures Grows(w.store, Acted(x, w, action).store)
    ensures action.Continues? && action.k < |w.commits| ==>
      Ordered(x, Acted(x, w, action).store, Acted(x, w, action).commits[action.k])
    ensures action.Starts? ==> Ordered(x, w.store, Process(action.input, Begun(x, action.input)))
  {
    hide Advanced, Ordered, Precedes;
    match action
    case Continues(k, gate) =>
      if k < |w.commits| {
        AwaitGrows(x, w.store, w.commits[k].input, w.commits[k].pc, gate);
      } else {
        SameManifestsGrow(w.store, w.store);
      }
    case Starts(i) =>
      BegunIsOrdered(x, w.store, i);
      SameManifestsGrow(w.store, w.store);
    case _ => SameManifestsGrow(w.store, Acted(x, w, action).store);
  }

  lemma SameManifestsGrow(st: Store, st': Store)
    requires st'.manifests == st.manifests && st.snapshots.Keys <= st'.snapshots.Keys
    ensures Grows(st, st')
  {
  }

  lemma BegunIsOrdered(x: Env, st: Store, i: Input)
    ensures Ordered(x, st, Process(i, Begun(x, i)))
  {
  }

  lemma {:induction false} RunIsOrdered(x: Env, actions: seq<Action>)
    requires OnlyCommitsSwitch(actions)
    ensures AllOrdered(x, After(x, actions))
  {
    if actions != [] {
      RunIsOrdered(x, actions[..|actions| - 1]);
      ActionGrows(x, After(x, actions[..|actions| - 1]), actions[|actions| - 1]);
    }
  }

  // ---------------------------------------------------------------- the theorems

  /** From any moment of a run to any later one, every document's manifest only moves forward:
      generations and sequences never fall, and one sequence is always the same revision. */
  lemma {:induction false} ManifestsAreLinear(x: Env, actions: seq<Action>, n: nat)
    requires OnlyCommitsSwitch(actions) && n <= |actions|
    ensures Grows(After(x, actions[..n]).store, After(x, actions).store)
  {
    if n == |actions| {
      assert actions[..n] == actions;
    } else {
      var front := actions[..|actions| - 1];
      ManifestsAreLinear(x, front, n);
      assert front[..n] == actions[..n];
      RunIsOrdered(x, front);
      ActionGrows(x, After(x, front), actions[|actions| - 1]);
      GrowsTransitive(After(x, actions[..n]).store, After(x, front).store, After(x, actions).store);
    }
  }

  /** This commit has just switched the manifest of this document, raising its generation by one. */
  predicate JustSwitched(before: World, after: World, k: nat, uri: JsString)
  {
    k < |before.commits| == |after.commits| && before.commits[k].pc.Switching? &&
    before.commits[k].input.fence.uri == uri && after.commits[k].pc.Done? && after.commits[k].pc.reply.Ok? &&
    Current(after.store, uri) == Some(after.commits[k].pc.reply.value) &&
    after.commits[k].pc.reply.value
      == Manifest(DraftOf(before.commits[k].input.revision), GenerationOf(before.store, uri) + 1)
  }

  /** One action changes at most one manifest, by a switch of the commit that took it. */
  lemma GenerationsRiseByOne(x: Env, actions: seq<Action>, action: Action, uri: JsString)
    requires OnlyCommitsSwitch(actions) && LeavesManifests(action)
    ensures var before := After(x, actions);
            var after := Acted(x, before, action);
            Current(after.store, uri) == Current(before.store, uri) ||
            (action.Continues? && JustSwitched(before, after, action.k, uri))
  {
    RunIsOrdered(x, actions);
    ActionChangesManifest(x, After(x, actions), action, uri);
  }

  lemma ActionChangesManifest(x: Env, w: World, action: Action, uri: JsString)
    requires AllOrdered(x, w) && LeavesManifests(action)
    ensures var after := Acted(x, w, action);
            Current(after.store, uri) == Current(w.store, uri) ||
            (action.Continues? && JustSwitched(w, after, action.k, uri))
  {
    if action.Continues? && action.k < |w.commits| {
      var p := w.commits[action.k];
      if p.pc.Switching? {
        SwitchReplies(x, w.store, p.input, p.pc.seen, action.gate);
      }
    }
  }

  /** A commit that reported success is never undone: later manifests are at least as new. */
  lemma CommittedStays(x: Env, actions: seq<Action>, k: nat)
    requires OnlyCommitsSwitch(actions)
    requires k < |After(x, actions).commits| && After(x, actions).commits[k].pc.Done?
    requires After(x, actions).commits[k].pc.reply.Ok?
    ensures var p := After(x, actions).commits[k];
            p.pc.reply.value.draft == DraftOf(p.input.revision) &&
            Precedes(Some(p.pc.reply.value), Current(After(x, actions).store, p.input.fence.uri))
  {
    RunIsOrdered(x, actions);
  }
}
