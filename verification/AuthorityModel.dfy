/**
 The head tracking of `AuthorityBackedNirecoModel` in `src/workspace/authority-backed-model.ts`: a queue
 of state tasks, run one after the other, that install commit results and refresh the head.

 The queue is the promise chain of `#enqueueStateTask`.  A refresh reads the authority's head in one
 await, so the authority may move on between its answer and the rest of the task.
 */
module AuthorityModel {
  import opened Wrappers
  import opened Utf8

  datatype Snapshot = Snapshot(revisionId: JsString, schemaId: JsString, content: JsString)

  /** A queued task; only the first of the queue can be a refresh that has begun. */
  datatype Task =
    | Install(baseRevisionId: JsString, snapshot: Snapshot)
    | Refresh
    | Reading(answer: Option<JsString>)

  datatype Model = Model(
    schemaId: JsString,
    headRevisionId: JsString,
    snapshots: map<JsString, Snapshot>,
    queue: seq<Task>,
    reconciliations: nat,
    isDisposed: bool,
    isFinished: bool)

  // ---------------------------------------------------------------- the atomic sections

  function Opened(initial: Snapshot): Model
  {
    Model(initial.schemaId, initial.revisionId, map[initial.revisionId := initial], [], 0, false, false)
  }

  function Enqueued(m: Model, t: Task): Model { m.(queue := m.queue + [t]) }

  function Dequeued(m: Model): Model
    requires m.queue != []
  {
    m.(queue := m.queue[1..])
  }

  /** `#queueAuthorityRefresh` */
  function RefreshQueued(m: Model): Model { Enqueued(m, Refresh) }

  /** A notification, or `synchronizeWithAuthority`: disposal ends the subscription and refuses the other. */
  function Notified(m: Model): Model { if m.isDisposed then m else RefreshQueued(m) }

  /** `#installCommitResult`, and whether the apply that queued it asks for a reconciliation. */
  function CommitInstalled(m: Model, base: JsString, s: Snapshot): Model
  {
    if m.isDisposed then m
    else
      var known := m.(snapshots := m.snapshots[s.revisionId := s]);
      if m.headRevisionId == base || m.headRevisionId == s.revisionId then known.(headRevisionId := s.revisionId)
      else known.(reconciliations := m.reconciliations + 1)
  }

  /** `#scheduleAuthorityReconciliation` */
  function Reconciled(m: Model): Model
  {
    if m.reconciliations == 0 then m else Notified(m.(reconciliations := m.reconciliations - 1))
  }

  /** The end of `#refreshFromAuthority`: `reply` is the snapshot of the answered head, if it is valid. */
  function HeadInstalled(m: Model, head: JsString, reply: Option<Snapshot>): Model
  {
    if m.isDisposed || reply.None? || reply.value.revisionId != head || reply.value.schemaId != m.schemaId then m
    else m.(snapshots := m.snapshots[head := reply.value], headRevisionId := head)
  }

  function Closed(m: Model): Model { m.(isDisposed := true) }

  /** `#finishDispose`, once the refresh chain it awaits has run empty */
  function Finished(m: Model): Model
  {
    if m.isDisposed && m.queue == [] then m.(snapshots := map[], isFinished := true) else m
  }

  // ---------------------------------------------------------------- the object

  class AuthorityBackedNirecoModel {
    const schemaId: JsString
    var headRevisionId: JsString
    var snapshots: map<JsString, Snapshot>
    var stateTasks: seq<Task>
    var reconciliations: nat
    var isDisposed: bool
    var isFinished: bool

    ghost function Now(): Model
      reads this
    {
      Model(schemaId, headRevisionId, snapshots, stateTasks, reconciliations, isDisposed, isFinished)
    }

    constructor (initial: Snapshot)
      ensures Now() == Opened(initial)
    {
      schemaId, headRevisionId := initial.schemaId, initial.revisionId;
      snapshots := map[initial.revisionId := initial];
      stateTasks, reconciliations, isDisposed, isFinished := [], 0, false, false;
    }

    method GetSnapshot(revisionId: JsString) returns (r: Option<Snapshot>)
      ensures r.Some? <==> !isDisposed && revisionId in snapshots
      ensures r.Some? ==> r.value == snapshots[revisionId]
    {
      if isDisposed || revisionId !in snapshots {
        return None;
      }
      return Some(snapshots[revisionId]);
    }

    method EnqueueStateTask(task: Task)
      modifies this
      ensures Now() == Enqueued(old(Now()), task)
      ensures stateTasks == old(stateTasks) + [task] && snapshots == old(snapshots)
    {
      stateTasks := stateTasks + [task];
    }

    method QueueAuthorityRefresh()
      modifies this
      ensures Now() == RefreshQueued(old(Now()))
    {
      EnqueueStateTask(Refresh);
    }

    /** `synchronizeWithAuthority`, up to the answer of the queued refresh */
    method SynchronizeWithAuthority() returns (queued: bool)
      modifies this
      ensures Now() == Notified(old(Now())) && queued == !isDisposed
      ensures stateTasks == old(stateTasks) + if queued then [Refresh] else []
    {
      if isDisposed {
        return false;
      }
      QueueAuthorityRefresh();
      return true;
    }

    /** The head moves to a commit that was based on it, or that it is already; any other commit is kept for
        readers and asks for a reconciliation. */
    method InstallCommitResult(base: JsString, snapshot: Snapshot) returns (requiresReconciliation: bool)
      modifies this
      ensures Now() == CommitInstalled(old(Now()), base, snapshot)
      ensures old(isDisposed) ==> Now() == old(Now()) && !requiresReconciliation
      ensures !old(isDisposed) ==>
        snapshot.revisionId in snapshots && snapshots[snapshot.revisionId] == snapshot &&
        (requiresReconciliation <==> old(headRevisionId) != base && old(headRevisionId) != snapshot.revisionId)
      ensures headRevisionId
           == if old(isDisposed) || requiresReconciliation then old(headRevisionId) else snapshot.revisionId
      ensures reconciliations == old(reconciliations) + if requiresReconciliation then 1 else 0
      ensures forall id :: id != snapshot.revisionId && id in old(snapshots) ==>
        id in snapshots && snapshots[id] == old(snapshots)[id]
    {
      if isDisposed {
        return false;
      }
      snapshots := snapshots[snapshot.revisionId := snapshot];
      if headRevisionId == base || headRevisionId == snapshot.revisionId {
        headRevisionId := snapshot.revisionId;
        return false;
      }
      reconciliations := reconciliations + 1;
      return true;
    }

    method ScheduleAuthorityReconciliation()
      modifies this
      ensures Now() == Reconciled(old(Now()))
      ensures !old(isDisposed) && old(reconciliations) > 0 ==> stateTasks == old(stateTasks) + [Refresh]
      ensures old(isDisposed) || old(reconciliations) == 0 ==> stateTasks == old(stateTasks)
    {
      if reconciliations > 0 {
        reconciliations := reconciliations - 1;
        if !isDisposed {
          QueueAuthorityRefresh();
        }
      }
    }

    /** The part of `#refreshFromAuthority` after `getHead` answered. */
    method FinishRefresh(head: JsString, reply: Option<Snapshot>) returns (ok: bool)
      modifies this
      ensures Now() == HeadInstalled(old(Now()), head, reply)
      ensures ok <==>
        !old(isDisposed) && reply.Some? && reply.value.revisionId == head && reply.value.schemaId == schemaId
      ensures ok ==> headRevisionId == head && snapshots == old(snapshots)[head := reply.value]
      ensures !ok ==> Now() == old(Now())
    {
      if isDisposed || reply.None? {
        return false;
      }
      var snapshot := reply.value;
      if snapshot.revisionId != head || snapshot.schemaId != schemaId {
        return false;
      }
      snapshots := snapshots[snapshot.revisionId := snapshot];
      headRevisionId := snapshot.revisionId;
      return true;
    }

    method Dispose()
      modifies this
      ensures Now() == Closed(old(Now()))
      ensures isDisposed && snapshots == old(snapshots) && stateTasks == old(stateTasks)
    {
      isDisposed := true;
    }

    method FinishDispose()
      requires isDisposed && stateTasks == []
      modifies this
      ensures Now() == Finished(old(Now()))
      ensures isFinished && snapshots == map[] && isDisposed && headRevisionId == old(headRevisionId)
    {
      snapshots := map[];
      isFinished := true;
    }
  }

  // ---------------------------------------------------------------- against a linear authority

  /** The revisions of the document in order; the last is the authority's head. */
  datatype World = World(model: Model, history: seq<JsString>)

  datatype Action =
    | Advance(id: JsString)
    | CommitReturned(base: nat, k: nat, snapshot: Snapshot)
    | Notification
    | RunInstall
    | StartRefresh
    | Answer
    | FinishRefresh(reply: Option<Snapshot>)
    | FailRefresh
    | Reconcile
    | Disposes
    | FinishesDisposal

  ghost predicate Distinct(history: seq<JsString>)
  {
    forall i, j :: 0 <= i < j < |history| ==> history[i] != history[j]
  }

  /** New revisions are new; a commit result is some revision with an earlier one as its base. */
  predicate Allowed(w: World, a: Action)
  {
    match a
    case Advance(id) => id !in w.history
    case CommitReturned(base, k, s) => base < k < |w.history| && s.revisionId == w.history[k]
    case _ => true
  }

  predicate AtFront(m: Model, a: Action)
  {
    m.queue != [] &&
    match a
    case RunInstall => m.queue[0].Install?
    case StartRefresh => m.queue[0].Refresh?
    case Answer => m.queue[0] == Reading(None)
    case FinishRefresh(_) => m.queue[0].Reading? && m.queue[0].answer.Some?
    case FailRefresh => m.queue[0].Reading?
    case _ => false
  }

  /** One step of the first task of the queue. */
  function FrontStepped(m: Model, history: seq<JsString>, a: Action): Model
    requires history != [] && AtFront(m, a)
  {
    var front := m.queue[0];
    match a
    case RunInstall => CommitInstalled(Dequeued(m), front.baseRevisionId, front.snapshot)
    case StartRefresh => if m.isDisposed then Dequeued(m) else m.(queue := [Reading(None)] + m.queue[1..])
    case Answer => m.(queue := [Reading(Some(history[|history| - 1]))] + m.queue[1..])
    case FinishRefresh(reply) => HeadInstalled(Dequeued(m), front.answer.value, reply)
    case _ => Dequeued(m)
  }

  function Acted(w: World, a: Action): World
    requires w.history != [] && Allowed(w, a)
  {
    var m := w.model;
    match a
    case Advance(id) => w.(history := w.history + [id])
    case CommitReturned(base, _, s) => w.(model := Enqueued(m, Install(w.history[base], s)))
    case Notification => w.(model := Notified(m))
    case Reconcile => w.(model := Reconciled(m))
    case Disposes => w.(model := Closed(m))
    case FinishesDisposal => w.(model := Finished(m))
    case _ => if AtFront(m, a) then w.(model := FrontStepped(m, w.history, a)) else w
  }

  // ---------------------------------------------------------------- positions in the history

  /** `later` stands at or after `earlier`. */
  ghost predicate NotBefore(history: seq<JsString>, earlier: JsString, later: JsString)
  {
    exists i, j :: 0 <= i <= j < |history| && history[i] == earlier && history[j] == later
  }

  lemma NotBeforeTransitive(history: seq<JsString>, x: JsString, y: JsString, z: JsString)
    requires Distinct(history) && NotBefore(history, x, y) && NotBefore(history, y, z)
    ensures NotBefore(history, x, z)
  {
    var i, j :| 0 <= i <= j < |history| && history[i] == x && history[j] == y;
    var k, l :| 0 <= k <= l < |history| && history[k] == y && history[l] == z;
    assert j == k;
  }

  lemma NotBeforeLonger(history: seq<JsString>, id: JsString, x: JsString, y: JsString)
    requires NotBefore(history, x, y)
    ensures NotBefore(history + [id], x, y)
  {
    var i, j :| 0 <= i <= j < |history| && history[i] == x && history[j] == y;
    assert (history + [id])[i] == x && (history + [id])[j] == y;
  }

  // ---------------------------------------------------------------- the invariant

  ghost predicate Earlier(history: seq<JsString>, base: JsString, id: JsString)
  {
    exists j, k :: 0 <= j < k < |history| && history[j] == base && history[k] == id
  }

  ghost predicate GoodTask(w: World, t: Task)
  {
    match t
    case Install(base, s) => Earlier(w.history, base, s.revisionId)
    case Refresh => true
    case Reading(None) => true
    case Reading(Some(id)) => NotBefore(w.history, w.model.headRevisionId, id)
  }

  ghost predicate Invariant(w: World)
  {
    w.history != [] && Distinct(w.history) && w.model.headRevisionId in w.history &&
    (w.model.isFinished ==> w.model.isDisposed) &&
    (!w.model.isFinished ==> w.model.headRevisionId in w.model.snapshots) &&
    (forall i :: 0 <= i < |w.model.queue| ==> GoodTask(w, w.model.queue[i])) &&
    forall i :: 0 < i < |w.model.queue| ==> !w.model.queue[i].Reading?
  }

  /** What an action does to the head: it stays, or moves to a later revision of the history. */
  ghost predicate MovesForward(w: World, w': World)
  {
    w.history <= w'.history && NotBefore(w'.history, w.model.headRevisionId, w'.model.headRevisionId)
  }

  lemma HeadNotBeforeItself(history: seq<JsString>, id: JsString)
    requires id in history
    ensures NotBefore(history, id, id)
  {
    var i :| 0 <= i < |history| && history[i] == id;
  }

  lemma AdvanceKeepsInvariant(w: World, id: JsString)
    requires Invariant(w) && id !in w.history
    ensures Invariant(w.(history := w.history + [id])) && MovesForward(w, w.(history := w.history + [id]))
  {
    var longer := w.history + [id];
    HeadNotBeforeItself(longer, w.model.headRevisionId);
    forall i | 0 <= i < |w.model.queue| ensures GoodTask(w.(history := longer), w.model.queue[i]) {
      var t := w.model.queue[i];
      assert GoodTask(w, t);
      if t.Install? {
        var j, k :| 0 <= j < k < |w.history| &&
          w.history[j] == t.baseRevisionId && w.history[k] == t.snapshot.revisionId;
        assert longer[j] == t.baseRevisionId && longer[k] == t.snapshot.revisionId;
      } else if t.Reading? && t.answer.Some? {
        NotBeforeLonger(w.history, id, w.model.headRevisionId, t.answer.value);
      }
    }
  }

  lemma InstallKeepsInvariant(w: World)
    requires Invariant(w) && AtFront(w.model, RunInstall)
    ensures var w' := w.(model := FrontStepped(w.model, w.history, RunInstall)); Invariant(w') && MovesForward(w, w')
  {
    var front := w.model.queue[0];
    assert GoodTask(w, front);
    var j, k :| 0 <= j < k < |w.history| &&
      w.history[j] == front.baseRevisionId && w.history[k] == front.snapshot.revisionId;
    HeadNotBeforeItself(w.history, w.model.headRevisionId);
    var w' := w.(model := FrontStepped(w.model, w.history, RunInstall));
    forall i | 0 <= i < |w'.model.queue| ensures GoodTask(w', w'.model.queue[i]) {
      assert w'.model.queue[i] == w.model.queue[i + 1] && GoodTask(w, w.model.queue[i + 1]);
    }
  }

  lemma RefreshStepKeepsInvariant(w: World, a: Action)
    requires Invariant(w) && AtFront(w.model, a) && !a.RunInstall?
    ensures var w' := w.(model := FrontStepped(w.model, w.history, a)); Invariant(w') && MovesForward(w, w')
  {
    var w' := w.(model := FrontStepped(w.model, w.history, a));
    var last := |w.history| - 1;
    HeadNotBeforeItself(w.history, w.model.headRevisionId);
    assert GoodTask(w, w.model.queue[0]);
    assert NotBefore(w.history, w.model.headRevisionId, w.history[last]);
    var gone := |w.model.queue| - |w'.model.queue|;
    forall i | 0 <= i < |w'.model.queue| ensures GoodTask(w', w'.model.queue[i]) {
      if i + gone > 0 {
        assert w'.model.queue[i] == w.model.queue[i + gone] && GoodTask(w, w.model.queue[i + gone]);
      }
    }
  }

  lemma OwnStepKeepsInvariant(w: World, a: Action)
    requires Invariant(w) && Allowed(w, a) && !a.Advance? && !AtFront(w.model, a)
    ensures Invariant(Acted(w, a)) && MovesForward(w, Acted(w, a))
  {
    var w' := Acted(w, a);
    HeadNotBeforeItself(w.history, w.model.headRevisionId);
    forall i | 0 <= i < |w'.model.queue| ensures GoodTask(w', w'.model.queue[i]) {
      if i < |w.model.queue| { assert GoodTask(w, w.model.queue[i]); }
    }
  }

  /** Every action keeps the invariant and never moves the head backward. */
  lemma ActionKeepsInvariant(w: World, a: Action)
    requires Invariant(w) && Allowed(w, a)
    ensures Invariant(Acted(w, a)) && MovesForward(w, Acted(w, a))
  {
    hide Invariant, MovesForward, FrontStepped;
    if a.Advance? {
      AdvanceKeepsInvariant(w, a.id);
    } else if !AtFront(w.model, a) {
      OwnStepKeepsInvariant(w, a);
    } else if a.RunInstall? {
      InstallKeepsInvariant(w);
    } else {
      RefreshStepKeepsInvariant(w, a);
    }
  }

  // ---------------------------------------------------------------- every run

  ghost predicate AllowedRun(w: World, actions: seq<Action>)
    requires w.history != []
    decreases |actions|
  {
    actions == [] ||
    var front := actions[..|actions| - 1];
    AllowedRun(w, front) && Allowed(After(w, front), actions[|actions| - 1])
  }

  ghost function After(w: World, actions: seq<Action>): (w': World)
    requires w.history != []
    ensures w'.history != []
    decreases |actions|
  {
    if actions == [] then w
    else
      var before := After(w, actions[..|actions| - 1]);
      if Allowed(before, actions[|actions| - 1]) then Acted(before, actions[|actions| - 1]) else before
  }

  /** A model as it is opened: its initial snapshot is some revision of the authority. */
  ghost predicate Starts(w: World, initial: Snapshot)
  {
    w.history != [] && Distinct(w.history) && initial.revisionId in w.history && w.model == Opened(initial)
  }

  lemma {:induction false} RunKeepsInvariant(w: World, initial: Snapshot, actions: seq<Action>)
    requires Starts(w, initial) && AllowedRun(w, actions)
    ensures Invariant(After(w, actions))
  {
    if actions != [] {
      RunKeepsInvariant(w, initial, actions[..|actions| - 1]);
      ActionKeepsInvariant(After(w, actions[..|actions| - 1]), actions[|actions| - 1]);
    }
  }

  /** Between any two moments of a run the head never moves backward, and its snapshot is there until
      the disposal has finished. */
  lemma {:induction false} HeadNeverMovesBackward(w: World, initial: Snapshot, actions: seq<Action>, n: nat)
    requires Starts(w, initial) && AllowedRun(w, actions) && n <= |actions|
    ensures AllowedRun(w, actions[..n]) && MovesForward(After(w, actions[..n]), After(w, actions))
    ensures var m := After(w, actions).model; m.isFinished || m.headRevisionId in m.snapshots
  {
    RunKeepsInvariant(w, initial, actions);
    if n == |actions| {
      assert actions[..n] == actions;
      HeadNotBeforeItself(After(w, actions).history, After(w, actions).model.headRevisionId);
    } else {
      var front := actions[..|actions| - 1];
      HeadNeverMovesBackward(w, initial, front, n);
      assert front[..n] == actions[..n];
      RunKeepsInvariant(w, initial, front);
      ActionKeepsInvariant(After(w, front), actions[|actions| - 1]);
      ForwardTransitive(After(w, actions[..n]), After(w, front), After(w, actions));
    }
  }

  lemma ForwardTransitive(x: World, y: World, z: World)
    requires MovesForward(x, y) && MovesForward(y, z) && Distinct(z.history)
    ensures MovesForward(x, z)
  {
    var i, j :| 0 <= i <= j < |y.history| &&
      y.history[i] == x.model.headRevisionId && y.history[j] == y.model.headRevisionId;
    assert z.history[i] == x.model.headRevisionId && z.history[j] == y.model.headRevisionId;
    assert NotBefore(z.history, x.model.headRevisionId, y.model.headRevisionId);
    NotBeforeTransitive(z.history, x.model.headRevisionId, y.model.headRevisionId, z.model.headRevisionId);
  }

  // ---------------------------------------------------------------- a model alone with its commits

  /** Nobody else advances the authority: each revision is a commit of this model, whose results come back in
      order, with any delay, and are installed.  `returned` is the last revision that has come back. */
  ghost predicate OwnRun(w: World, actions: seq<Action>, returned: nat)
    requires w.history != []
    decreases |actions|
  {
    if actions == [] then returned == |w.history| - 1
    else
      var front, last := actions[..|actions| - 1], actions[|actions| - 1];
      Allowed(After(w, front), last) &&
      match last
      case CommitReturned(base, k, _) => k == returned && base + 1 == k && OwnRun(w, front, base)
      case Advance(_) => OwnRun(w, front, returned)
      case RunInstall => OwnRun(w, front, returned)
      case _ => false
  }

  /** The queue holds the commits from the head to the last one that came back, each on the one before. */
  ghost predicate FollowsOwn(w: World, returned: nat)
  {
    var m, n := w.model, returned - |w.model.queue|;
    0 <= n <= returned < |w.history| && !m.isDisposed && m.reconciliations == 0 &&
    m.headRevisionId == w.history[n] && m.headRevisionId in m.snapshots &&
    forall i :: 0 <= i < |m.queue| ==>
      m.queue[i].Install? && m.queue[i].baseRevisionId == w.history[n + i] &&
      m.queue[i].snapshot.revisionId == w.history[n + i + 1]
  }

  /** Installing moves the head to the commit at the front of the queue, which readers can get from then on. */
  lemma InstallFollows(w: World, returned: nat)
    requires FollowsOwn(w, returned) && w.model.queue != []
    ensures var commit, m := w.model.queue[0].snapshot, Acted(w, RunInstall).model;
            m.headRevisionId == commit.revisionId && m.headRevisionId in m.snapshots &&
            m.snapshots[m.headRevisionId] == commit && m.queue == w.model.queue[1..]
    ensures FollowsOwn(Acted(w, RunInstall), returned)
  {
    var queue := w.model.queue;
    assert queue[0].Install? && queue[0].baseRevisionId == w.model.headRevisionId;
    assert forall i :: 0 <= i < |queue| - 1 ==> queue[1..][i] == queue[i + 1];
  }

  lemma NothingToInstall(w: World)
    requires w.history != [] && w.model.queue == []
    ensures Acted(w, RunInstall) == w
  {
  }

  lemma ReturnFollows(w: World, a: Action)
    requires a.CommitReturned? && a.k == a.base + 1 && FollowsOwn(w, a.base) && Allowed(w, a)
    ensures FollowsOwn(Acted(w, a), a.k)
  {
  }

  lemma AdvanceFollows(w: World, a: Action, returned: nat)
    requires a.Advance? && FollowsOwn(w, returned) && Allowed(w, a)
    ensures FollowsOwn(Acted(w, a), returned)
  {
  }

  lemma StartFollows(w: World, initial: Snapshot)
    requires Starts(w, initial) && initial.revisionId == w.history[|w.history| - 1]
    ensures FollowsOwn(w, |w.history| - 1)
  {
  }

  /** The head goes along with the model's own commits as they are installed, without any notification,
      refresh or reconciliation. */
  lemma {:induction false} OwnCommitsAreFollowed(w: World, initial: Snapshot, actions: seq<Action>, returned: nat)
    requires Starts(w, initial) && initial.revisionId == w.history[|w.history| - 1] && OwnRun(w, actions, returned)
    ensures AllowedRun(w, actions) && FollowsOwn(After(w, actions), returned)
    decreases |actions|
  {
    hide FollowsOwn, Allowed, Acted;
    assert w.history != [];
    if actions == [] {
      StartFollows(w, initial);
    } else {
      var front, last := actions[..|actions| - 1], actions[|actions| - 1];
      match last
      case CommitReturned(base, _, _) =>
        OwnCommitsAreFollowed(w, initial, front, base);
        ReturnFollows(After(w, front), last);
      case Advance(_) =>
        OwnCommitsAreFollowed(w, initial, front, returned);
        AdvanceFollows(After(w, front), last, returned);
      case RunInstall =>
        OwnCommitsAreFollowed(w, initial, front, returned);
        if After(w, front).model.queue != [] {
          InstallFollows(After(w, front), returned);
        } else {
          NothingToInstall(After(w, front));
        }
    }
  }

  /** With all its commits back and installed, the model's head is the authority's. */
  lemma OwnCommitsConverge(w: World, initial: Snapshot, actions: seq<Action>)
    requires Starts(w, initial) && initial.revisionId == w.history[|w.history| - 1]
    requires OwnRun(w, actions, |After(w, actions).history| - 1) && After(w, actions).model.queue == []
    ensures var end := After(w, actions);
            end.model.headRevisionId == end.history[|end.history| - 1] &&
            end.model.headRevisionId in end.model.snapshots && end.model.reconciliations == 0
  {
    OwnCommitsAreFollowed(w, initial, actions, |After(w, actions).history| - 1);
  }

  // ---------------------------------------------------------------- the order of the tasks

  /** A refresh that has begun is still the refresh that was queued. */
  function Kind(t: Task): Task { if t.Reading? then Refresh else t }

  function Kinds(queue: seq<Task>): (kinds: seq<Task>)
    ensures |kinds| == |queue| && forall i :: 0 <= i < |queue| ==> kinds[i] == Kind(queue[i])
  {
    seq(|queue|, i requires 0 <= i < |queue| => Kind(queue[i]))
  }

  /** The task that an action has put at the end of the queue. */
  function QueuedBy(m: Model, m': Model): seq<Task>
  {
    if |m'.queue| > |m.queue| then [Kind(m'.queue[|m'.queue| - 1])] else []
  }

  /** The task that an action has finished at the front. */
  function CompletedBy(m: Model, m': Model): seq<Task>
  {
    if |m'.queue| < |m.queue| then [Kind(m.queue[0])] else []
  }

  ghost function Queued(w: World, actions: seq<Action>): seq<Task>
    requires w.history != []
  {
    if actions == [] then []
    else
      var front := actions[..|actions| - 1];
      Queued(w, front) + QueuedBy(After(w, front).model, After(w, actions).model)
  }

  ghost function Completed(w: World, actions: seq<Action>): seq<Task>
    requires w.history != []
  {
    if actions == [] then []
    else
      var front := actions[..|actions| - 1];
      Completed(w, front) + CompletedBy(After(w, front).model, After(w, actions).model)
  }

  lemma KindsFirst(queue: seq<Task>)
    requires queue != []
    ensures Kinds(queue) == [Kind(queue[0])] + Kinds(queue[1..])
  {
    hide Kind;
  }

  lemma KindsLast(queue: seq<Task>, t: Task)
    ensures Kinds(queue + [t]) == Kinds(queue) + [Kind(t)]
  {
    hide Kind;
  }

  lemma SameKinds(queue: seq<Task>, queue': seq<Task>)
    requires |queue| == |queue'| > 0 && queue[1..] == queue'[1..] && Kind(queue[0]) == Kind(queue'[0])
    ensures Kinds(queue) == Kinds(queue')
  {
    KindsFirst(queue);
    KindsFirst(queue');
  }

  /** An action leaves the queue, takes its first task, begins it, or adds one at the end. */
  lemma QueueShape(w: World, a: Action)
    requires w.history != [] && Allowed(w, a)
    ensures var queue, queue' := w.model.queue, Acted(w, a).model.queue;
            queue' == queue || (queue != [] && queue' == queue[1..]) ||
            (queue' != [] && queue' == queue + [queue'[|queue'| - 1]]) ||
            (|queue'| == |queue| > 0 && queue'[1..] == queue[1..] && Kind(queue'[0]) == Kind(queue[0]))
  {
  }

  lemma ActionKeepsOrder(w: World, a: Action)
    requires w.history != [] && Allowed(w, a)
    ensures var m, m' := w.model, Acted(w, a).model;
            Kinds(m.queue) + QueuedBy(m, m') == CompletedBy(m, m') + Kinds(m'.queue)
  {
    hide Acted, Kind, Kinds, Allowed;
    QueueShape(w, a);
    var queue, queue' := w.model.queue, Acted(w, a).model.queue;
    if queue' != queue {
      if |queue'| > |queue| {
        KindsLast(queue, queue'[|queue|]);
      } else if |queue'| < |queue| {
        KindsFirst(queue);
      } else {
        SameKinds(queue, queue');
      }
    }
  }

  /** Tasks finish in the order in which they were queued: none is lost, doubled or overtaken. */
  lemma {:induction false} TasksRunInOrder(w: World, initial: Snapshot, actions: seq<Action>)
    requires Starts(w, initial) && AllowedRun(w, actions)
    ensures Queued(w, actions) == Completed(w, actions) + Kinds(After(w, actions).model.queue)
  {
    hide Acted, Allowed, QueuedBy, CompletedBy, Kinds;
    if actions != [] {
      var front := actions[..|actions| - 1];
      TasksRunInOrder(w, initial, front);
      ActionKeepsOrder(After(w, front), actions[|actions| - 1]);
      var m, m' := After(w, front).model, After(w, actions).model;
      assert Queued(w, actions) == Completed(w, front) + (Kinds(m.queue) + QueuedBy(m, m'));
    } else {
      NoTasksAtFirst(w, initial);
    }
  }

  lemma NoTasksAtFirst(w: World, initial: Snapshot)
    requires Starts(w, initial)
    ensures Kinds(w.model.queue) == []
  {
  }

  // ---------------------------------------------------------------- convergence

  predicate ReadsLatest(w: World, t: Task)
    requires w.history != []
  {
    t.Refresh? || t == Reading(None) || t == Reading(Some(w.history[|w.history| - 1]))
  }

  /** The head is the authority's, or a queued refresh will make it so. */
  ghost predicate WillConverge(w: World)
    requires w.history != []
  {
    !w.model.isDisposed &&
    (w.model.headRevisionId == w.history[|w.history| - 1] ||
     exists i :: 0 <= i < |w.model.queue| && ReadsLatest(w, w.model.queue[i]))
  }

  /** No new revision, no failed refresh, no disposal: a refresh that finishes gets its snapshot. */
  predicate Calm(w: World, a: Action)
  {
    match a
    case Advance(_) => false
    case FailRefresh => false
    case Disposes => false
    case FinishRefresh(reply) =>
      AtFront(w.model, a) ==>
        reply.Some? && reply.value.revisionId == w.model.queue[0].answer.value &&
        reply.value.schemaId == w.model.schemaId
    case _ => true
  }

  lemma CalmKeepsConverging(w: World, a: Action)
    requires Invariant(w) && Allowed(w, a) && Calm(w, a) && WillConverge(w)
    ensures WillConverge(Acted(w, a))
  {
    var w' := Acted(w, a);
    var last := |w.history| - 1;
    if w.model.headRevisionId == w.history[last] {
      if AtFront(w.model, a) { LatestHeadStays(w, a); }
    } else {
      var i :| 0 <= i < |w.model.queue| && ReadsLatest(w, w.model.queue[i]);
      if AtFront(w.model, a) {
        QueuedRefreshStays(w, a, i);
      } else {
        assert w'.model.queue[i] == w.model.queue[i];
      }
    }
  }

  lemma LatestHeadStays(w: World, a: Action)
    requires Invariant(w) && Calm(w, a) && AtFront(w.model, a) && !w.model.isDisposed
    requires w.model.headRevisionId == w.history[|w.history| - 1]
    ensures FrontStepped(w.model, w.history, a).headRevisionId == w.history[|w.history| - 1]
    ensures !FrontStepped(w.model, w.history, a).isDisposed
  {
    assert GoodTask(w, w.model.queue[0]);
  }

  lemma QueuedRefreshStays(w: World, a: Action, i: nat)
    requires Invariant(w) && Calm(w, a) && AtFront(w.model, a) && !w.model.isDisposed
    requires i < |w.model.queue| && ReadsLatest(w, w.model.queue[i])
    ensures WillConverge(w.(model := FrontStepped(w.model, w.history, a)))
  {
    var w' := w.(model := FrontStepped(w.model, w.history, a));
    var gone := |w.model.queue| - |w'.model.queue|;
    if i >= gone {
      if i > 0 { assert w'.model.queue[i - gone] == w.model.queue[i]; }
      assert ReadsLatest(w', w'.model.queue[i - gone]);
    }
  }

  /** A requested reconciliation has not been scheduled yet. */
  ghost predicate WillReconcile(w: World)
    requires w.history != []
  {
    WillConverge(w) || (!w.model.isDisposed && w.model.reconciliations > 0)
  }

  lemma CalmKeepsReconciling(w: World, a: Action)
    requires Invariant(w) && Allowed(w, a) && Calm(w, a) && WillReconcile(w)
    ensures WillReconcile(Acted(w, a))
  {
    hide Calm;
    if WillConverge(w) {
      CalmKeepsConverging(w, a);
    } else if a.Reconcile? {
      var w' := Acted(w, a);
      assert ReadsLatest(w', w'.model.queue[|w.model.queue|]);
    } else {
      ReconciliationsStay(w, a);
    }
  }

  lemma ReconciliationsStay(w: World, a: Action)
    requires w.history != [] && Allowed(w, a) && Calm(w, a) && !a.Reconcile? && !w.model.isDisposed
    ensures Acted(w, a).model.reconciliations >= w.model.reconciliations && !Acted(w, a).model.isDisposed
  {
  }

  lemma {:induction false} CalmRunReconciles(w: World, actions: seq<Action>)
    requires Invariant(w) && WillReconcile(w) && CalmRun(w, actions)
    ensures Invariant(AfterCalm(w, actions)) && WillReconcile(AfterCalm(w, actions))
    decreases |actions|
  {
    hide WillReconcile;
    if actions != [] {
      ActionKeepsInvariant(w, actions[0]);
      CalmKeepsReconciling(w, actions[0]);
      CalmRunReconciles(Acted(w, actions[0]), actions[1..]);
    }
  }

  /** After a commit that could not be taken over directly, no notification is needed either: with no
      reconciliation left to schedule and an empty queue the head is the authority's. */
  lemma ReconciliationConverges(w: World, initial: Snapshot, before: seq<Action>, after: seq<Action>)
    requires Starts(w, initial) && AllowedRun(w, before)
    requires !After(w, before).model.isDisposed && After(w, before).model.reconciliations > 0
    requires CalmRun(After(w, before), after)
    ensures var end := AfterCalm(After(w, before), after);
            end.model.queue == [] && end.model.reconciliations == 0 ==>
              end.model.headRevisionId == end.history[|end.history| - 1]
  {
    hide Invariant;
    RunKeepsInvariant(w, initial, before);
    CalmRunReconciles(After(w, before), after);
  }

  /** Once a notification has arrived after the authority's last advance, and the queue has run empty
      without a failed refresh, the model's head is the authority's head. */
  lemma {:induction false} Converges(w: World, initial: Snapshot, before: seq<Action>, after: seq<Action>)
    requires Starts(w, initial) && AllowedRun(w, before) && !After(w, before).model.isDisposed
    requires CalmRun(Acted(After(w, before), Notification), after)
    ensures var end := AfterCalm(Acted(After(w, before), Notification), after);
            WillConverge(end) && Invariant(end) &&
            (end.model.queue == [] ==> end.model.headRevisionId == end.history[|end.history| - 1])
  {
    RunKeepsInvariant(w, initial, before);
    var start := Acted(After(w, before), Notification);
    ActionKeepsInvariant(After(w, before), Notification);
    var n := |start.model.queue| - 1;
    assert ReadsLatest(start, start.model.queue[n]);
    CalmRunConverges(start, after);
  }

  ghost predicate CalmRun(w: World, actions: seq<Action>)
    requires w.history != []
    decreases |actions|
  {
    actions == [] || (Allowed(w, actions[0]) && Calm(w, actions[0]) && CalmRun(Acted(w, actions[0]), actions[1..]))
  }

  ghost function AfterCalm(w: World, actions: seq<Action>): (w': World)
    requires w.history != [] && CalmRun(w, actions)
    ensures w'.history != []
    decreases |actions|
  {
    if actions == [] then w else AfterCalm(Acted(w, actions[0]), actions[1..])
  }

  lemma {:induction false} CalmRunConverges(w: World, actions: seq<Action>)
    requires Invariant(w) && WillConverge(w) && CalmRun(w, actions)
    ensures Invariant(AfterCalm(w, actions)) && WillConverge(AfterCalm(w, actions))
    decreases |actions|
  {
    if actions != [] {
      ActionKeepsInvariant(w, actions[0]);
      CalmKeepsConverging(w, actions[0]);
      CalmRunConverges(Acted(w, actions[0]), actions[1..]);
    }
  }
}
