/**
 What a commit of `AtomicSnapshotStore` in `src/storage/snapshot-store.ts` answers and leaves behind when nothing
 comes between its awaits, for any snapshot codec.
 */
module CommitOutcome {
  import opened Wrappers
  import opened Utf8
  import opened Recovery
  import opened DurableStorage
  import opened SnapshotStore

  /** The document has no manifest yet, or a normal one that this revision may follow. */
  predicate MayCommit(x: Env, st: Store, v: Revision)
  {
    match ReadManifest(st, Ready, v.uri)
    case Ok(Some(current)) => Normal(x, current, v.uri) && MayAdvance(Some(current), v)
    case _ => true
  }

  /** The bytes of the snapshot decode to a snapshot of the revision. */
  predicate Readable(x: Env, i: Input)
  {
    x.encode(i.snapshot).Some? && Identifies(x.decode(x.encode(i.snapshot).value), i.revision)
  }

  function SnapshotKey(i: Input): JsString { StorageKey(i.fence.uri, SnapKey(i.revision.id)) }

  function TemporaryKey(i: Input): JsString { StorageKey(i.fence.uri, TempKey(i.revision.id)) }

  function AfterCommit(x: Env, st: Store, i: Input, g: seq<Gate>): Progress
  {
    Alone(x, i, Progress(st, Begun(x, i)), g)
  }

  /** The first three awaits: the temporary is written, synced and checked. */
  lemma FirstThree(x: Env, st: Store, i: Input, g: seq<Gate>)
    requires |g| == 6 && ValidInput(x, i) && x.encode(i.snapshot).Some?
    ensures var p := Advance(x, i, Advance(x, i, Advance(x, i, Progress(st, Begun(x, i)), g[0]), g[1]), g[2]);
            p.store.manifests == st.manifests && p.store.snapshots == st.snapshots && p.store.wal == st.wal &&
            (p.pc == Renaming || (p.pc.Done? && p.pc.reply.Err?)) &&
            (p.pc == Renaming <==> g[0] == g[1] == g[2] == Ready && Readable(x, i)) &&
            (g[0] == g[1] == g[2] == Ready && p.pc != Renaming ==> p.pc.reply == Err(Corrupted)) &&
            (p.pc == Renaming ==>
              TemporaryKey(i) in p.store.temporary && TemporaryKey(i) in p.store.synced &&
              p.store.temporary[TemporaryKey(i)] == x.encode(i.snapshot).value)
  {
    hide Normal;
  }

  lemma DoneStays(x: Env, i: Input, p: Progress, gate: Gate)
    requires p.pc.Done?
    ensures Advance(x, i, p, gate) == p
  {
  }

  /** The rename puts the snapshot in place. */
  lemma RenameStep(x: Env, i: Input, p: Progress, gate: Gate)
    requires p.pc == Renaming && TemporaryKey(i) in p.store.temporary && TemporaryKey(i) in p.store.synced
    ensures var q := Advance(x, i, p, gate);
            q.store.manifests == p.store.manifests && q.store.wal == p.store.wal &&
            if gate != Ready then q.pc.Done? && q.pc.reply.Err? && q.store == p.store
            else
              q.pc == ReadingManifest && TemporaryKey(i) !in q.store.temporary &&
              q.store.snapshots == p.store.snapshots[SnapshotKey(i) := p.store.temporary[TemporaryKey(i)]]
  {
    hide Normal;
  }

  /** The last two awaits switch the manifest, or leave it. */
  lemma LastTwo(x: Env, i: Input, p: Progress, g: Gate, h: Gate)
    requires p.pc == ReadingManifest && ValidInput(x, i) && SnapshotKey(i) in p.store.snapshots
    ensures var q := Advance(x, i, Advance(x, i, p, g), h);
            var next := Manifest(DraftOf(i.revision), GenerationOf(p.store, i.fence.uri) + 1);
            q.pc.Done? && q.store == p.store.(manifests := q.store.manifests) &&
            (q.pc.reply.Ok? <==> g == h == Ready && MayCommit(x, p.store, i.revision)) &&
            (if q.pc.reply.Ok?
             then q.pc.reply.value == next && q.store.manifests == p.store.manifests[i.fence.uri := next]
             else q.store == p.store)
  {
  }

  /** A commit succeeds exactly if no wait fails, its input is valid, its bytes decode to a snapshot of the revision
      and the manifest lets it.  Then manifest and snapshot are its own; a failed commit leaves the manifest. */
  lemma CommitSucceedsIff(x: Env, st: Store, i: Input, g: seq<Gate>)
    requires |g| == 6
    ensures var end := AfterCommit(x, st, i, g);
            var next := Manifest(DraftOf(i.revision), GenerationOf(st, i.fence.uri) + 1);
            end.pc.Done? && end.store.wal == st.wal &&
            (end.pc.reply.Ok? <==> (forall k :: 0 <= k < 6 ==> g[k] == Ready) && ValidInput(x, i) && Readable(x, i) &&
                                   MayCommit(x, st, i.revision)) &&
            (end.pc.reply.Err? ==> end.store.manifests == st.manifests) &&
            (end.pc.reply.Ok? ==>
              end.pc.reply.value == next && end.store.manifests == st.manifests[i.fence.uri := next] &&
              end.store.snapshots == st.snapshots[SnapshotKey(i) := x.encode(i.snapshot).value] &&
              TemporaryKey(i) !in end.store.temporary)
  {
    hide Advance, Normal, MayAdvance, ValidInput;
    var p := Progress(st, Begun(x, i));
    AloneSix(x, i, p, g);
    if p.pc.Done? {
      RefusedAtOnce(x, st, i, g);
    } else {
      FirstThree(x, st, i, g);
      var q := Advance(x, i, Advance(x, i, Advance(x, i, p, g[0]), g[1]), g[2]);
      if q.pc.Done? {
        DoneStays(x, i, q, g[3]);
        DoneStays(x, i, q, g[4]);
        DoneStays(x, i, q, g[5]);
      } else {
        RenameStep(x, i, q, g[3]);
        var r := Advance(x, i, q, g[3]);
        if r.pc.Done? {
          DoneStays(x, i, r, g[4]);
          DoneStays(x, i, r, g[5]);
        } else {
          LastTwo(x, i, r, g[4], g[5]);
        }
      }
    }
  }

  lemma RefusedAtOnce(x: Env, st: Store, i: Input, g: seq<Gate>)
    requires |g| == 6 && Begun(x, i).Done?
    ensures AfterCommit(x, st, i, g) == Progress(st, Done(Err(Corrupted)))
    ensures !ValidInput(x, i) || x.encode(i.snapshot).None?
  {
    hide Normal;
    var p := Progress(st, Begun(x, i));
    AloneSix(x, i, p, g);
  }
}
