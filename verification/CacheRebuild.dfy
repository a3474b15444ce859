/** The vault cache (catalogops/vault.go, core/vault/sync.go): draining the event log
    batch by batch, and rebuilding the cache file with the old one set aside. */
module CacheRebuild {
  import opened Basics
  import opened Paging

  const BATCH := 100

  /** What an upload event carries: an object with readable metadata or not, or none. */
  datatype Payload = NoObject | NoMetadata | Unreadable | Metadata(tag: int)

  /** One event of the indexer's log: a deletion, or an upload and what came with it. */
  datatype LogEvent = Deleted(key: nat) | Uploaded(key: nat, payload: Payload)

  /** Sync writes deletions and uploads with readable metadata; it skips the rest. */
  predicate Applies(ev: LogEvent) {
    ev.Deleted? || ev.payload.Metadata?
  }

  /** What a file holds: an index, given by its cursor into the log and the events written to
      it so far, in order; or anything else. */
  datatype Content = Index(cursor: nat, applied: seq<LogEvent>) | Blob(tag: int)

  type Files = map<string, Content>

  function Applied(events: seq<LogEvent>): seq<LogEvent> {
    if events == [] then []
    else (if Applies(events[0]) then [events[0]] else []) + Applied(events[1..])
  }

  lemma {:induction false} AppliedAppend(a: seq<LogEvent>, b: seq<LogEvent>)
    ensures Applied(a + b) == Applied(a) + Applied(b)
  {
    if a == [] {
      assert a + b == b;
    } else {
      assert (a + b)[0] == a[0] && (a + b)[1..] == a[1..] + b;
      AppliedAppend(a[1..], b);
    }
  }

  /** `at` lists the places of the log that hold a deletion or an upload with readable
      metadata, in increasing order. */
  ghost predicate PlacesWritten(log: seq<LogEvent>, at: seq<nat>) {
    && (forall i, j :: 0 <= i < j < |at| ==> at[i] < at[j])
    && (forall p: nat :: p in at <==> p < |log| && (log[p].Deleted? || (log[p].Uploaded? && log[p].payload.Metadata?)))
  }

  ghost predicate KeepsAt(log: seq<LogEvent>, written: seq<LogEvent>, at: seq<nat>) {
    && PlacesWritten(log, at) && |at| == |written|
    && forall i :: 0 <= i < |at| ==> at[i] < |log| && written[i] == log[at[i]]
  }

  /** `written` is the log without the uploads that carry no readable metadata: every deletion
      and every readable upload, as often as the log has it and in its order, and nothing else. */
  ghost predicate Keeps(log: seq<LogEvent>, written: seq<LogEvent>) {
    exists at: seq<nat> :: KeepsAt(log, written, at)
  }

  lemma KeepsOneMore(front: seq<LogEvent>, last: LogEvent, at: seq<nat>, places: seq<nat>)
    requires PlacesWritten(front, at)
    requires places == if last.Deleted? || (last.Uploaded? && last.payload.Metadata?) then at + [|front|] else at
    ensures PlacesWritten(front + [last], places)
  {
    var log := front + [last];
    forall i | 0 <= i < |at| ensures at[i] < |front| {
      assert at[i] in at;
    }
    forall p: nat
      ensures p in places <==> p < |log| && (log[p].Deleted? || (log[p].Uploaded? && log[p].payload.Metadata?))
    {
      assert p in places <==> p in at || (p == |front| && places != at);
    }
  }

  lemma KeepsStep(front: seq<LogEvent>, last: LogEvent, written: seq<LogEvent>, at: seq<nat>)
    requires KeepsAt(front, written, at)
    ensures var more := last.Deleted? || (last.Uploaded? && last.payload.Metadata?);
            KeepsAt(front + [last], if more then written + [last] else written, if more then at + [|front|] else at)
  {
    var more := last.Deleted? || (last.Uploaded? && last.payload.Metadata?);
    KeepsOneMore(front, last, at, if more then at + [|front|] else at);
  }

  lemma AppliedMore(front: seq<LogEvent>, last: LogEvent)
    ensures Applied(front + [last]) ==
              if last.Deleted? || (last.Uploaded? && last.payload.Metadata?) then Applied(front) + [last]
              else Applied(front)
  {
    AppliedAppend(front, [last]);
    assert [last][1..] == [];
  }

  lemma KeepsMore(front: seq<LogEvent>, last: LogEvent)
    requires Keeps(front, Applied(front))
    ensures Keeps(front + [last], Applied(front + [last]))
  {
    var at: seq<nat> :| KeepsAt(front, Applied(front), at);
    KeepsStep(front, last, Applied(front), at);
    AppliedMore(front, last);
  }

  lemma {:induction false} AppliedKeeps(log: seq<LogEvent>)
    ensures Keeps(log, Applied(log))
  {
    if log == [] {
      var at: seq<nat> := [];
      assert KeepsAt(log, Applied(log), at);
    } else {
      var front, last := log[..|log| - 1], log[|log| - 1];
      assert log == front + [last];
      AppliedKeeps(front);
      KeepsMore(front, last);
    }
  }

  datatype IoResult = Done | Missing | Fault

  /** Removing and renaming either happen at once or not at all. `history` lists every
      state the disk went through. */
  class Disk {
    var files: Files
    ghost var history: seq<Files>

    constructor (files: Files)
      ensures this.files == files && history == [files]
    {
      this.files := files;
      history := [files];
    }

    method Rename(from: string, to: string, fault: bool) returns (r: IoResult)
      requires from != to
      modifies this
      ensures r == if fault then Fault else if from in old(files) then Done else Missing
      ensures files == if r.Done? then (old(files) - {from})[to := old(files)[from]] else old(files)
      ensures history == old(history) + [files]
    {
      r := if fault then Fault else if from in files then Done else Missing;
      if r.Done? {
        files := (files - {from})[to := files[from]];
      }
      history := history + [files];
    }

    method Remove(path: string, fault: bool) returns (r: IoResult)
      modifies this
      ensures r == if fault then Fault else if path in old(files) then Done else Missing
      ensures files == if r.Done? then old(files) - {path} else old(files)
      ensures history == old(history) + [files]
    {
      r := if fault then Fault else if path in files then Done else Missing;
      if r.Done? {
        files := files - {path};
      }
      history := history + [files];
    }

    method Write(path: string, content: Content)
      modifies this
      ensures files == old(files)[path := content]
      ensures history == old(history) + [files]
    {
      files := files[path := content];
      history := history + [files];
    }
  }

  /** From one disk state to a later one, every state in between differs from the
      first at `path` only. */
  ghost predicate OnlyTouched(history: seq<Files>, files: Files, history': seq<Files>, files': Files, path: string) {
    && |history'| >= |history| && history'[..|history|] == history
    && files' - {path} == files - {path}
    && forall i :: |history| <= i < |history'| ==> history'[i] - {path} == files - {path}
  }

  lemma OnlyTouchedTransitive(h0: seq<Files>, f0: Files, h1: seq<Files>, f1: Files, h2: seq<Files>, f2: Files,
                              path: string)
    requires OnlyTouched(h0, f0, h1, f1, path) && OnlyTouched(h1, f1, h2, f2, path)
    ensures OnlyTouched(h0, f0, h2, f2, path)
  {
    assert h2[..|h0|] == h1[..|h0|];
    forall i | |h0| <= i < |h2| ensures h2[i] - {path} == f0 - {path} {
      if i < |h1| { assert h2[..|h1|][i] == h1[i]; }
    }
  }

  lemma OnlyTouchedKeeps(h0: seq<Files>, f0: Files, h1: seq<Files>, f1: Files, path: string, other: string,
                         content: Content)
    requires OnlyTouched(h0, f0, h1, f1, path) && other != path && Holds(f0, other, content)
    ensures Holds(f1, other, content)
    ensures forall i :: |h0| <= i < |h1| ==> Holds(h1[i], other, content)
  {
    assert other in f0 - {path} && (f0 - {path})[other] == content;
    assert other in f1 - {path};
    forall i | |h0| <= i < |h1| ensures Holds(h1[i], other, content) {
      assert other in h1[i] - {path};
    }
  }

  /** Starting from cursor `c`, the log was applied in order up to the cache's cursor. */
  ghost predicate Progress(log: seq<LogEvent>, c: nat, before: seq<LogEvent>, cache: Content, count: nat) {
    && cache.Index? && c <= cache.cursor <= |log|
    && cache.applied == before + Applied(log[c..cache.cursor])
    && count == |Applied(log[c..cache.cursor])|
  }

  function NextCursor(log: seq<LogEvent>, cursor: nat): nat
    requires cursor <= |log|
  {
    Min(cursor + BATCH, |log|)
  }

  lemma BatchProgress(log: seq<LogEvent>, c: nat, before: seq<LogEvent>, cache: Content, count: nat)
    requires Progress(log, c, before, cache, count)
    ensures var next := NextCursor(log, cache.cursor);
            var batch := log[cache.cursor..next];
            Progress(log, c, before, Index(next, cache.applied + Applied(batch)), count + |Applied(batch)|)
  {
    var next := NextCursor(log, cache.cursor);
    assert log[c..next] == log[c..cache.cursor] + log[cache.cursor..next];
    AppliedAppend(log[c..cache.cursor], log[cache.cursor..next]);
    assert before + (Applied(log[c..cache.cursor]) + Applied(log[cache.cursor..next]))
        == before + Applied(log[c..cache.cursor]) + Applied(log[cache.cursor..next]);
  }

  /** The loop over one batch: what is written, and how many times. */
  method ApplyEvents(batch: seq<LogEvent>) returns (written: seq<LogEvent>, n: nat)
    ensures written == Applied(batch) && n == |written|
    ensures Keeps(batch, written)
  {
    written, n := [], 0;
    for i := 0 to |batch|
      invariant written == Applied(batch[..i]) && n == |written|
    {
      var ev := batch[i];
      assert batch[..i + 1] == batch[..i] + [ev];
      AppliedAppend(batch[..i], [ev]);
      if ev.Deleted? {
        written, n := written + [ev], n + 1;
        continue;
      }
      if ev.payload.NoObject? || ev.payload.NoMetadata? || ev.payload.Unreadable? {
        continue;
      }
      written, n := written + [ev], n + 1;
    }
    assert batch[..|batch|] == batch;
    AppliedKeeps(batch);
  }

  /** Sync: one batch of at most 100 events behind the cursor; the cursor passes the
      whole batch, also the events that change nothing. A failing call may leave any
      half-applied content. */
  method Sync(disk: Disk, path: string, log: seq<LogEvent>, fails: bool, leaves: Content)
    returns (n: nat, full: bool, ok: bool)
    requires path in disk.files && disk.files[path].Index? && disk.files[path].cursor <= |log|
    modifies disk
    ensures ok == !fails
    ensures path in disk.files && OnlyTouched(old(disk.history), old(disk.files), disk.history, disk.files, path)
    ensures var cache := old(disk.files)[path];
            var next := if cache.cursor + 100 <= |log| then cache.cursor + 100 else |log|;
            var batch := log[cache.cursor..next];
            ok ==>
              && disk.files[path] == Index(next, cache.applied + Applied(batch))
              && n == |Applied(batch)|
              && full == (|batch| == 100)
  {
    var cache := disk.files[path];
    if fails {
      disk.Write(path, leaves);
      return 0, false, false;
    }
    var batch := log[cache.cursor..NextCursor(log, cache.cursor)];
    var written: seq<LogEvent>;
    written, n := ApplyEvents(batch);
    disk.Write(path, Index(cache.cursor + |batch|, cache.applied + written));
    return n, |batch| == BATCH, true;
  }

  /** The loop of vault_sync and of the rebuild: batches while the last one was full. On
      a finite log it ends; without a failure the cursor is at the end of the log, every
      event behind it was applied in order, and the count is their number. */
  method Drain(disk: Disk, path: string, log: seq<LogEvent>, fails: nat -> bool, leaves: Content)
    returns (count: nat, ok: bool, calls: nat)
    requires path in disk.files && disk.files[path].Index? && disk.files[path].cursor <= |log|
    modifies disk
    ensures path in disk.files && OnlyTouched(old(disk.history), old(disk.files), disk.history, disk.files, path)
    ensures var cache := old(disk.files)[path];
            && (ok ==>
                  && disk.files[path] == Index(|log|, cache.applied + Applied(log[cache.cursor..]))
                  && count == |Applied(log[cache.cursor..])|
                  && calls == (|log| - cache.cursor) / BATCH + 1)
            && (ok <==> forall k: nat :: k <= (|log| - cache.cursor) / BATCH ==> !fails(k))
            && Keeps(log[cache.cursor..], Applied(log[cache.cursor..]))
  {
    ghost var cache := disk.files[path];
    ghost var c, before := cache.cursor, cache.applied;
    ghost var h0, f0 := disk.history, disk.files;
    assert log[c..c] == [] && before + [] == before;
    BatchProgress(log, c, before, cache, 0);
    var full: bool;
    count, full, ok := Sync(disk, path, log, fails(0), leaves);
    calls := 1;
    while ok && full
      invariant calls >= 1 && path in disk.files && OnlyTouched(h0, f0, disk.history, disk.files, path)
      invariant forall k: nat :: k < calls - 1 ==> !fails(k)
      invariant ok <==> !fails(calls - 1)
      invariant c + (calls - 1) * BATCH <= |log|
      invariant ok ==> Progress(log, c, before, disk.files[path], count)
      invariant ok ==> disk.files[path].cursor == Min(c + calls * BATCH, |log|)
      invariant ok ==> (full <==> c + calls * BATCH <= |log|)
      decreases |log| - c - calls * BATCH, ok
    {
      BatchProgress(log, c, before, disk.files[path], count);
      ghost var h1, f1 := disk.history, disk.files;
      var n: nat;
      n, full, ok := Sync(disk, path, log, fails(calls), leaves);
      OnlyTouchedTransitive(h0, f0, h1, f1, disk.history, disk.files, path);
      count := count + n;
      calls := calls + 1;
    }
    if ok {
      assert log[c..|log|] == log[c..];
    }
    AppliedKeeps(log[c..]);
  }

  // ---- rebuild ----

  /** What may go wrong during one rebuild. `openLeaves` is what a failed OpenDB left at
      the path, if anything. */
  datatype Faults = Faults(
    setAside: bool,
    open: bool,
    openLeaves: Option<Content>,
    handle: bool,
    service: bool,
    sync: nat -> bool,
    syncLeaves: Content,
    restoreRemove: bool,
    restoreRename: bool,
    finalRemove: bool)

  datatype Outcome = Rebuilt(count: nat) | Failed(stage: Stage)

  datatype Stage = SetAside | Initialize | Recreate | SyncLog

  function OldPath(path: string): string {
    path + ".old"
  }

  ghost predicate Holds(files: Files, path: string, content: Content) {
    path in files && files[path] == content
  }

  /** At each of these moments the original sits at the path or at its `.old` path. */
  ghost predicate NeverLost(history: seq<Files>, from: nat, to: int, path: string, original: Content)
    requires to <= |history|
  {
    forall i :: from <= i < to ==> Holds(history[i], path, original) || Holds(history[i], path + ".old", original)
  }

  /** The restore closure: drop the new file, put the old one back. Only its rename
      decides; a rename replaces whatever the remove left. */
  method Restore(disk: Disk, path: string, moved: bool, f: Faults)
    modifies disk
    ensures !moved ==> disk.files == old(disk.files) && disk.history == old(disk.history)
    ensures |disk.history| >= |old(disk.history)| && disk.history[..|old(disk.history)|] == old(disk.history)
    ensures moved ==> forall original ::
              Holds(old(disk.files), OldPath(path), original) ==>
                && NeverLost(disk.history, |old(disk.history)|, |disk.history|, path, original)
                && (!f.restoreRename ==> disk.files == (old(disk.files) - {OldPath(path)})[path := original])
                && (f.restoreRename ==> Holds(disk.files, OldPath(path), original))
  {
    if moved {
      assert |OldPath(path)| > |path|;
      var _ := disk.Remove(path, f.restoreRemove);
      ghost var between := disk.files;
      var _ := disk.Rename(OldPath(path), path, f.restoreRename);
      forall original | Holds(old(disk.files), OldPath(path), original)
        ensures !f.restoreRename ==> disk.files == (old(disk.files) - {OldPath(path)})[path := original]
      {
        assert Holds(between, OldPath(path), original);
      }
    }
  }

  /** The part between setting aside and giving up or finishing: create the file, open
      the service on it, drain the log. It writes nowhere but at the path. */
  method BuildIndex(disk: Disk, path: string, log: seq<LogEvent>, f: Faults) returns (r: Outcome)
    modifies disk
    ensures OnlyTouched(old(disk.history), old(disk.files), disk.history, disk.files, path)
    ensures r != Failed(SetAside)
    ensures r.Rebuilt? ==> Holds(disk.files, path, Index(|log|, Applied(log))) && r.count == |Applied(log)|
    ensures r.Rebuilt? <==>
              !f.open && !f.handle && !f.service && forall k: nat :: k <= |log| / BATCH ==> !f.sync(k)
  {
    if f.open {
      if f.openLeaves.Some? {
        disk.Write(path, f.openLeaves.value);
      }
      return Failed(Initialize);
    }
    disk.Write(path, Index(0, []));
    if f.handle {
      return Failed(Initialize);
    }
    if f.service {
      return Failed(Recreate);
    }
    ghost var h, fs := disk.history, disk.files;
    var count, ok, _ := Drain(disk, path, log, f.sync, f.syncLeaves);
    OnlyTouchedTransitive(old(disk.history), old(disk.files), h, fs, disk.history, disk.files, path);
    assert log[0..] == log && [] + Applied(log) == Applied(log);
    if !ok {
      return Failed(SyncLog);
    }
    return Rebuilt(count);
  }

  /** The handler of vault_cache_rebuild, once the profile is known; every failing return
      after the move runs the restore closure.
      With a cache in place: until a success drops it, the original content is always at
      one of the two paths; after any failure it is back, provided the restoring rename
      works, and still at the `.old` path otherwise; a success leaves the index of the
      whole log and, if the last remove works, no `.old` file. */
  method VaultCacheRebuild(disk: Disk, path: string, log: seq<LogEvent>, f: Faults) returns (r: Outcome)
    modifies disk
    ensures |disk.history| >= |old(disk.history)| && disk.history[..|old(disk.history)|] == old(disk.history)
    ensures path in old(disk.files) ==>
              var original := old(disk.files)[path];
              && NeverLost(disk.history, |old(disk.history)|,
                           if r.Rebuilt? then |disk.history| - 1 else |disk.history|, path, original)
              && (r == Failed(SetAside) ==> disk.files == old(disk.files))
              && (r.Failed? && !f.restoreRename ==> Holds(disk.files, path, original))
              && (r.Failed? && r.stage != SetAside && f.restoreRename ==> Holds(disk.files, path + ".old", original))
    ensures r.Rebuilt? ==>
              && Holds(disk.files, path, Index(|log|, Applied(log)))
              && r.count == |Applied(log)|
              && Keeps(log, Applied(log))
              && (path in old(disk.files) && !f.finalRemove ==> path + ".old" !in disk.files)
    ensures r.Rebuilt? <==>
              && !f.setAside && !f.open && !f.handle && !f.service
              && forall k: nat :: k <= |log| / BATCH ==> !f.sync(k)
    ensures f.setAside ==> r == Failed(SetAside)
  {
    var oldPath := OldPath(path);
    assert |oldPath| > |path|;
    AppliedKeeps(log);
    var renamed := disk.Rename(path, oldPath, f.setAside);
    if renamed.Fault? {
      return Failed(SetAside);
    }
    var moved := renamed.Done?;
    ghost var h, aside := disk.history, disk.files;
    r := BuildIndex(disk, path, log, f);
    ghost var h', built := disk.history, disk.files;
    if moved {
      OnlyTouchedKeeps(h, aside, h', built, path, oldPath, aside[oldPath]);
      BeforeAndDuring(old(disk.history), h, h', path, aside[oldPath]);
    }
    if r.Failed? {
      Restore(disk, path, moved, f);
      if moved {
        LostNeither(h', disk.history, |old(disk.history)|, path, aside[oldPath]);
      }
      return;
    }
    if moved {
      var _ := disk.Remove(oldPath, f.finalRemove);
      assert disk.history[..|h'|] == h';
    }
  }

  lemma BeforeAndDuring(h0: seq<Files>, h: seq<Files>, h': seq<Files>, path: string, original: Content)
    requires |h| == |h0| + 1 && |h'| >= |h| && h[..|h0|] == h0 && h'[..|h|] == h
    requires Holds(h[|h0|], OldPath(path), original)
    requires forall i :: |h| <= i < |h'| ==> Holds(h'[i], OldPath(path), original)
    ensures NeverLost(h', |h0|, |h'|, path, original)
    ensures h'[..|h0|] == h0
  {
    assert h'[|h0|] == h[|h0|];
  }

  lemma LostNeither(h: seq<Files>, h': seq<Files>, from: nat, path: string, original: Content)
    requires |h'| >= |h| && h'[..|h|] == h
    requires NeverLost(h, from, |h|, path, original) && NeverLost(h', |h|, |h'|, path, original)
    ensures NeverLost(h', from, |h'|, path, original)
  {
    assert forall i :: 0 <= i < |h| ==> h'[i] == h[i];
  }
}
