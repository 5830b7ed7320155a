/**
 The append-only mutation log: the writer, its rotation and pruning, and reopening after a
 crash. Every system call that can fail or be cut off takes its fate from a parameter, so a
 run ranges over every combination of successes, failures and crashes.
 */
module MutationLogs {
  import opened Options
  import opened Chain
  import opened LogDisk

  const DEFAULT_MAX_BYTES: Pos := 8 * 1024 * 1024
  const DEFAULT_KEEP: Pos := 24

  /** What becomes of the write and the fsync of one record; `undone` is the rollback's luck. */
  datatype AppendFate =
    | Lands
    | WriteFails(landed: nat, undone: bool)
    | SyncFails(undone: bool)
    | Dies(landed: nat)

  /** How far a rotation gets. */
  datatype RotateFate =
    | Rotates
    | RotateSyncFails
    | CloseFails
    | RenameFails(reopened: bool)
    | ReopenFails
    | PruneFails(removed: nat)
    | DiesBeforeRename
    | DiesAfterRename
    | DiesPruning(removed: nat)

  /** How far an open gets. */
  datatype OpenFate = Opens | FailsAtOnce | FailsAfterCreate | FailsAfterRepair

  // ---------------------------------------------------------------- the invariant

  /** The process: gone, or holding the log with a descriptor that may no longer work. */
  datatype Process = Down | Up(handle: bool, size: nat, seqNo: nat, head: string)

  ghost predicate GoodLog(digest: Digest, maxBytes: Pos, d: Disk, p: Process, st: Story) {
    && GoodDisk(digest, d, st)
    && (p.Up? ==> p.seqNo == |st.history| && p.head == Head(st.history))
    && (p.Up? && p.handle ==> d.live.Some? && (Clean(d, st) <==> p.size == FileBytes(d.live.value)))
    && (p.Up? && !p.handle ==> p.size >= maxBytes && Clean(d, st))
  }

  /** Any process reports the last record there is; a dead one reports nothing. */
  lemma GoodReopen(digest: Digest, maxBytes: Pos, d: Disk, st: Story, last: Option<Record>)
    requires GoodLog(digest, maxBytes, d, Down, st)
    requires last == Last(Records(Repaired(d)))
    ensures NoJunk(LiveLines(d))
    ensures GoodLog(digest, maxBytes, Created(d), Down, st) && GoodLog(digest, maxBytes, Repaired(d), Down, st)
    ensures var p := if last.None? then Up(true, Bytes(LiveLines(d)), 0, "")
                     else Up(true, Bytes(LiveLines(d)), last.value.seqNo, last.value.digest);
      GoodLog(digest, maxBytes, Repaired(d), p, Counted(st)) && Clean(Repaired(d), Counted(st))
  {
    hide GoodDisk, Records;
    RepairedStaysGood(digest, d, st);
    CountedNumbers(digest, d, st);
  }

  lemma CountedNumbers(digest: Digest, d: Disk, st: Story)
    requires GoodDisk(digest, d, st)
    ensures NoJunk(LiveLines(d))
    ensures var all := Counted(st).history; all != [] ==> all[|all| - 1].seqNo == |all|
  {
    var all := Counted(st).history;
    if all != [] { LinkedNumbers(digest, all, |all| - 1); }
  }

  /** The next record, however much of it lands, leaves a good disk, and a rollback undoes it. */
  lemma GoodAppend(digest: Digest, maxBytes: Pos, d: Disk, p: Process, st: Story, r: Record, bytes: Pos, k: nat)
    requires GoodLog(digest, maxBytes, d, p, st) && Clean(d, st) && p.Up? && p.handle
    requires r.seqNo == p.seqNo + 1 && r.prev == p.head && r.digest == digest(r) && k <= bytes
    ensures d.live.Some?
    ensures var f := Landed(d.live.value, r, bytes, k);
      var d', st' := d.(live := Some(f)), st.(stray := if k == bytes then [r] else []);
      && Truncate(f, p.size) == d.live.value
      && GoodLog(digest, maxBytes, d', Down, st') && GoodLog(digest, maxBytes, d', p, st')
  {
    hide GoodDisk;
    NextInChain(digest, d, st, r);
    LandedStaysGood(digest, d, st, r, bytes, k);
    RollbackUndoes(LiveLines(d), r, bytes, k);
  }

  lemma NextInChain(digest: Digest, d: Disk, st: Story, r: Record)
    requires GoodDisk(digest, d, st) && Clean(d, st)
    requires r.seqNo == |st.history| + 1 && r.prev == Head(st.history) && r.digest == digest(r)
    ensures FromStart(digest, st.history + [r])
  {
    assert st.history + [] == st.history;
    ExtendFromStart(digest, st.history, r);
  }

  /** Once the whole line is durable the record counts, and the writer moves on to it. */
  lemma GoodAck(digest: Digest, maxBytes: Pos, d: Disk, p: Process, st: Story, r: Record, bytes: Pos)
    requires GoodLog(digest, maxBytes, d, p, st) && Clean(d, st) && p.Up? && p.handle
    requires r.seqNo == p.seqNo + 1 && r.prev == p.head && r.digest == digest(r)
    ensures var d', st' := d.(live := Some(Landed(d.live.value, r, bytes, bytes))), Counted(st.(stray := [r]));
      && Clean(d', st')
      && GoodLog(digest, maxBytes, d', Up(true, p.size + bytes, r.seqNo, r.digest), st')
  {
    hide GoodDisk, Truncate, RecordsOf, Bytes, FileBytes, Landed, FromStart;
    var d', st' := d.(live := Some(Landed(d.live.value, r, bytes, bytes))), Counted(st.(stray := [r]));
    GoodAppend(digest, maxBytes, d, p, st, r, bytes, bytes);
    CountedStaysGood(digest, d', st.(stray := [r]));
    assert st'.history == st.history + [r];
    LandsWhole(d.live.value, r, bytes);
  }

  lemma LandsWhole(f: File, r: Record, bytes: Pos)
    requires f.tail.None?
    ensures Landed(f, r, bytes, bytes) == File(f.lines + [Rec(r, bytes)], None)
    ensures FileBytes(Landed(f, r, bytes, bytes)) == FileBytes(f) + bytes
  {
    BytesGrow(f.lines, Rec(r, bytes));
  }

  lemma GoodHandle(digest: Digest, maxBytes: Pos, d: Disk, p: Process, st: Story)
    requires GoodLog(digest, maxBytes, d, p, st) && p.Up? && p.size < maxBytes
    ensures p.handle
  {
  }

  lemma GoodClose(digest: Digest, maxBytes: Pos, d: Disk, p: Process, st: Story)
    requires GoodLog(digest, maxBytes, d, p, st) && Clean(d, st) && p.Up? && p.size >= maxBytes
    ensures GoodLog(digest, maxBytes, d, Down, st) && GoodLog(digest, maxBytes, d, p.(handle := false), st)
  {
  }

  /** A full live file is renamed away; the chain goes on in the writer, not in the file. */
  lemma GoodRotate(digest: Digest, maxBytes: Pos, d: Disk, p: Process, st: Story, stamp: int)
    requires GoodLog(digest, maxBytes, d, p, st) && Clean(d, st) && p.Up? && p.handle && p.size >= maxBytes
    requires Newer(stamp, d.rotated)
    ensures d.live.Some? && Clean(Rotated(d, stamp, None), st) && Clean(Rotated(d, stamp, Some(EMPTY)), st)
    ensures GoodLog(digest, maxBytes, Rotated(d, stamp, None), p.(handle := false), st)
    ensures GoodLog(digest, maxBytes, Rotated(d, stamp, None), Down, st)
    ensures GoodLog(digest, maxBytes, Rotated(d, stamp, Some(EMPTY)), p.(size := 0), st)
    ensures Rotated(d, stamp, None).rotated == d.rotated + [Segment(stamp, d.live.value)]
    ensures Rotated(d, stamp, Some(EMPTY)).rotated == d.rotated + [Segment(stamp, d.live.value)]
  {
    RotatedStaysGood(digest, d, st, stamp, None);
    RotatedStaysGood(digest, d, st, stamp, Some(EMPTY));
  }

  lemma GoodPrune(digest: Digest, maxBytes: Pos, d: Disk, p: Process, st: Story)
    requires GoodLog(digest, maxBytes, d, p, st) && Clean(d, st) && |d.rotated| > 1
    ensures GoodLog(digest, maxBytes, PrunedDisk(d), p, PrunedStory(d, st)) && Clean(PrunedDisk(d), PrunedStory(d, st))
  {
    PrunedStaysGood(digest, d, st);
  }

  lemma NewerThanAll(rotated: seq<Segment>, s: Segment, k: nat)
    requires Newer(s.stamp, rotated) && k <= |rotated| + 1
    ensures Newer(s.stamp + 1, rotated + [s]) && Newer(s.stamp + 1, (rotated + [s])[k..])
  {
  }

  lemma NothingYet(digest: Digest, maxBytes: Pos)
    ensures GoodLog(digest, maxBytes, Disk([], None), Down, Story([], 0, []))
  {
  }

  // ---------------------------------------------------------------- what pruning may take

  /**
   The listing is the segments ever rotated, each still as it was renamed, without the oldest
   `gone`; the dropped records are exactly theirs; and some were removed only beyond `keep`.
   */
  ghost predicate Shelved(keep: Pos, rotated: seq<Segment>, history: seq<Record>, dropped: nat,
                          archive: seq<Segment>, gone: nat) {
    && gone <= |archive| && rotated == archive[gone..]
    && dropped <= |history| && history[..dropped] == RecordsOf(ScanAll(archive[..gone]))
    && (gone > 0 ==> |rotated| >= keep)
  }

  lemma NothingShelved(keep: Pos)
    ensures Shelved(keep, [], [], 0, [], 0)
  {
  }

  lemma ShelvedAnother(keep: Pos, rotated: seq<Segment>, history: seq<Record>, dropped: nat,
                       archive: seq<Segment>, gone: nat, s: Segment)
    requires Shelved(keep, rotated, history, dropped, archive, gone)
    ensures Shelved(keep, rotated + [s], history, dropped, archive + [s], gone)
  {
    assert (archive + [s])[..gone] == archive[..gone];
  }

  lemma ShelvedLonger(keep: Pos, rotated: seq<Segment>, history: seq<Record>, dropped: nat,
                      archive: seq<Segment>, gone: nat, more: seq<Record>)
    requires Shelved(keep, rotated, history, dropped, archive, gone)
    ensures Shelved(keep, rotated, history + more, dropped, archive, gone)
  {
    assert (history + more)[..dropped] == history[..dropped];
  }

  lemma ShelvedFewer(digest: Digest, keep: Pos, d: Disk, st: Story, archive: seq<Segment>, gone: nat)
    requires GoodDisk(digest, d, st) && st.stray == [] && |d.rotated| > keep
    requires Shelved(keep, d.rotated, st.history, st.dropped, archive, gone)
    ensures Shelved(keep, PrunedDisk(d).rotated, st.history, PrunedStory(d, st).dropped, archive, gone + 1)
  {
    hide ScanAll, RecordsOf, Scan, GoodShape, FromStart;
    var first, rest := RecordsOf(Scan(d.rotated[0].file)), Complete(PrunedDisk(d));
    assert archive[gone] == d.rotated[0] && archive[gone..][1..] == archive[gone + 1..];
    assert st.history[st.dropped..] == first + rest by {
      OldestFirst(d);
      assert st.history[st.dropped..] + [] == st.history[st.dropped..];
    }
    TakesPrefix(st.history, st.dropped, first, rest);
    ScanAllStep(archive, gone);
    RecordsOfConcat(ScanAll(archive[..gone]), Scan(archive[gone].file));
  }

  lemma TakesPrefix<T>(h: seq<T>, k: nat, x: seq<T>, y: seq<T>)
    requires k <= |h| && h[k..] == x + y
    ensures k + |x| <= |h| && h[..k + |x|] == h[..k] + x
  {
    assert h == h[..k] + (x + y);
  }

  lemma RemovesOldest(digest: Digest, maxBytes: Pos, keep: Pos, d: Disk, p: Process, st: Story,
                      archive: seq<Segment>, gone: nat)
    requires GoodLog(digest, maxBytes, d, p, st) && Clean(d, st) && |d.rotated| > keep
    requires Shelved(keep, d.rotated, st.history, st.dropped, archive, gone)
    ensures Shelved(keep, PrunedDisk(d).rotated, st.history, PrunedStory(d, st).dropped, archive, gone + 1)
  {
    ShelvedFewer(digest, keep, d, st, archive, gone);
  }

  class MutationLog {
    const digest: Digest
    const maxBytes: Pos
    const keep: Pos

    var disk: Disk

    var up: bool
    var handle: bool
    var size: nat
    var seqNo: nat
    var head: string

    ghost var story: Story
    // Every segment ever rotated, as it was renamed, and how many of the oldest have been removed.
    ghost var archive: seq<Segment>
    ghost var gone: nat

    ghost function Proc(): Process
      reads this
    {
      if up then Up(handle, size, seqNo, head) else Down
    }

    ghost predicate Valid()
      reads this
    {
      && GoodLog(digest, maxBytes, disk, Proc(), story)
      && Shelved(keep, disk.rotated, story.history, story.dropped, archive, gone)
    }

    constructor (digest: Digest, maxBytes: int, keep: int)
      ensures Valid() && !up && story == Story([], 0, []) && disk == Disk([], None) && archive == [] && gone == 0
      ensures this.digest == digest
      ensures this.maxBytes == if maxBytes <= 0 then DEFAULT_MAX_BYTES else maxBytes
      ensures this.keep == if keep <= 0 then DEFAULT_KEEP else keep
    {
      hide Shelved, GoodLog;
      this.digest := digest;
      this.maxBytes := if maxBytes <= 0 then DEFAULT_MAX_BYTES else maxBytes;
      this.keep := if keep <= 0 then DEFAULT_KEEP else keep;
      disk, up, handle, size, seqNo, head := Disk([], None), false, false, 0, 0, "";
      story, archive, gone := Story([], 0, []), [], 0;
      new;
      NothingYet(digest, this.maxBytes);
      NothingShelved(this.keep);
    }

    /** Opens or creates the log, repairs a torn tail and recovers the head. */
    method Open(fate: OpenFate)
      requires Valid() && !up
      modifies this
      ensures Valid()
      ensures up <==> fate.Opens?
      ensures up ==> handle && Clean(disk, story) && story == old(Counted(story))
      ensures !up ==> story == old(story)
      ensures disk.rotated == old(disk.rotated) && archive == old(archive) && gone == old(gone)
    {
      hide Shelved, GoodLog, Records, Bytes, NoJunk;
      if fate.FailsAtOnce? { return; }
      ghost var d := disk;
      GoodReopen(digest, maxBytes, d, story, Last(Records(Repaired(d))));
      disk := disk.(live := Some(if disk.live.Some? then disk.live.value else EMPTY));
      if fate.FailsAfterCreate? { return; }

      var repaired := TruncateTornTail(disk.live.value);
      disk := disk.(live := Some(repaired));
      assert disk == Repaired(d);
      if fate.FailsAfterRepair? { return; }

      size := Bytes(repaired.lines);
      seqNo, head := 0, "";
      var last := RecoverHead(disk);
      if last.Some? {
        seqNo, head := last.value.seqNo, last.value.digest;
      }
      up, handle := true, true;
      ShelvedLonger(keep, disk.rotated, story.history, story.dropped, archive, gone, story.stray);
      story := Counted(story);
    }

    /** The process is gone, between two calls. */
    method Kill()
      requires Valid()
      modifies `up
      ensures Valid() && !up
    {
      up := false;
    }

    /** What the backend anchors: the current digest and the record count. */
    method GetHead() returns (digest: string, count: nat)
      requires Valid() && up
      ensures digest == Head(story.history) && count == |story.history|
    {
      digest, count := head, seqNo;
    }

    /** Removes the oldest segments beyond `keep`, stopping early after `limit` of them. */
    method Prune(limit: nat)
      requires Valid() && Clean(disk, story)
      modifies `disk, `story, `gone
      ensures Valid() && Clean(disk, story)
      ensures story.history == old(story.history)
      ensures disk.live == old(disk.live)
      ensures 0 <= gone - old(gone) <= |old(disk.rotated)| && disk.rotated == old(disk.rotated)[gone - old(gone)..]
      ensures gone > old(gone) ==> |disk.rotated| >= keep
      ensures old(|disk.rotated|) - keep <= limit ==> |disk.rotated| <= keep
    {
      hide Shelved, GoodLog, Clean;
      var n := |disk.rotated| - keep;
      var i := 0;
      while i < n && i < limit
        invariant 0 <= i <= |old(disk.rotated)| && (i == 0 || i <= n)
        invariant Valid() && Clean(disk, story)
        invariant disk == old(disk).(rotated := old(disk.rotated)[i..])
        invariant story.history == old(story.history) && gone == old(gone) + i
      {
        GoodPrune(digest, maxBytes, disk, Proc(), story);
        RemovesOldest(digest, maxBytes, keep, disk, Proc(), story, archive, gone);
        story := PrunedStory(disk, story);
        disk := PrunedDisk(disk);
        gone := gone + 1;
        i := i + 1;
      }
    }

    /** Rolls a full live file over, and reports whether the append may go on. */
    method RotateIfNeeded(stamp: int, fate: RotateFate) returns (ok: bool)
      requires Valid() && up && Clean(disk, story) && Newer(stamp, disk.rotated)
      modifies this
      ensures Valid() && Clean(disk, story)
      ensures story.history == old(story.history) && old(gone) <= gone
      ensures archive != old(archive) ==> old(disk.live).Some?
      ensures archive != old(archive) ==> archive == old(archive) + [Segment(stamp, old(disk.live).value)]
      ensures gone > old(gone) ==> |disk.rotated| >= keep
      ensures ok && archive != old(archive) ==> |disk.rotated| <= keep
      ensures old(size) < maxBytes ==> unchanged(this)
      ensures ok && old(size) >= maxBytes ==> archive != old(archive)
      ensures ok ==> up && handle && size < maxBytes
      ensures ok <==> old(size) < maxBytes || (old(handle) && fate.Rotates?)
      ensures old(handle) && KeepsFile(fate) ==> up && handle
      ensures Newer(stamp + 1, disk.rotated)
    {
      hide Shelved, GoodLog, Clean;
      if size < maxBytes {
        GoodHandle(digest, maxBytes, disk, Proc(), story);
        return true;
      }
      GoodClose(digest, maxBytes, disk, Proc(), story);
      // A closed descriptor cannot be synced.
      if !handle || fate.RotateSyncFails? { return false; }
      if fate.DiesBeforeRename? { up := false; return false; }
      if fate.CloseFails? { handle := false; return false; }
      if fate.RenameFails? { handle := fate.reopened; return false; }

      ok := RollOver(stamp, fate);
    }

    /** The rename, the new live file and the prune. */
    method RollOver(stamp: int, fate: RotateFate) returns (ok: bool)
      requires Valid() && up && handle && size >= maxBytes && Clean(disk, story) && Newer(stamp, disk.rotated)
      modifies this
      ensures Valid() && Clean(disk, story)
      ensures story.history == old(story.history) && old(gone) <= gone
      ensures old(disk.live).Some? && archive == old(archive) + [Segment(stamp, old(disk.live).value)]
      ensures gone > old(gone) ==> |disk.rotated| >= keep
      ensures ok ==> |disk.rotated| <= keep
      ensures ok ==> up && handle && size == 0
      ensures KeepsFile(fate) ==> up && handle
      ensures ok <==> !(fate.DiesAfterRename? || fate.ReopenFails? || fate.PruneFails? || fate.DiesPruning?)
      ensures Newer(stamp + 1, disk.rotated)
    {
      hide Shelved, GoodLog, Clean, Newer, Place;
      GoodRotate(digest, maxBytes, disk, Proc(), story, stamp);
      ghost var segment := Segment(stamp, disk.live.value);
      ghost var listed := disk.rotated;
      NewerThanAll(listed, segment, 0);
      ShelvedAnother(keep, disk.rotated, story.history, story.dropped, archive, gone, segment);
      disk := Rotated(disk, stamp, None);
      archive := archive + [segment];
      if fate.DiesAfterRename? { up := false; return false; }
      if fate.ReopenFails? { handle := false; return false; }
      disk := disk.(live := Some(EMPTY));
      size := 0;
      var limit := if fate.PruneFails? || fate.DiesPruning? then fate.removed else |disk.rotated|;
      Prune(limit);
      NewerThanAll(listed, segment, gone - old(gone));
      if fate.DiesPruning? { Kill(); }
      ok := !fate.PruneFails? && !fate.DiesPruning?;
    }

    /** Writes one line, makes it durable, and cuts it back when either fails. */
    method Write(r: Record, bytes: Pos, fate: AppendFate) returns (ok: bool)
      requires Valid() && up && handle && Clean(disk, story)
      requires r.seqNo == seqNo + 1 && r.prev == head && r.digest == digest(r)
      modifies this
      ensures Valid() && disk.rotated == old(disk.rotated) && archive == old(archive) && gone == old(gone)
      ensures ok <==> fate.Lands?
      ensures ok ==> up && Clean(disk, story) && story.history == old(story.history) + [r]
      ensures !ok ==> story.history == old(story.history)
      ensures up && !LeavesResidue(fate) ==> Clean(disk, story)
      ensures handle == old(handle) && (up <==> !fate.Dies?)
      ensures up && !ok && !LeavesResidue(fate) ==> disk == old(disk) && size == old(size)
    {
      hide Shelved, GoodLog;
      var k := if (fate.WriteFails? || fate.Dies?) && fate.landed < bytes then fate.landed else bytes;
      GoodAppend(digest, maxBytes, disk, Proc(), story, r, bytes, k);
      GoodAck(digest, maxBytes, disk, Proc(), story, r, bytes);
      disk := disk.(live := Some(Landed(disk.live.value, r, bytes, k)));
      story := story.(stray := if k == bytes then [r] else []);
      ok := false;
      match fate
      case Lands =>
        size, seqNo, head := size + bytes, r.seqNo, r.digest;
        ShelvedLonger(keep, disk.rotated, story.history, story.dropped, archive, gone, story.stray);
        story := Counted(story);
        ok := true;
      case Dies(_) =>
        up := false;
      case WriteFails(_, _) | SyncFails(_) =>
        if fate.undone {
          disk := disk.(live := Some(Truncate(disk.live.value, size)));
          story := story.(stray := []);
        }
    }

    /** Appends one record and acknowledges it only once it is durable. */
    method Append(operation: string, subject: string, actor: string, callId: string, outcome: string,
                  at: string, bytes: Pos, stamp: int, rotate: RotateFate, fate: AppendFate)
      returns (acked: Option<Record>)
      requires ExcludesItself(digest)
      requires Valid() && up && Clean(disk, story) && Newer(stamp, disk.rotated)
      modifies this
      ensures Valid()
      ensures acked.Some? <==> (old(size) < maxBytes || (old(handle) && rotate.Rotates?)) && fate.Lands?
      ensures acked.None? ==> story.history == old(story.history)
      ensures acked.Some? ==> up && Clean(disk, story) && story.history == old(story.history) + [acked.value]
      ensures acked.Some? ==> handle && Describes(Entry(operation, subject, actor, callId, outcome), at, acked.value)
      ensures old(handle) && KeepsFile(rotate) && !fate.Dies? ==> up && handle
      ensures old(gone) <= gone
      ensures archive != old(archive) ==> old(disk.live).Some?
      ensures archive != old(archive) ==> archive == old(archive) + [Segment(stamp, old(disk.live).value)]
      ensures gone > old(gone) ==> |disk.rotated| >= keep
      ensures up && !LeavesResidue(fate) ==> Clean(disk, story)
      ensures Newer(stamp + 1, disk.rotated)
    {
      hide Shelved, GoodLog, Clean;
      acked := None;
      var ok := RotateIfNeeded(stamp, rotate);
      if ok {
        var r := Record(seqNo + 1, at, operation, subject, actor, callId, outcome, head, "");
        r := r.(digest := digest(r));
        ok := Write(r, bytes, fate);
        if ok {
          acked := Some(r);
        }
      }
    }

    /** One step of a run, and the record it acknowledged. */
    method Take(step: Step) returns (acked: Option<Record>)
      requires ExcludesItself(digest)
      requires Valid() && (up && step.Append? ==> Clean(disk, story))
      requires (step.Append? ==> Newer(step.stamp, disk.rotated))
      modifies this
      ensures Valid()
      ensures old(up ==> Clean(disk, story)) && up && !Clean(disk, story) ==> !Settles(step)
      ensures step.Kill? ==> !up
      ensures acked.Some? ==> step.Append? && step.fate.Lands? && old(up) && Describes(step.entry, step.at, acked.value)
      ensures forall k :: Stands(k, old(up), old(handle), old(Clean(disk, story))) ==>
        Stands(Next(k, step), up, handle, Clean(disk, story)) && (Acknowledges(k, step) ==> acked.Some?)
      ensures if step.Append? then Newer(step.stamp + 1, disk.rotated) else disk.rotated == old(disk.rotated)
      ensures old(story.history) <= story.history && old(gone) <= gone
      ensures archive == old(archive) || (step.Append? && old(disk.live).Some? &&
        archive == old(archive) + [Segment(step.stamp, old(disk.live).value)])
      ensures gone > old(gone) ==> |disk.rotated| >= keep
      ensures acked.Some? ==>
        story.history == old(story.history) + [acked.value] && acked.value.seqNo == |story.history|
    {
      hide Shelved, GoodLog, Clean;
      acked := None;
      match step
      case Kill =>
        Kill();
      case Open(fate) =>
        if !up { Open(fate); }
      case Append(e, at, bytes, stamp, rotate, fate) =>
        if up {
          acked := Append(e.operation, e.subject, e.actor, e.callId, e.outcome, at, bytes, stamp, rotate, fate);
          if acked.Some? { NumberedInOrder(digest, maxBytes, disk, Proc(), story, acked.value); }
        }
    }

    /**
     Any run of opens, appends and deaths. The clock rises, and where a rollback failed the
     process is restarted before it appends again.
     */
    method Run(steps: seq<Step>) returns (acked: seq<Option<Record>>, counts: seq<nat>)
      requires ExcludesItself(digest)
      requires Valid() && (up ==> Clean(disk, story))
      requires ClockRises(steps)
      requires (forall i :: 0 <= i < |steps| && steps[i].Append? ==> Newer(steps[i].stamp, disk.rotated))
      requires RestartsAfterResidue(steps)
      modifies this
      // Writer, recovery and verifier agree.
      ensures Valid()
      ensures Verifies(digest, disk) <==> !(LiveTail(disk).Some? && LiveTail(disk).value.Junk?)
      ensures up && (steps != [] ==> Settles(steps[|steps| - 1])) ==> Verifies(digest, disk)
      // A segment once rotated is still listed as it was, or among the oldest, removed beyond `keep`.
      ensures old(archive) <= archive && old(gone) <= gone <= |archive| && disk.rotated == archive[gone..]
      ensures gone > 0 ==> |disk.rotated| >= keep
      // What was acknowledged is still there, unless its whole segment was removed.
      ensures old(story.history) <= story.history && Kept(acked, story.history)
      ensures forall a :: a in acked && a.Some? ==>
        a.value in Records(disk) || a.value in RecordsOf(ScanAll(archive[..gone]))
      // An acknowledgement answers its own append, and a writer that is up with its file gives one for every
      // append that rotates and lands; a failed one costs nothing but itself.
      ensures Answered(if old(up && handle) then Ready else if old(up) then Unsure else Gone, steps, acked)
      // The count reported after each step while the process was up.
      ensures up && steps != [] ==> counts != [] && counts[|counts| - 1] == |story.history|
      ensures forall i, j :: 0 <= i < j < |counts| ==> counts[i] <= counts[j]
    {
      hide Shelved, GoodLog, Newer, Clean, LiveTail, Records, Verifies, Kept, Answered, After, Acknowledges, Describes;
      hide Stands, Next, RecordsOf, ScanAll;
      acked, counts := [], [];
      ghost var start := if up && handle then Ready else if up then Unsure else Gone;
      NothingAcked(story.history);
      NothingAnswered(start);
      for i := 0 to |steps|
        invariant Valid()
        invariant up && !Clean(disk, story) ==> i > 0 && !Settles(steps[i - 1])
        invariant forall j :: i <= j < |steps| && steps[j].Append? ==> Newer(steps[j].stamp, disk.rotated)
        invariant old(story.history) <= story.history && old(archive) <= archive && old(gone) <= gone
        invariant Kept(acked, story.history)
        invariant Stands(After(start, steps[..i]), up, handle, Clean(disk, story))
        invariant Answered(start, steps[..i], acked)
        invariant forall k :: 0 <= k < |counts| ==> counts[k] <= |story.history|
        invariant up && i > 0 ==> counts != [] && counts[|counts| - 1] == |story.history|
        invariant forall k, j :: 0 <= k < j < |counts| ==> counts[k] <= counts[j]
      {
        ghost var before := story.history;
        var r := Take(steps[i]);
        StillKept(acked, before, story.history, r);
        AnsweredStep(start, steps, i, acked, r);
        acked := acked + [r];
        if steps[i].Append? { StillNewer(steps, i, disk.rotated); }
        if up {
          var _, count := GetHead();
          counts := counts + [count];
        }
      }
      assert steps[..|steps|] == steps;
      RunEnds(digest, maxBytes, keep, disk, Proc(), story, acked, archive, gone);
    }
  }

  // ---------------------------------------------------------------- runs

  datatype Entry = Entry(operation: string, subject: string, actor: string, callId: string, outcome: string)

  datatype Step =
    | Open(open: OpenFate)
    | Append(entry: Entry, at: string, bytes: Pos, stamp: int, rotate: RotateFate, fate: AppendFate)
    | Kill

  /** The step leaves nothing behind that the process does not know about. */
  predicate Settles(s: Step) {
    s.Append? ==> !LeavesResidue(s.fate)
  }

  ghost predicate ClockRises(steps: seq<Step>) {
    forall i, j :: 0 <= i < j < |steps| && steps[i].Append? && steps[j].Append? ==> steps[i].stamp < steps[j].stamp
  }

  ghost predicate RestartsAfterResidue(steps: seq<Step>) {
    forall i, j :: 0 <= i < j < |steps| && j == i + 1 && !Settles(steps[i]) ==> steps[j].Kill?
  }

  /** Every listed record still stands in the history, at its own number. */
  ghost predicate Kept(acked: seq<Option<Record>>, history: seq<Record>) {
    forall a :: a in acked && a.Some? ==> 0 < a.value.seqNo <= |history| && history[a.value.seqNo - 1] == a.value
  }

  /** The record says what the append was given. */
  predicate Describes(e: Entry, at: string, r: Record) {
    && r.operation == e.operation && r.subject == e.subject && r.actor == e.actor
    && r.callId == e.callId && r.outcome == e.outcome && r.at == at
  }

  // ---------------------------------------------------------------- when an append is acknowledged

  /** What is known of the writer from the steps alone: up with its file, gone, or neither for certain. */
  datatype Writer = Ready | Gone | Unsure

  /** A rotation that, however it ends, leaves the process up with a file to write to. */
  predicate KeepsFile(fate: RotateFate) {
    fate.Rotates? || fate.RotateSyncFails? || (fate.RenameFails? && fate.reopened) || fate.PruneFails?
  }

  function Next(k: Writer, s: Step): Writer {
    match s
    case Kill => Gone
    case Open(fate) => if k.Gone? && fate.Opens? then Ready else k
    case Append(_, _, _, _, rotate, fate) =>
      if k.Ready? && (fate.Dies? || LeavesResidue(fate) || !KeepsFile(rotate)) then Unsure else k
  }

  function After(k: Writer, steps: seq<Step>): Writer {
    if steps == [] then k else Next(After(k, steps[..|steps| - 1]), steps[|steps| - 1])
  }

  /** An append that a writer in this standing acknowledges for certain. */
  predicate Acknowledges(k: Writer, s: Step) {
    k.Ready? && s.Append? && s.rotate.Rotates? && s.fate.Lands?
  }

  /** Every acknowledgement answers its own append, and every append that is acknowledged for certain has one. */
  ghost predicate Answered(start: Writer, steps: seq<Step>, acked: seq<Option<Record>>) {
    |acked| == |steps| && forall i :: 0 <= i < |steps| ==> Answers(After(start, steps[..i]), steps[i], acked[i])
  }

  ghost predicate Answers(k: Writer, s: Step, r: Option<Record>) {
    && (r.Some? ==> s.Append? && s.fate.Lands? && Describes(s.entry, s.at, r.value))
    && (Acknowledges(k, s) ==> r.Some?)
  }

  lemma NothingAnswered(start: Writer)
    ensures Answered(start, [], []) && After(start, []) == start
    ensures start.Ready? ==> Stands(start, true, true, true)
    ensures start.Gone? ==> forall h, c :: Stands(start, false, h, c)
    ensures start.Unsure? ==> forall u, h, c :: Stands(start, u, h, c)
  {
  }

  lemma AnsweredStep(start: Writer, steps: seq<Step>, i: nat, acked: seq<Option<Record>>, r: Option<Record>)
    requires i < |steps| && Answered(start, steps[..i], acked) && Answers(After(start, steps[..i]), steps[i], r)
    ensures Answered(start, steps[..i + 1], acked + [r])
    ensures After(start, steps[..i + 1]) == Next(After(start, steps[..i]), steps[i])
  {
    assert steps[..i + 1] == steps[..i] + [steps[i]];
    AnsweredOneMore(start, steps[..i], acked, steps[i], r);
    assert steps[..i + 1][..i] == steps[..i];
  }

  lemma AnsweredOneMore(start: Writer, front: seq<Step>, acked: seq<Option<Record>>, s: Step, r: Option<Record>)
    requires Answered(start, front, acked) && Answers(After(start, front), s, r)
    ensures Answered(start, front + [s], acked + [r])
  {
    hide Answers, After;
    var all, n := front + [s], |front|;
    forall j | 0 <= j <= n ensures Answers(After(start, all[..j]), all[j], (acked + [r])[j]) {
      assert all[..j] == front[..j];
      if j == n { assert front[..n] == front; }
    }
  }

  ghost predicate Stands(k: Writer, up: bool, handle: bool, clean: bool) {
    (k.Ready? ==> up && handle && clean) && (k.Gone? ==> !up)
  }

  lemma StillNewer(steps: seq<Step>, i: nat, rotated: seq<Segment>)
    requires ClockRises(steps) && i < |steps| && steps[i].Append? && Newer(steps[i].stamp + 1, rotated)
    ensures forall j :: i < j < |steps| && steps[j].Append? ==> Newer(steps[j].stamp, rotated)
  {
  }

  lemma NumberedInOrder(digest: Digest, maxBytes: Pos, d: Disk, p: Process, st: Story, r: Record)
    requires GoodLog(digest, maxBytes, d, p, st)
    requires st.history != [] && st.history[|st.history| - 1] == r
    ensures r.seqNo == |st.history|
  {
    LinkedNumbers(digest, st.history + st.stray, |st.history| - 1);
  }

  lemma NothingAcked(history: seq<Record>)
    ensures Kept([], history)
  {
  }

  lemma StillKept(acked: seq<Option<Record>>, was: seq<Record>, now: seq<Record>, r: Option<Record>)
    requires Kept(acked, was) && was <= now
    requires r.Some? ==> now == was + [r.value] && r.value.seqNo == |now|
    ensures Kept(acked + [r], now)
  {
  }

  lemma RunEnds(digest: Digest, maxBytes: Pos, keep: Pos, d: Disk, p: Process, st: Story, acked: seq<Option<Record>>,
                archive: seq<Segment>, gone: nat)
    requires GoodLog(digest, maxBytes, d, p, st) && Kept(acked, st.history)
    requires Shelved(keep, d.rotated, st.history, st.dropped, archive, gone)
    ensures gone <= |archive| && d.rotated == archive[gone..] && (gone > 0 ==> |d.rotated| >= keep)
    ensures Verifies(digest, d) <==> !(LiveTail(d).Some? && LiveTail(d).value.Junk?)
    ensures Clean(d, st) ==> Verifies(digest, d)
    ensures forall a :: a in acked && a.Some? ==>
      a.value in Records(d) || a.value in RecordsOf(ScanAll(archive[..gone]))
  {
    hide GoodDisk, Verifies, Records, ScanAll, RecordsOf;
    GoodDiskVerifies(digest, d, st);
    forall a | a in acked && a.Some?
      ensures a.value in Records(d) || a.value in RecordsOf(ScanAll(archive[..gone]))
    {
      HoldsHistory(digest, d, st);
      Survives(d, st, RecordsOf(ScanAll(archive[..gone])), a.value);
    }
  }

  lemma HoldsHistory(digest: Digest, d: Disk, st: Story)
    requires GoodDisk(digest, d, st)
    ensures st.dropped <= |st.history| && Complete(d) == st.history[st.dropped..] + st.stray
  {
  }

  lemma Survives(d: Disk, st: Story, removed: seq<Record>, r: Record)
    requires st.dropped <= |st.history| && Complete(d) == st.history[st.dropped..] + st.stray
    requires removed == st.history[..st.dropped]
    requires 0 < r.seqNo <= |st.history| && st.history[r.seqNo - 1] == r
    ensures r in Records(d) || r in removed
  {
    hide Complete, Records;
    if r.seqNo > st.dropped {
      assert Complete(d)[r.seqNo - 1 - st.dropped] == r;
      CompleteIsRead(d, r);
    } else {
      assert removed[r.seqNo - 1] == r;
    }
  }

  lemma CompleteIsRead(d: Disk, r: Record)
    requires r in Complete(d)
    ensures r in Records(d)
  {
    RecordsOfConcat(ScanAll(d.rotated), LiveScan(d));
    if d.live.Some? && d.live.value.tail.Some? { BytesGrow(LiveLines(d), d.live.value.tail.value); }
  }

  predicate LeavesResidue(fate: AppendFate) {
    match fate
    case WriteFails(_, undone) => !undone
    case SyncFails(undone) => !undone
    case _ => false
  }

  // ---------------------------------------------------------------- what the two assumptions are worth

  /**
   An append on top of a failed rollback is acknowledged and breaks the log: the log goes on
   verifying exactly when nothing was left behind.
   */
  lemma AppendOnResidue(digest: Digest, d: Disk, st: Story, r: Record, bytes: Pos)
    requires GoodDisk(digest, d, st) && d.live.Some?
    requires r.seqNo == |st.history| + 1 && r.prev == Head(st.history) && r.digest == digest(r)
    ensures Verifies(digest, d.(live := Some(Landed(d.live.value, r, bytes, bytes)))) <==> Clean(d, st)
  {
    var d' := d.(live := Some(Landed(d.live.value, r, bytes, bytes)));
    if Clean(d, st) {
      NextInChain(digest, d, st, r);
      LandedStaysGood(digest, d, st, r, bytes, bytes);
      GoodDiskVerifies(digest, d', st.(stray := [r]));
    } else if LiveTail(d).Some? {
      var n := |AllLines(d')| - 1;
      assert AllLines(d')[n].Junk?;
    } else {
      StrayRepeated(digest, d, st, r, bytes);
    }
  }

  /**
   The writer can tell: whatever a failed append left, the next one keeps the log verifying
   exactly when the file is as long as the writer remembers.
   */
  lemma AppendNeedsSize(digest: Digest, maxBytes: Pos, d: Disk, p: Process, st: Story, r: Record, bytes: Pos)
    requires GoodLog(digest, maxBytes, d, p, st) && p.Up? && p.handle
    requires r.seqNo == p.seqNo + 1 && r.prev == p.head && r.digest == digest(r)
    ensures d.live.Some?
    ensures Verifies(digest, d.(live := Some(Landed(d.live.value, r, bytes, bytes)))) <==>
      FileBytes(d.live.value) == p.size
  {
    AppendOnResidue(digest, d, st, r, bytes);
  }

  /** One such input: an fsync fails, the rollback fails, and the same number is written twice. */
  lemma ResidueExample()
    ensures var left := Landed(EMPTY, Numbered(1), 10, 10);
      && Verifies(SAME, Disk([], Some(left))) && FileBytes(left) != FileBytes(EMPTY)
      && !Verifies(SAME, Disk([], Some(Landed(left, Numbered(1), 10, 10))))
  {
    hide Landed, FileBytes, RecordsOf, Bytes, AllLines, Records;
    var line := Rec(Numbered(1), 10);
    LandsWhole(EMPTY, Numbered(1), 10);
    LandsWhole(File([] + [line], None), Numbered(1), 10);
    BytesGrow([], line);
    BytesGrow([] + [line], line);
    NoRecords();
    OnlyLive(File([] + [line], None));
    OnlyLive(File([] + [line] + [line], None));
    LinkedStep(SAME, [] + [Numbered(1)], Numbered(1));
  }

  /** A digest for examples. */
  const SAME: Digest := (r: Record) => "x"

  lemma OnlyLive(f: File)
    requires f.tail.None?
    ensures AllLines(Disk([], Some(f))) == f.lines && Records(Disk([], Some(f))) == RecordsOf(f.lines)
  {
    assert [] + f.lines == f.lines;
  }

  lemma StrayRepeated(digest: Digest, d: Disk, st: Story, r: Record, bytes: Pos)
    requires GoodDisk(digest, d, st) && d.live.Some? && LiveTail(d).None? && st.stray != []
    requires r.seqNo == |st.history| + 1
    ensures !Linked(digest, Records(d.(live := Some(File(LiveLines(d) + [Rec(r, bytes)], None)))))
  {
    hide RecordsOf, ScanAll, GoodShape, Linked;
    var d', rs := d.(live := Some(File(LiveLines(d) + [Rec(r, bytes)], None))), Complete(d);
    assert Records(d') == rs + [r] by {
      ReadsComplete(d);
      BytesGrow(AllLines(d), Rec(r, bytes));
      assert LiveScan(d) == LiveLines(d);
      Assoc(ScanAll(d.rotated), LiveLines(d), [Rec(r, bytes)]);
    }
    assert rs[|rs| - 1] == st.stray[0] && st.stray[0].seqNo == r.seqNo by {
      LinkedNumbers(digest, st.history + st.stray, |st.history|);
    }
    LinkedStep(digest, rs, r);
  }

  /**
   A rotation under a clock that stood still or went back is accepted and breaks the log. It
   goes on verifying exactly when the new name is the newest, or replaces the only other segment.
   */
  lemma RotationNeedsClock(digest: Digest, d: Disk, st: Story, stamp: int)
    requires GoodDisk(digest, d, st) && Clean(d, st) && LiveLines(d) != [] && d.rotated != []
    ensures Verifies(digest, Rotated(d, stamp, Some(EMPTY))) <==>
        Newer(stamp, d.rotated) || (|d.rotated| == 1 && stamp == d.rotated[0].stamp)
  {
    var n := |d.rotated| - 1;
    var last, seg, d' := d.rotated[n], Segment(stamp, d.live.value), Rotated(d, stamp, Some(EMPTY));
    assert last in d.rotated;
    if last.stamp < stamp {
      assert Newer(stamp, d.rotated);
      RotatedStaysGood(digest, d, st, stamp, Some(EMPTY));
      GoodDiskVerifies(digest, d', st);
    } else if last.stamp == stamp {
      SegmentReplaced(digest, d, st, stamp);
    } else {
      SegmentMisplaced(digest, d, st, stamp);
    }
  }

  /**
   What verification does not show: a rotation loses records exactly when a listed segment already
   has that stamp, the only one included.
   */
  lemma RotationKeepsAll(digest: Digest, d: Disk, st: Story, stamp: int)
    requires GoodDisk(digest, d, st) && Clean(d, st) && d.live.Some?
    ensures (forall r :: r in Records(d) ==> r in Records(Rotated(d, stamp, Some(EMPTY)))) <==>
        Unstamped(stamp, d.rotated)
  {
    hide Records, RecordsOf, ScanAll, Linked;
    var seg, d' := Segment(stamp, d.live.value), Rotated(d, stamp, Some(EMPTY));
    var k, found := PlacedAt(d.rotated, seg);
    var a, c := RecordsIn(d.rotated[..k]), RecordsIn(d.rotated[if found then k + 1 else k..]);
    var live := RecordsOf(LiveLines(d));
    var lost := if found then RecordsOf(Scan(d.rotated[k].file)) else [];
    RecordsAround(d, k, found, lost);
    RecordsPlaced(d, seg, k, found);
    assert Records(d) == a + lost + c + live && Records(d') == a + live + c;
    if found {
      assert d.rotated[k] in d.rotated;
      SegmentRecords(digest, d, st, k);
      assert lost[0] in Records(d);
      Assoc(a + lost, c, live);
      OnlyOnce(digest, a, lost, c + live);
      assert lost[0] !in Records(d');
    } else {
      assert forall r :: r in Records(d) ==> r in Records(d');
    }
  }

  function RecordsIn(segs: seq<Segment>): seq<Record> {
    RecordsOf(ScanAll(segs))
  }

  /** No listed segment has that stamp. */
  ghost predicate Unstamped(stamp: int, rotated: seq<Segment>) {
    forall s :: s in rotated ==> s.stamp != stamp
  }

  /** Where a renamed file goes in an ordered listing, and whether one of its name was there. */
  lemma {:induction false} PlacedAt(rotated: seq<Segment>, s: Segment) returns (k: nat, found: bool)
    requires InOrder(rotated)
    ensures k <= |rotated| && (found ==> k < |rotated| && rotated[k].stamp == s.stamp)
    ensures !found ==> Unstamped(s.stamp, rotated)
    ensures Place(rotated, s) == rotated[..k] + [s] + rotated[if found then k + 1 else k..]
  {
    var n := |rotated| - 1;
    if rotated == [] || rotated[n].stamp < s.stamp {
      k, found := |rotated|, false;
    } else if rotated[n].stamp == s.stamp {
      k, found := n, true;
    } else {
      k, found := PlacedAt(rotated[..n], s);
      assert rotated == rotated[..n] + [rotated[n]];
      PlacedBefore(rotated[..n], rotated[n], s, k, if found then k + 1 else k);
    }
  }

  lemma PlacedBefore(front: seq<Segment>, last: Segment, s: Segment, k: nat, m: nat)
    requires k <= m <= |front| && s.stamp < last.stamp
    requires Place(front, s) == front[..k] + [s] + front[m..]
    ensures Place(front + [last], s) == (front + [last])[..k] + [s] + (front + [last])[m..]
  {
    hide Place;
    PlacedEarlier(front, last, s);
    PutIn(front, s, last, k, m);
  }

  lemma PlacedEarlier(front: seq<Segment>, last: Segment, s: Segment)
    requires s.stamp < last.stamp
    ensures Place(front + [last], s) == Place(front, s) + [last]
  {
    assert (front + [last])[..|front|] == front;
  }

  lemma PutIn<T>(front: seq<T>, x: T, last: T, k: nat, m: nat)
    requires k <= m <= |front|
    ensures (front[..k] + [x] + front[m..]) + [last] == (front + [last])[..k] + [x] + (front + [last])[m..]
  {
    assert (front + [last])[..k] == front[..k];
    assert (front + [last])[m..] == front[m..] + [last];
    Assoc(front[..k] + [x], front[m..], [last]);
  }

  lemma RecordsAround(d: Disk, k: nat, found: bool, lost: seq<Record>)
    requires d.live.Some? && LiveTail(d).None? && k <= |d.rotated| && (found ==> k < |d.rotated|)
    requires lost == if found then RecordsOf(Scan(d.rotated[k].file)) else []
    ensures var back := d.rotated[if found then k + 1 else k..];
      Records(d) == RecordsIn(d.rotated[..k]) + lost + RecordsIn(back) + RecordsOf(LiveLines(d))
  {
    hide RecordsOf, ScanAll;
    RecordsOfConcat(ScanAll(d.rotated), LiveLines(d));
    RecordsSplit(d.rotated, k);
    if found {
      RecordsSplit(d.rotated[k..], 1);
      assert d.rotated[k..][..1] == [d.rotated[k]] && d.rotated[k..][1..] == d.rotated[k + 1..];
      OneSegment(d.rotated[k]);
      Assoc(RecordsIn(d.rotated[..k]), lost, RecordsIn(d.rotated[k + 1..]));
    } else {
      assert RecordsIn(d.rotated[..k]) + [] == RecordsIn(d.rotated[..k]);
    }
  }

  lemma RecordsPlaced(d: Disk, seg: Segment, k: nat, found: bool)
    requires d.live == Some(seg.file) && LiveTail(d).None? && k <= |d.rotated| && (found ==> k < |d.rotated|)
    requires Place(d.rotated, seg) == d.rotated[..k] + [seg] + d.rotated[if found then k + 1 else k..]
    ensures Records(Rotated(d, seg.stamp, Some(EMPTY))) ==
      RecordsIn(d.rotated[..k]) + RecordsOf(LiveLines(d)) + RecordsIn(d.rotated[if found then k + 1 else k..])
  {
    hide RecordsOf, ScanAll, Place;
    var placed, front, back := Place(d.rotated, seg), d.rotated[..k], d.rotated[if found then k + 1 else k..];
    RecordsSplit(placed, k + 1);
    assert placed[..k + 1] == front + [seg] && placed[k + 1..] == back;
    RecordsSplit(front + [seg], k);
    assert (front + [seg])[..k] == front && (front + [seg])[k..] == [seg];
    OneSegment(seg);
    assert ScanAll(placed) + [] == ScanAll(placed);
  }

  lemma RecordsSplit(segs: seq<Segment>, k: nat)
    requires k <= |segs|
    ensures RecordsIn(segs) == RecordsIn(segs[..k]) + RecordsIn(segs[k..])
  {
    hide RecordsOf, ScanAll;
    assert segs == segs[..k] + segs[k..];
    ScanAllConcat(segs[..k], segs[k..]);
    RecordsOfConcat(ScanAll(segs[..k]), ScanAll(segs[k..]));
  }

  lemma OneSegment(s: Segment)
    ensures RecordsIn([s]) == RecordsOf(Scan(s.file))
  {
    assert [s][..0] == [];
    assert ScanAll([s]) == ScanAll([]) + Scan(s.file) == Scan(s.file);
  }

  lemma SegmentRecords(digest: Digest, d: Disk, st: Story, k: nat)
    requires GoodDisk(digest, d, st) && Clean(d, st) && k < |d.rotated|
    ensures RecordsOf(Scan(d.rotated[k].file)) != [] && Linked(digest, Records(d))
  {
    hide Complete, Records;
    assert d.rotated[k] in d.rotated && WholeSegment(d.rotated[k].file);
    AllRecordsCount(d.rotated[k].file.lines);
    GoodDiskVerifies(digest, d, st);
  }

  /** No record of a chain stands in it twice. */
  lemma OnlyOnce(digest: Digest, a: seq<Record>, b: seq<Record>, c: seq<Record>)
    requires Linked(digest, a + b + c) && b != []
    ensures b[0] !in a && b[0] !in c
  {
    hide Linked;
    var all := a + b + c;
    assert all[|a|] == b[0];
    LinkedNumbers(digest, all, |a|);
    forall i | 0 <= i < |a| ensures a[i] != b[0] {
      assert all[i] == a[i];
      LinkedNumbers(digest, all, i);
    }
    forall i | 0 <= i < |c| ensures c[i] != b[0] {
      assert all[|a| + |b| + i] == c[i];
      LinkedNumbers(digest, all, |a| + |b| + i);
    }
  }

  /** One such input: two rotations under one stamp, and the second overwrites the first. */
  lemma RotationExample()
    ensures var d := Disk([Segment(5, Holding(1)), Segment(6, Holding(2))], Some(Holding(3)));
      Verifies(SAME, d) && !Verifies(SAME, Rotated(d, 6, Some(EMPTY)))
  {
    var d := Disk([Segment(5, Holding(1)), Segment(6, Holding(2))], Some(Holding(3)));
    var d' := Disk([Segment(5, Holding(1)), Segment(6, Holding(3))], Some(EMPTY));
    assert Rotated(d, 6, Some(EMPTY)) == d';
    ExampleRecords(d, [1, 2, 3]);
    ExampleRecords(d', [1, 3]);
    assert Numbers([1, 3])[0] == Numbered(1) && Numbers([1, 3])[1] == Numbered(3);
    assert !Follows(Numbered(1), Numbered(3));
  }

  function Numbered(n: nat): Record { Record(n, "", "", "", "", "", "", if n == 1 then "" else "x", "x") }

  function Holding(n: nat): File { File([Rec(Numbered(n), 10)], None) }

  lemma ExampleRecords(d: Disk, ns: seq<nat>)
    requires d.live.Some? && |d.rotated| == 2 && 2 <= |ns| <= 3
    requires d.rotated[0].file == Holding(ns[0]) && d.rotated[1].file == Holding(ns[1])
    requires d.live.value == if |ns| == 3 then Holding(ns[2]) else EMPTY
    ensures AllLines(d) == Lines(ns) && Records(d) == Numbers(ns)
  {
    ScanTwo(d.rotated);
    hide RecordsOf, ScanAll;
    assert AllLines(d) == Lines(ns);
    LinesRead(ns);
  }

  function Lines(ns: seq<nat>): seq<Line> { seq(|ns|, i requires 0 <= i < |ns| => Rec(Numbered(ns[i]), 10)) }

  function Numbers(ns: seq<nat>): seq<Record> { seq(|ns|, i requires 0 <= i < |ns| => Numbered(ns[i])) }

  lemma {:induction false} LinesRead(ns: seq<nat>)
    ensures RecordsOf(Lines(ns)) == Numbers(ns)
  {
    if ns != [] {
      var n := |ns| - 1;
      LinesRead(ns[..n]);
      assert Lines(ns)[..n] == Lines(ns[..n]);
      assert Numbers(ns) == Numbers(ns[..n]) + [Numbered(ns[n])];
    }
  }

  lemma ScanTwo(segs: seq<Segment>)
    requires |segs| == 2
    ensures ScanAll(segs) == Scan(segs[0].file) + Scan(segs[1].file)
  {
    assert segs[..1][..0] == [];
    assert ScanAll(segs[..1]) == [] + Scan(segs[0].file) == Scan(segs[0].file);
  }

  /** The records of a clean good disk, cut after all but the last segment and after that one. */
  lemma ThreeParts(digest: Digest, d: Disk, st: Story) returns (a: seq<Record>, b: seq<Record>, c: seq<Record>)
    requires GoodDisk(digest, d, st) && Clean(d, st) && LiveLines(d) != [] && d.rotated != []
    ensures var n := |d.rotated| - 1;
      && a == RecordsOf(ScanAll(d.rotated[..n])) && b == RecordsOf(Scan(d.rotated[n].file))
      && c == RecordsOf(LiveLines(d))
      && Linked(digest, a + b + c) && b != [] && c != [] && (n > 0 ==> a != [])
  {
    var n := |d.rotated| - 1;
    var front, last := d.rotated[..n], d.rotated[n];
    a, b, c := RecordsOf(ScanAll(front)), RecordsOf(Scan(last.file)), RecordsOf(LiveLines(d));
    RecordsOfConcat(ScanAll(front), Scan(last.file));
    assert Complete(d) == a + b + c;
    assert WholeSegment(last.file);
    AllRecordsCount(last.file.lines);
    AllRecordsCount(LiveLines(d));
    if n > 0 {
      assert AllWhole(front);
      WholeNonEmpty(front);
    }
    assert Linked(digest, Complete(d)) by {
      assert st.history + [] == st.history;
      LinkedSlice(digest, st.history, st.dropped);
    }
  }

  /** A chain with its middle taken out is broken. */
  lemma GapBreaks(digest: Digest, a: seq<Record>, b: seq<Record>, c: seq<Record>)
    requires Linked(digest, a + b + c) && a != [] && b != [] && c != []
    ensures !Linked(digest, a + c)
  {
    var whole, i, j := a + b + c, |a| - 1, |a| + |b|;
    LinkedNumbers(digest, whole, i);
    LinkedNumbers(digest, whole, j);
    assert whole[i] == (a + c)[i] && whole[j] == (a + c)[i + 1];
  }

  /** A chain with a later record before an earlier one is broken. */
  lemma DisorderBreaks(digest: Digest, a: seq<Record>, b: seq<Record>, c: seq<Record>, x: seq<Record>)
    requires Linked(digest, a + b + c) && b != [] && c != [] && c[0] in x
    ensures !Linked(digest, x + b)
  {
    var whole := a + b + c;
    LinkedNumbers(digest, whole, |a|);
    LinkedNumbers(digest, whole, |a| + |b|);
    assert whole[|a|] == b[0] && whole[|a| + |b|] == c[0];
    var i :| 0 <= i < |x| && x[i] == c[0];
    if Linked(digest, x + b) {
      LinkedNumbers(digest, x + b, i);
      LinkedNumbers(digest, x + b, |x|);
    }
  }

  lemma SegmentReplaced(digest: Digest, d: Disk, st: Story, stamp: int)
    requires GoodDisk(digest, d, st) && Clean(d, st) && LiveLines(d) != [] && d.rotated != []
    requires d.rotated[|d.rotated| - 1].stamp == stamp
    ensures Verifies(digest, Rotated(d, stamp, Some(EMPTY))) <==> |d.rotated| == 1
  {
    var a, b, c := ThreeParts(digest, d, st);
    ReplacedLines(d, stamp);
    hide GoodDisk, AllLines, Place, NoJunk;
    if |d.rotated| == 1 {
      assert a + c == (a + b + c)[|b|..];
      LinkedSlice(digest, a + b + c, |b|);
    } else {
      GapBreaks(digest, a, b, c);
    }
  }

  lemma ReplacedLines(d: Disk, stamp: int)
    requires GoodShape(d) && d.live.Some? && LiveTail(d).None?
    requires d.rotated != [] && d.rotated[|d.rotated| - 1].stamp == stamp
    ensures var front, d' := d.rotated[..|d.rotated| - 1], Rotated(d, stamp, Some(EMPTY));
      && Records(d') == RecordsOf(ScanAll(front)) + RecordsOf(LiveLines(d))
      && NoJunk(AllLines(d'))
  {
    var n := |d.rotated| - 1;
    var front, d' := d.rotated[..n], Rotated(d, stamp, Some(EMPTY));
    assert d'.rotated[..n] == front;
    assert AllLines(d') == ScanAll(front) + LiveLines(d);
    RecordsOfConcat(ScanAll(front), LiveLines(d));
    assert AllWhole(front);
    WholeScan(front);
  }

  lemma SegmentMisplaced(digest: Digest, d: Disk, st: Story, stamp: int)
    requires GoodDisk(digest, d, st) && Clean(d, st) && LiveLines(d) != [] && d.rotated != []
    requires stamp < d.rotated[|d.rotated| - 1].stamp
    ensures !Verifies(digest, Rotated(d, stamp, Some(EMPTY)))
  {
    var a, b, c := ThreeParts(digest, d, st);
    MisplacedLines(d, stamp);
    var front, seg := d.rotated[..|d.rotated| - 1], Segment(stamp, d.live.value);
    PlacedRecords(front, seg);
    hide GoodDisk, AllLines, Place, NoJunk;
    assert c[0] in c;
    DisorderBreaks(digest, a, b, c, RecordsOf(ScanAll(Place(front, seg))));
  }

  lemma MisplacedLines(d: Disk, stamp: int)
    requires d.live.Some? && d.rotated != [] && stamp < d.rotated[|d.rotated| - 1].stamp
    ensures var n := |d.rotated| - 1;
      Records(Rotated(d, stamp, Some(EMPTY))) ==
        RecordsOf(ScanAll(Place(d.rotated[..n], Segment(stamp, d.live.value)))) + RecordsOf(Scan(d.rotated[n].file))
  {
    var n := |d.rotated| - 1;
    var x := Place(d.rotated[..n], Segment(stamp, d.live.value));
    var d', last := Rotated(d, stamp, Some(EMPTY)), d.rotated[n];
    assert d'.rotated == x + [last] && d'.rotated[..|x|] == x;
    assert AllLines(d') == ScanAll(x) + Scan(last.file);
    RecordsOfConcat(ScanAll(x), Scan(last.file));
  }

  lemma {:induction false} PlacedRecords(rotated: seq<Segment>, s: Segment)
    ensures forall r :: r in RecordsOf(Scan(s.file)) ==> r in RecordsOf(ScanAll(Place(rotated, s)))
  {
    var placed := Place(rotated, s);
    var m := |placed| - 1;
    RecordsOfConcat(ScanAll(placed[..m]), Scan(placed[m].file));
    if rotated != [] && rotated[|rotated| - 1].stamp > s.stamp {
      PlacedRecords(rotated[..|rotated| - 1], s);
      assert placed[..m] == Place(rotated[..|rotated| - 1], s);
    }
  }
}
