/** Publishing a directory: build in a sibling staging directory, validate, then swap by two renames. */
module AtomicPublish {
  import opened Relational
  import opened TextOrder

  type Tree = map<string, string>

  /** The paths one run can touch: its staging and backup directories are named after its run id. */
  datatype Disk = Disk(published: Cell<Tree>, staging: Cell<Tree>, backup: Cell<Tree>, pointer: Cell<string>)

  datatype Verdict = Accepted | ReturnedFalse | Raised

  datatype Outcome = BlankRunId | NotStarted | Rejected | BackupRenameFailed | FinalRenameFailed(putBack: bool)
                   | PointerNotWritten | Published

  /** The file-system calls that may raise. Removals never do, but a sticky one may leave part behind. */
  datatype Call = MakeParent | MakeStaging | RenameToBackup | RenameToPublished | RenameBack | WritePointer

  predicate Blank(s: string) { forall i | 0 <= i < |s| :: IsSpace(s[i]) }

  // ------------------------------------------------------------------ what holds after every call

  /** The snapshot published when the call started, or the newly built one, can be found whole. */
  predicate Recoverable(start: Disk, d: Disk, built: Cell<Tree>) {
    start.published.Val? ==>
      d.published == start.published || d.backup == start.published || (built.Val? && d.published == built)
  }

  /** Readers see the old tree, nothing, or an accepted new tree; only a backup left over from an
      earlier run of the same id can surface besides. */
  predicate NothingUnvalidated(start: Disk, d: Disk, built: Cell<Tree>, verdict: Verdict) {
    || d.published.Null? || d.published == start.published
    || (verdict.Accepted? && d.published == built)
    || (start.published.Null? && start.backup.Val?)
  }

  predicate Good(start: Disk, d: Disk, built: Cell<Tree>, verdict: Verdict) {
    Recoverable(start, d, built) && NothingUnvalidated(start, d, built, verdict)
  }

  /** What is left of a directory is part of it. */
  predicate Remains(before: Cell<Tree>, after: Cell<Tree>) {
    after.Val? ==> before.Val? && after.v.Keys <= before.v.Keys && forall k | k in after.v :: after.v[k] == before.v[k]
  }

  /** One call takes the disk from `a` to `b`: a removal, a new staging directory, the build in it, one of the
      three renames, or the pointer. */
  predicate OneCall(a: Disk, b: Disk) {
    || (b == a.(staging := b.staging) && Remains(a.staging, b.staging))
    || (b == a.(backup := b.backup) && Remains(a.backup, b.backup))
    || (a.staging.Null? && b == a.(staging := Val(map[])))
    || (a.staging == Val(map[]) && b.staging.Val? && b == a.(staging := b.staging))
    || (a.published.Val? && (a.backup.Null? || a.backup == Val(map[]))
        && b == a.(published := Null, backup := a.published))
    || (a.published.Null? && a.staging.Val? && b == a.(published := a.staging, staging := Null))
    || (a.published.Null? && a.backup.Val? && b == a.(published := a.backup, backup := Null))
    || (b.pointer.Val? && b == a.(pointer := b.pointer))
  }

  /** `trace` lists the disk after every file-system call from `start` to `end`, all of them good. */
  ghost predicate GoodTrace(trace: seq<Disk>, start: Disk, end: Disk, built: Cell<Tree>, verdict: Verdict) {
    && trace != [] && trace[0] == start && trace[|trace| - 1] == end
    && (forall d | d in trace :: Good(start, d, built, verdict))
    && forall k | 0 <= k < |trace| - 1 :: OneCall(trace[k], trace[k + 1])
  }

  lemma {:induction false} TraceGrows(
      trace: seq<Disk>, start: Disk, end: Disk, next: Disk, built: Cell<Tree>, verdict: Verdict)
    requires GoodTrace(trace, start, end, built, verdict) && OneCall(end, next) && Good(start, next, built, verdict)
    ensures GoodTrace(trace + [next], start, next, built, verdict)
  {
    var all := trace + [next];
    forall k | 0 <= k < |all| - 1 ensures OneCall(all[k], all[k + 1]) {
      if k < |trace| - 1 { assert all[k] == trace[k] && all[k + 1] == trace[k + 1]; }
    }
  }

  // ------------------------------------------------------------------ where a run ends

  /** The tree is nowhere but in this run id's backup. */
  predicate OnlyInBackup(d: Disk, tree: Cell<Tree>) { d.published.Null? && d.backup == tree }

  /** A whole snapshot exists at the published path or in this run id's backup. */
  predicate SnapshotExists(d: Disk) { d.published.Val? || d.backup.Val? }

  /** What a run comes to when these calls raise and removals remove everything. */
  function Ends(d: Disk, runId: string, built: Cell<Tree>, verdict: Verdict, failing: set<Call>): (Disk, Outcome) {
    var cleared := Disk(d.published, Null, Null, d.pointer);
    var existed := d.published.Val?;
    if forall i | 0 <= i < |runId| :: IsSpace(runId[i]) then (d, BlankRunId)
    else if MakeParent in failing then (d, NotStarted)
    else if MakeStaging in failing then (cleared, NotStarted)
    else if built == Null || verdict != Accepted then (cleared, Rejected)
    else if existed && RenameToBackup in failing then (cleared, BackupRenameFailed)
    else if RenameToPublished in failing then
      if existed && RenameBack in failing then (Disk(Null, Null, d.published, d.pointer), FinalRenameFailed(false))
      else (cleared, FinalRenameFailed(existed))
    else if WritePointer in failing then (Disk(built, Null, Null, d.pointer), PointerNotWritten)
    else (Disk(built, Null, Null, Val(runId)), Published)
  }

  class AtomicDirectoryPublisher {
    var disk: Disk

    constructor (disk: Disk)
      ensures this.disk == disk
    {
      this.disk := disk;
    }

    /** `rmtree(..., ignore_errors=True)`: gone, or part of it is left behind. */
    method RemoveStaging(sticky: bool)
      modifies this
      ensures !sticky ==> disk.staging.Null?
      ensures disk.(staging := Null) == old(disk).(staging := Null) && Remains(old(disk).staging, disk.staging)
    {
      var complete: bool := *;
      var removed: set<string> := *;
      disk := disk.(staging := if complete || !sticky || disk.staging.Null? then Null
                else Val(disk.staging.v - removed));
    }

    method RemoveBackup(sticky: bool)
      modifies this
      ensures !sticky ==> disk.backup.Null?
      ensures disk.(backup := Null) == old(disk).(backup := Null) && Remains(old(disk).backup, disk.backup)
    {
      var complete: bool := *;
      var removed: set<string> := *;
      disk := disk.(backup := if complete || !sticky || disk.backup.Null? then Null else Val(disk.backup.v - removed));
    }

    /** Everything before the first rename: clear leftovers, build, validate. Null means go on. */
    method Prepare(
        runId: string, built: Cell<Tree>, partial: Tree, verdict: Verdict, failing: set<Call>, sticky: bool)
      returns (stop: Cell<Outcome>, ghost trace: seq<Disk>)
      modifies this
      ensures GoodTrace(trace, old(disk), disk, built, verdict)
      ensures disk.published == old(disk).published && disk.pointer == old(disk).pointer
      ensures stop.Val? ==> stop.v.BlankRunId? || stop.v.NotStarted? || stop.v.Rejected?
      ensures stop.Val? && stop.v.BlankRunId? <==> Blank(runId)
      ensures stop.Null? ==> built.Val? && verdict.Accepted? && disk.staging == built
      ensures stop.Null? ==> MakeParent !in failing && MakeStaging !in failing
      ensures stop.Null? && disk.backup.Val? ==> old(disk).backup.Val?
      ensures !sticky && stop.Val? ==> (disk, stop.v) == Ends(old(disk), runId, built, verdict, failing)
      ensures !sticky && stop.Null? ==> disk.backup.Null?
    {
      ghost var start := disk;
      trace := [disk];
      if Blank(runId) { return Val(BlankRunId), trace; }
      if MakeParent in failing { return Val(NotStarted), trace; }
      RemoveStaging(sticky);
      TraceGrows(trace, start, trace[0], disk, built, verdict);
      trace := trace + [disk];
      RemoveBackup(sticky);
      TraceGrows(trace, start, trace[1], disk, built, verdict);
      trace := trace + [disk];
      if MakeStaging in failing || disk.staging.Val? { return Val(NotStarted), trace; }
      disk := disk.(staging := Val(map[]));
      TraceGrows(trace, start, trace[2], disk, built, verdict);
      trace := trace + [disk];
      disk := disk.(staging := Val(if built.Val? then built.v else partial));
      TraceGrows(trace, start, trace[3], disk, built, verdict);
      trace := trace + [disk];
      if built.Null? || !verdict.Accepted? {
        RemoveStaging(sticky);
        TraceGrows(trace, start, trace[4], disk, built, verdict);
        return Val(Rejected), trace + [disk];
      }
      return Null, trace;
    }

    /** The two renames, with the handler that puts the backup back. Null means both took place. */
    method SwapIn(ghost start: Disk, ghost past: seq<Disk>, built: Tree, failing: set<Call>)
      returns (stop: Cell<Outcome>, ghost trace: seq<Disk>)
      requires disk.staging == Val(built) && disk.published == start.published
      requires disk.backup.Val? ==> start.backup.Val?
      requires GoodTrace(past, start, disk, Val(built), Accepted)
      modifies this
      ensures GoodTrace(trace, start, disk, Val(built), Accepted) && disk.pointer == old(disk).pointer
      ensures stop.Val? ==> stop.v.BackupRenameFailed? || stop.v.FinalRenameFailed?
      // a backup that could not be removed is in the way of the first rename, which fails besides when it raises
      ensures stop == Val(BackupRenameFailed)
         <==> old(disk).published.Val?
              && (RenameToBackup in failing || (old(disk).backup.Val? && |old(disk).backup.v| > 0))
      ensures stop == Val(BackupRenameFailed) ==> disk == old(disk)
      ensures stop.Val? && stop.v.FinalRenameFailed? ==>
                && RenameToPublished in failing && disk.staging == old(disk).staging
                && stop.v.putBack == (RenameBack !in failing && (old(disk).published.Val? || old(disk).backup.Val?))
      // the rename back brings the old tree, or a left-over backup where there was none
      ensures stop.Val? && stop.v.FinalRenameFailed? ==>
                var kept := if old(disk).published.Val? then old(disk).published else old(disk).backup;
                if stop.v.putBack then disk.published == kept && disk.backup.Null?
                else disk.published.Null? && disk.backup == kept
      ensures stop.Null? ==>
                && RenameToPublished !in failing && disk.published == Val(built) && disk.staging.Null?
                && disk.backup == if old(disk).published.Val? then old(disk).published else old(disk).backup
      // between the renames the old tree is in the backup alone
      ensures stop.Null? && start.published.Val? ==> exists d :: d in trace && OnlyInBackup(d, start.published)
    {
      trace := past;
      if disk.published.Val? {
        if RenameToBackup in failing || (disk.backup.Val? && disk.backup.v != map[]) {
          return Val(BackupRenameFailed), trace;
        }
        ghost var before := disk;
        disk := disk.(published := Null, backup := disk.published);
        TraceGrows(trace, start, before, disk, Val(built), Accepted);
        trace := trace + [disk];
      }
      ghost var gap := disk;
      assert gap == trace[|trace| - 1];
      if RenameToPublished in failing {
        var putBack := RenameBack !in failing && disk.backup.Val?;
        if putBack {
          disk := disk.(published := disk.backup, backup := Null);
          TraceGrows(trace, start, gap, disk, Val(built), Accepted);
          trace := trace + [disk];
        }
        return Val(FinalRenameFailed(putBack)), trace;
      }
      disk := disk.(published := disk.staging, staging := Null);
      TraceGrows(trace, start, gap, disk, Val(built), Accepted);
      trace := trace + [disk];
      assert start.published.Val? ==> gap in trace && OnlyInBackup(gap, start.published);
      return Null, trace;
    }

    /** Publish what `build` leaves in staging (null: it raised after writing `partial`), with these calls raising.
        A sticky removal may leave part of a directory behind. */
    method Publish(
        runId: string, built: Cell<Tree>, partial: Tree, verdict: Verdict, failing: set<Call>, sticky: bool)
      returns (outcome: Outcome, ghost trace: seq<Disk>)
      modifies this
      // one call after the other, and after each the snapshot is recoverable and nothing unvalidated is visible
      ensures GoodTrace(trace, old(disk), disk, built, verdict)
      ensures outcome.BlankRunId? <==> forall i | 0 <= i < |runId| :: IsSpace(runId[i])
      // success installs exactly the built tree and its run id; the pointer moves on success only
      ensures outcome.Published? || outcome.PointerNotWritten? ==>
                built.Val? && verdict.Accepted? && disk.published == built
      ensures disk.pointer == if outcome.Published? then Val(runId) else old(disk).pointer
      // where removals are complete, the calls that raise decide the outcome and the disk ...
      ensures !sticky ==> (disk, outcome) == Ends(old(disk), runId, built, verdict, failing)
      // ... and an undisturbed run keeps a snapshot exactly when one is at the published path or is installed
      ensures !sticky && failing == {} && !Blank(runId) && SnapshotExists(old(disk)) ==>
                (SnapshotExists(disk) <==> old(disk).published.Val? || (built.Val? && verdict.Accepted?))
      // a process that dies between the two renames leaves the old tree in the backup alone
      ensures outcome.Published? && old(disk).published.Val? ==>
                exists d :: d in trace && OnlyInBackup(d, old(disk).published)
      // an exception in build, validation or a rename leaves the published tree as it was ...
      ensures outcome.BlankRunId? || outcome.NotStarted? || outcome.Rejected? || outcome.BackupRenameFailed? ==>
                disk.published == old(disk).published
      ensures outcome.FinalRenameFailed? && outcome.putBack && old(disk).published.Val? ==>
                disk.published == old(disk).published
      ensures outcome.FinalRenameFailed? && old(disk).published.Null? && old(disk).backup.Null? ==> disk.published.Null?
      // ... and if even the rename back fails, whole in the backup
      ensures outcome.FinalRenameFailed? && !outcome.putBack ==>
                disk.published.Null? && (old(disk).published.Val? ==> disk.backup == old(disk).published)
    {
      ghost var start := disk;
      var stop, prepared := Prepare(runId, built, partial, verdict, failing, sticky);
      trace := prepared;
      if stop.Val? { return stop.v, trace; }
      ghost var before;
      stop, trace := SwapIn(start, trace, built.v, failing);
      before := disk;
      if stop.Val? {
        RemoveStaging(sticky);
        TraceGrows(trace, start, before, disk, built, verdict);
        return stop.v, trace + [disk];
      }
      RemoveBackup(sticky);
      TraceGrows(trace, start, before, disk, built, verdict);
      trace := trace + [disk];
      outcome := PointerNotWritten;
      if WritePointer !in failing {
        before := disk;
        disk := disk.(pointer := Val(runId));
        TraceGrows(trace, start, before, disk, built, verdict);
        trace := trace + [disk];
        outcome := Published;
      }
      before := disk;
      RemoveStaging(sticky);
      TraceGrows(trace, start, before, disk, built, verdict);
      return outcome, trace + [disk];
    }
  }

  // ------------------------------------------------------------------ the crash between two runs

  /** A publish over `tree` can die between its renames: that state is in its trace. A second publisher that
      finds the disk in such a state and retries the run id, the build then raising, leaves no copy: the
      opening clean-up deletes the only one. */
  method CrashThenRetryLoses(runId: string, tree: Tree, built: Tree, found: Disk)
    returns (ghost trace: seq<Disk>, retried: AtomicDirectoryPublisher)
    requires !Blank(runId) && OnlyInBackup(found, Val(tree))
    ensures exists d :: d in trace && OnlyInBackup(d, Val(tree))
    ensures fresh(retried) && !SnapshotExists(retried.disk)
  {
    var first := new AtomicDirectoryPublisher(Disk(Val(tree), Null, Null, Null));
    var outcome;
    outcome, trace := first.Publish(runId, Val(built), map[], Accepted, {}, false);
    retried := new AtomicDirectoryPublisher(found);
    ghost var again;
    outcome, again := retried.Publish(runId, Null, map[], Raised, {}, false);
  }
}
