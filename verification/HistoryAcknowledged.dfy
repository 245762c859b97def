/** When an append of the lock protocol is acknowledged: in every run exactly when the system refused it
    nothing, and a process that finds the locks free can always take all its steps. */
module HistoryAcknowledged {
  import opened Outcomes
  import opened Sequences
  import opened HistoryLines
  import opened HistoryStore
  import opened HistoryLock
  import HistoryFile

  /** From the second lock to the end of the append; what follows only releases the locks. */
  predicate InAppend(ph: Phase) {
    Critical(ph) && !ph.Release?
  }

  /** The operating system fails the append at this point, or the file does not scan. */
  predicate FileRefuses(ops: Ops, s: State, ph: Phase, action: FileAction) {
    match action
    case OpenFile(ok) => !ok
    case Inspect => false
    case Write(written) => ph.WriteLine? && written < |ph.payload|
    case Sync(ok) => !ok
    case Scan => !ops.scans(Contents(s))
    case CreateTemp(ok) => !ok
    case Rename(renamed, synced) => !renamed || !synced
  }

  /** At this step the append that process `p` is in fails, or the process dies. */
  predicate Refuses(ops: Ops, s: State, step: Step, p: Pid) {
    InAppend(At(s, p)) &&
    match step
    case LockStep(q, action) => q == p && action.Die?
    case FileStep(q, action) => q == p && FileRefuses(ops, s, At(s, p), action)
    case Outside(_) => false
  }

  /** The state in which step `m` of a run is taken. */
  function StateAt(ops: Ops, steps: seq<Step>, m: nat): State
    requires m <= |steps|
  {
    var before := Run(ops, steps[..m]);
    if before.Some? then before.value else Init
  }

  /** Some step after the `n`-th and before the `e`-th refuses the append. */
  ghost predicate RefusedBetween(ops: Ops, steps: seq<Step>, p: Pid, n: nat, e: nat)
    requires e <= |steps|
  {
    exists m | n < m < e :: Refuses(ops, StateAt(ops, steps, m), steps[m], p)
  }

  // ---- one step ----

  /** Where the append under acquisition `t` stands: in progress and refused nothing so far, or over and
      acknowledged unless it was refused something. */
  ghost predicate Stands(s: State, p: Pid, t: nat, refused: bool) {
    && t < s.tickets
    && (if InAppend(At(s, p)) then At(s, p).ticket == t && t !in s.acked && !refused else t in s.acked <==> !refused)
    && (forall q | q != p && InAppend(At(s, q)) :: At(s, q).ticket > t)
  }

  lemma LockStepStands(ops: Ops, s: State, q: Pid, action: LockAction, p: Pid, t: nat, refused: bool)
    requires Inv(ops, s) && Stands(s, p, t, refused) && NextLock(s, q, action).Some?
    requires q == p ==> !action.TakeSidecar?
    ensures Stands(NextLock(s, q, action).value, p, t, refused || Refuses(ops, s, LockStep(q, action), p))
  {
    var after := NextLock(s, q, action).value;
    LockStepKeepsData(ops, s, q, action);
    LockStepFrame(s, q, action);
    forall r | r != p && InAppend(At(after, r))
      ensures At(after, r).ticket > t
    {
      assert r != q ==> At(after, r) == At(s, r);
    }
  }

  /** A file step of the process itself: it goes on, it is refused, or it is acknowledged. */
  lemma OwnStepStands(ops: Ops, s: State, p: Pid, action: FileAction, t: nat)
    requires HolderOk(ops, s, At(s, p)) && FilesOk(s) && NextFile(ops, s, p, action).Some?
    requires InAppend(At(s, p)) && At(s, p).ticket == t && t !in s.acked
    ensures var after, refused := NextFile(ops, s, p, action).value, FileRefuses(ops, s, At(s, p), action);
            if InAppend(At(after, p)) then At(after, p).ticket == t && t !in after.acked && !refused
            else t in after.acked <==> !refused
  {
  }

  lemma AckedGrows(ops: Ops, s: State, p: Pid, action: FileAction)
    requires NextFile(ops, s, p, action).Some?
    ensures InAppend(At(s, p)) && forall t | t != At(s, p).ticket ::
              t in NextFile(ops, s, p, action).value.acked <==> t in s.acked
    ensures InAppend(At(NextFile(ops, s, p, action).value, p)) ==>
              At(NextFile(ops, s, p, action).value, p).ticket == At(s, p).ticket
  {
  }

  lemma FileStepStands(ops: Ops, s: State, q: Pid, action: FileAction, p: Pid, t: nat, refused: bool)
    requires Inv(ops, s) && Stands(s, p, t, refused) && NextFile(ops, s, q, action).Some?
    ensures Stands(NextFile(ops, s, q, action).value, p, t, refused || Refuses(ops, s, FileStep(q, action), p))
  {
    var after := NextFile(ops, s, q, action).value;
    FileStepKeepsLocks(ops, s, q, action);
    AckedGrows(ops, s, q, action);
    if q == p {
      assert HolderOk(ops, s, At(s, p));
      OwnStepStands(ops, s, p, action, t);
    }
    forall r | r != p && InAppend(At(after, r))
      ensures At(after, r).ticket > t
    {
      assert r != q ==> At(after, r) == At(s, r);
    }
  }

  lemma StepStands(ops: Ops, s: State, step: Step, p: Pid, t: nat, refused: bool)
    requires Inv(ops, s) && Stands(s, p, t, refused) && Next(ops, s, step).Some? && step != LockStep(p, TakeSidecar)
    ensures Stands(Next(ops, s, step).value, p, t, refused || Refuses(ops, s, step, p))
  {
    match step
    case LockStep(q, action) => LockStepStands(ops, s, q, action, p, t, refused);
    case FileStep(q, action) => FileStepStands(ops, s, q, action, p, t, refused);
    case Outside(i) =>
      OutsideKeepsData(ops, s, i);
      forall q
        ensures At(Next(ops, s, step).value, q) == At(s, q)
      {
      }
  }

  lemma AcquiredStands(ops: Ops, s: State, p: Pid)
    requires Inv(ops, s) && NextLock(s, p, TakeSidecar).Some?
    ensures Stands(NextLock(s, p, TakeSidecar).value, p, s.tickets, false)
  {
    var after := NextLock(s, p, TakeSidecar).value;
    LockStepKeepsData(ops, s, p, TakeSidecar);
    forall q | q != p
      ensures !InAppend(At(after, q))
    {
      OthersHoldNothing(s, p, q);
      assert At(after, q) == At(s, q);
    }
  }

  // ---- every run ----

  lemma {:induction false} RunPrefix(ops: Ops, steps: seq<Step>, m: nat)
    requires Run(ops, steps).Some? && m <= |steps|
    ensures Run(ops, steps[..m]) == Some(StateAt(ops, steps, m))
    decreases |steps| - m
  {
    if m == |steps| {
      Sequences.Whole(steps, 0);
    } else {
      RunPrefix(ops, steps, m + 1);
      TakeTake(steps, m);
    }
  }

  lemma RunStep(ops: Ops, steps: seq<Step>, m: nat)
    requires Run(ops, steps).Some? && m < |steps|
    ensures Next(ops, StateAt(ops, steps, m), steps[m]) == Some(StateAt(ops, steps, m + 1))
    ensures Inv(ops, StateAt(ops, steps, m))
  {
    RunPrefix(ops, steps, m);
    RunPrefix(ops, steps, m + 1);
    TakeTake(steps, m);
    RunKeepsInv(ops, steps[..m]);
  }

  lemma RefusedGrows(ops: Ops, steps: seq<Step>, p: Pid, n: nat, e: nat)
    requires n < e < |steps|
    ensures RefusedBetween(ops, steps, p, n, e + 1)
            <==> RefusedBetween(ops, steps, p, n, e) || Refuses(ops, StateAt(ops, steps, e), steps[e], p)
  {
  }

  lemma RunStandsStep(ops: Ops, steps: seq<Step>, p: Pid, m: nat, t: nat, refused: bool)
    requires Run(ops, steps).Some? && m < |steps| && steps[m] != LockStep(p, TakeSidecar)
    requires Stands(StateAt(ops, steps, m), p, t, refused)
    ensures Stands(StateAt(ops, steps, m + 1), p, t, refused || Refuses(ops, StateAt(ops, steps, m), steps[m], p))
  {
    RunStep(ops, steps, m);
    StepStands(ops, StateAt(ops, steps, m), steps[m], p, t, refused);
  }

  lemma RunAcquires(ops: Ops, steps: seq<Step>, p: Pid, n: nat)
    requires Run(ops, steps).Some? && n < |steps| && steps[n] == LockStep(p, TakeSidecar)
    ensures Stands(StateAt(ops, steps, n + 1), p, StateAt(ops, steps, n).tickets, false)
  {
    RunStep(ops, steps, n);
    AcquiredStands(ops, StateAt(ops, steps, n), p);
  }

  lemma {:induction false} RunStands(ops: Ops, steps: seq<Step>, p: Pid, n: nat, e: nat)
    requires Run(ops, steps).Some? && n < e <= |steps| && steps[n] == LockStep(p, TakeSidecar)
    requires forall m | n < m < |steps| :: steps[m] != LockStep(p, TakeSidecar)
    ensures Stands(StateAt(ops, steps, e), p, StateAt(ops, steps, n).tickets, RefusedBetween(ops, steps, p, n, e))
    decreases e
  {
    var last := e - 1;
    if last == n {
      RunAcquires(ops, steps, p, n);
    } else {
      RunStands(ops, steps, p, n, last);
      RefusedGrows(ops, steps, p, n, last);
      RunStandsStep(ops, steps, p, last, StateAt(ops, steps, n).tickets, RefusedBetween(ops, steps, p, n, last));
    }
  }

  /** In every run, with whatever the other processes and outsiders do in between: once the append that
      took the sidecar lock at step `n` has left its last working step, it is acknowledged exactly when
      nothing was refused to it and its process did not die on the way; before that it is neither. */
  lemma AcknowledgedIff(ops: Ops, steps: seq<Step>, p: Pid, n: nat)
    requires Run(ops, steps).Some? && n < |steps| && steps[n] == LockStep(p, TakeSidecar)
    requires forall m | n < m < |steps| :: steps[m] != LockStep(p, TakeSidecar)
    ensures var s, t, refused := Run(ops, steps).value, StateAt(ops, steps, n).tickets,
                RefusedBetween(ops, steps, p, n, |steps|);
            if InAppend(At(s, p)) then t !in s.acked && !refused else t in s.acked <==> !refused
  {
    RunStands(ops, steps, p, n, |steps|);
    RunPrefix(ops, steps, |steps|);
    Sequences.Whole(steps, 0);
  }

  // ---- nothing refused ----

  /** The run goes on from `from` with steps of one process only. */
  predicate Alone(steps: seq<Step>, from: nat, p: Pid) {
    forall m | from <= m < |steps| :: (steps[m].LockStep? || steps[m].FileStep?) && steps[m].pid == p
  }

  /** The run goes on, by steps of one process only, to this state. */
  ghost predicate LeadsTo(ops: Ops, steps: seq<Step>, all: seq<Step>, p: Pid, end: State) {
    steps <= all && Alone(all, |steps|, p) && Run(ops, all) == Some(end)
  }

  lemma OneMore(ops: Ops, steps: seq<Step>, all: seq<Step>, p: Pid, s: State, step: Step) returns (more: seq<Step>)
    requires LeadsTo(ops, steps, all, p, s) && Next(ops, s, step).Some?
    requires (step.LockStep? || step.FileStep?) && step.pid == p
    ensures LeadsTo(ops, steps, more, p, Next(ops, s, step).value)
  {
    TakeSnoc(all, step);
    more := all + [step];
  }

  /** The file the sidecar name leads to, or the one that opening it would create. */
  function SidecarOf(s: State): Inode {
    if s.sidecar.Some? then s.sidecar.value else s.next
  }

  /** Whether both locks are free for a process that has none. */
  predicate LocksFree(s: State) {
    s.directory.Free? && FlockOf(s, SidecarOf(s)).Free?
  }

  /** The second state has the same history, and the same log. */
  predicate SameHistory(s: State, end: State) {
    end.history == s.history && end.files == s.files && end.log == s.log && end.acked == s.acked
  }

  lemma TakeLocks(ops: Ops, steps: seq<Step>, p: Pid, job: Job) returns (all: seq<Step>, end: State)
    requires Run(ops, steps).Some? && At(Run(ops, steps).value, p).Idle? && LocksFree(Run(ops, steps).value)
    ensures LeadsTo(ops, steps, all, p, end)
    ensures var s := Run(ops, steps).value;
            && At(end, p) == OpenHistory(job, SidecarOf(s), s.tickets) && SameHistory(s, end)
            && end.sidecar == Some(SidecarOf(s))
  {
    var s := Run(ops, steps).value;
    all := OneMore(ops, steps, steps, p, s, LockStep(p, Begin(job)));
    end := Next(ops, s, LockStep(p, Begin(job))).value;
    all := OneMore(ops, steps, all, p, end, LockStep(p, TakeDirectory));
    end := Next(ops, end, LockStep(p, TakeDirectory)).value;
    all := OneMore(ops, steps, all, p, end, LockStep(p, OpenLockFile(true)));
    end := Next(ops, end, LockStep(p, OpenLockFile(true))).value;
    all := OneMore(ops, steps, all, p, end, LockStep(p, TakeSidecar));
    end := Next(ops, end, LockStep(p, TakeSidecar)).value;
  }

  lemma WriteTheLine(ops: Ops, steps: seq<Step>, all0: seq<Step>, p: Pid, s: State)
    returns (all: seq<Step>, end: State)
    requires LeadsTo(ops, steps, all0, p, s) && At(s, p).OpenHistory? && FilesOk(s)
    ensures LeadsTo(ops, steps, all, p, end) && FilesOk(end)
    ensures var ph, payload := At(s, p), ops.payload(Contents(s), At(s, p).job.line);
            && end.history.Some? && At(end, p) == SyncLine(ph.job, ph.lock, ph.ticket, end.history.value)
            && Contents(end) == Contents(s) + payload
            && end.log == s.log + [Entry(ph.ticket, ph.job, Whole)] && end.acked == s.acked
            && end.sidecar == s.sidecar
  {
    all := OneMore(ops, steps, all0, p, s, FileStep(p, OpenFile(true)));
    end := Next(ops, s, FileStep(p, OpenFile(true))).value;
    all := OneMore(ops, steps, all, p, end, FileStep(p, Inspect));
    end := Next(ops, end, FileStep(p, Inspect)).value;
    var written := |At(end, p).payload|;
    all := OneMore(ops, steps, all, p, end, FileStep(p, Write(written)));
    end := Next(ops, end, FileStep(p, Write(written))).value;
  }

  /** What an append to these contents leaves when nothing is refused, and whether it succeeds. */
  function Finished(ops: Ops, before: Bytes, job: Job): (Bytes, bool) {
    var after := before + ops.payload(before, job.line);
    if !Due(job, after) then (after, true)
    else if ops.scans(after) then (ops.compacted(after, HistoryFile.AtLeastOne(job.keep)), true)
    else (after, false)
  }

  lemma SyncAndCompact(ops: Ops, steps: seq<Step>, all0: seq<Step>, p: Pid, s: State)
    returns (all: seq<Step>, end: State)
    requires LeadsTo(ops, steps, all0, p, s) && FilesOk(s)
    requires At(s, p).SyncLine? && s.history == Some(At(s, p).file) && s.log != []
             && s.log[|s.log| - 1] == Entry(At(s, p).ticket, At(s, p).job, Whole)
    ensures LeadsTo(ops, steps, all, p, end) && end.sidecar == s.sidecar
    ensures var ph, compacts := At(s, p), Due(At(s, p).job, Contents(s)) && ops.scans(Contents(s));
            && At(end, p) == Release(ph.lock)
            && Contents(end) == (if compacts then ops.compacted(Contents(s), HistoryFile.AtLeastOne(ph.job.keep))
               else Contents(s))
            && end.log == s.log[..|s.log| - 1] + [Entry(ph.ticket, ph.job, if compacts then Replaced else Whole)]
            && end.acked == if Due(ph.job, Contents(s)) && !compacts then s.acked else s.acked + {ph.ticket}
  {
    SplitLast(s.log);
    all := OneMore(ops, steps, all0, p, s, FileStep(p, Sync(true)));
    end := Next(ops, s, FileStep(p, Sync(true))).value;
    if Due(At(s, p).job, Contents(s)) {
      all := OneMore(ops, steps, all, p, end, FileStep(p, Scan));
      end := Next(ops, end, FileStep(p, Scan)).value;
      if ops.scans(Contents(s)) {
        all := OneMore(ops, steps, all, p, end, FileStep(p, CreateTemp(true)));
        end := Next(ops, end, FileStep(p, CreateTemp(true))).value;
        all := OneMore(ops, steps, all, p, end, FileStep(p, Rename(true, true)));
        end := Next(ops, end, FileStep(p, Rename(true, true))).value;
      }
    }
  }

  lemma ReleaseLocks(ops: Ops, steps: seq<Step>, all0: seq<Step>, p: Pid, s: State)
    returns (all: seq<Step>, end: State)
    requires LeadsTo(ops, steps, all0, p, s) && At(s, p).Release? && s.sidecar == Some(At(s, p).lock)
    ensures LeadsTo(ops, steps, all, p, end)
    ensures At(end, p).Idle? && LocksFree(end) && SameHistory(s, end) && end.sidecar == s.sidecar
  {
    all := OneMore(ops, steps, all0, p, s, LockStep(p, Unlock));
    end := Next(ops, s, LockStep(p, Unlock)).value;
    all := OneMore(ops, steps, all, p, end, LockStep(p, UnlockDirectory));
    end := Next(ops, end, LockStep(p, UnlockDirectory)).value;
  }

  /** From every reachable state, a process that starts an append while both locks are free and is refused
      nothing can go through with it alone. It ends with the locks free again, the sidecar in place, one
      entry logged, the file as one append leaves it, and its ticket acknowledged exactly if that append
      succeeds. */
  lemma UncontestedAppend(ops: Ops, steps: seq<Step>, p: Pid, job: Job) returns (all: seq<Step>, end: State)
    requires Run(ops, steps).Some? && At(Run(ops, steps).value, p).Idle? && LocksFree(Run(ops, steps).value)
    ensures LeadsTo(ops, steps, all, p, end)
    ensures var s := Run(ops, steps).value;
            && At(end, p).Idle? && LocksFree(end) && end.sidecar == Some(SidecarOf(s))
            && (Contents(end), s.tickets in end.acked) == Finished(ops, Contents(s), job)
            && |end.log| == |s.log| + 1 && s.log <= end.log && end.log[|s.log|].ticket == s.tickets
               && end.log[|s.log|].job == job
            && end.acked - {s.tickets} == s.acked
  {
    var s := Run(ops, steps).value;
    RunKeepsInv(ops, steps);
    NewTicket(ops, s, s);
    all, end := TakeLocks(ops, steps, p, job);
    RunKeepsInv(ops, all);
    all, end := WriteTheLine(ops, steps, all, p, end);
    TakeSnoc(s.log, Entry(s.tickets, job, Whole));
    all, end := SyncAndCompact(ops, steps, all, p, end);
    all, end := ReleaseLocks(ops, steps, all, p, end);
  }

  /** For a history file: such an append leaves what the append method leaves, with its compaction when it
      is due, and is acknowledged exactly if that method succeeds. */
  lemma UncontestedStoreAppend(c: Codec, steps: seq<Step>, p: Pid, job: Job) returns (all: seq<Step>, end: State)
    requires Run(StoreOps(c), steps).Some? && At(Run(StoreOps(c), steps).value, p).Idle?
             && LocksFree(Run(StoreOps(c), steps).value)
    ensures LeadsTo(StoreOps(c), steps, all, p, end)
    ensures var s, count := Run(StoreOps(c), steps).value, if job.due then 0 else 1;
            && At(end, p).Idle? && LocksFree(end)
            && (Contents(end), s.tickets in end.acked)
               == HistoryFile.CompactedWhenDue(c, Appended(Contents(s), job.line), count,
                                               HistoryFile.AtLeastOne(job.keep), HistoryFile.NoCompactFault)
  {
    var s := Run(StoreOps(c), steps).value;
    all, end := UncontestedAppend(StoreOps(c), steps, p, job);
    ScansIsScannable(c, Appended(Contents(s), job.line));
    CompactionMeaning(c, Contents(s), Entry(s.tickets, job, Whole), HistoryFile.NoCompactFault);
  }

  // ---- who takes and who frees a lock ----

  /** The holder of a lock may change only by being released by its holder or taken while free. */
  predicate HandedOver(before: Owner, after: Owner, step: Step) {
    || before == after
    || (before.Free? && if step.Outside? then after.Outsider? else after == Member(step.pid))
    || (after.Free? && if step.Outside? then before.Outsider? else before == Member(step.pid))
  }

  lemma LockStepHandsOver(s: State, p: Pid, action: LockAction, i: Inode)
    requires LockFacts(s, p, i) && NextLock(s, p, action).Some?
    ensures var after, step := NextLock(s, p, action).value, LockStep(p, action);
            HandedOver(s.directory, after.directory, step) && HandedOver(FlockOf(s, i), FlockOf(after, i), step)
  {
  }

  lemma OutsideHandsOver(s: State, step: Step, i: Inode)
    requires step.Outside? && NextOutside(s, step.interference).Some?
    ensures var after := NextOutside(s, step.interference).value;
            HandedOver(s.directory, after.directory, step) && HandedOver(FlockOf(s, i), FlockOf(after, i), step)
  {
  }

  lemma StepHandsOver(ops: Ops, s: State, step: Step, i: Inode)
    requires LocksOk(s) && Next(ops, s, step).Some?
    ensures var after := Next(ops, s, step).value;
            HandedOver(s.directory, after.directory, step) && HandedOver(FlockOf(s, i), FlockOf(after, i), step)
  {
    match step
    case LockStep(p, action) =>
      assert LockFacts(s, p, i);
      LockStepHandsOver(s, p, action, i);
    case FileStep(p, action) => FileStepFrame(ops, s, p, action);
    case Outside(_) => OutsideHandsOver(s, step, i);
  }

  /** No step takes a lock away from its holder, and only the holder frees it, by unlocking or by dying. */
  lemma LocksAreHandedOver(ops: Ops, steps: seq<Step>, step: Step, i: Inode)
    requires Run(ops, steps).Some? && Next(ops, Run(ops, steps).value, step).Some?
    ensures var s, after := Run(ops, steps).value, Next(ops, Run(ops, steps).value, step).value;
            HandedOver(s.directory, after.directory, step) && HandedOver(FlockOf(s, i), FlockOf(after, i), step)
  {
    var s := Run(ops, steps).value;
    RunKeepsInv(ops, steps);
    StepHandsOver(ops, s, step, i);
  }
}
