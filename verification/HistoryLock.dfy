/** The cross-process protocol around one history file: any number of processes take the directory
    flock, then the sidecar flock, append, perhaps compact by renaming a temporary over the file,
    and release, one step at a time and in any interleaving. Locks time out, processes die, and
    anyone may rename, remove or flock the sidecar at any moment. */
module HistoryLock {
  import opened Outcomes
  import opened Sequences
  import opened HistoryLines
  import opened HistoryStore
  import HistoryFile

  type Pid = nat
  type Inode = nat

  /** Who holds the flock of one open file; `Outsider` is any process that ignores the protocol. */
  datatype Owner = Free | Member(pid: Pid) | Outsider

  /** One append: the encoded line, the entry limit for a compaction, and whether the process's
      append counter makes one due. */
  datatype Job = Job(line: Bytes, keep: nat, due: bool)

  datatype Phase =
    | Idle
    | WaitDirectory(job: Job)
    | OpenSidecar(job: Job)
    | WaitSidecar(job: Job, lock: Inode)
    | OpenHistory(job: Job, lock: Inode, ticket: nat)
    | InspectTail(job: Job, lock: Inode, ticket: nat, file: Inode)
    | WriteLine(job: Job, lock: Inode, ticket: nat, file: Inode, payload: Bytes)
    | SyncLine(job: Job, lock: Inode, ticket: nat, file: Inode)
    | ScanFile(job: Job, lock: Inode, ticket: nat)
    | WriteTemp(job: Job, lock: Inode, ticket: nat, seen: Bytes)
    | RenameTemp(job: Job, lock: Inode, ticket: nat, temp: Inode)
    | Release(lock: Inode)
    | ReleaseDirectory

  /** How far one append has changed the file: it wrote the first bytes of its payload only, or the
      whole payload, or it has also replaced the file by its compaction. */
  datatype Outcome = Torn(written: nat) | Whole | Replaced

  /** What one append did, stamped with the lock acquisition it happened under. */
  datatype Entry = Entry(ticket: nat, job: Job, outcome: Outcome)

  datatype State = State(
    directory: Owner,
    sidecar: Option<Inode>,
    flocks: map<Inode, Owner>,
    history: Option<Inode>,
    files: map<Inode, Bytes>,
    next: Inode,
    phases: map<Pid, Phase>,
    tickets: nat,
    log: seq<Entry>,
    acked: set<nat>)

  /** Steps that take and release locks. */
  datatype LockAction =
    | Begin(job: Job)
    | TakeDirectory
    | OpenLockFile(ok: bool)
    | TakeSidecar
    | TimeOut
    | Unlock
    | UnlockDirectory
    | Die

  /** Steps inside the critical section; the arguments say what the operating system answered. */
  datatype FileAction =
    | OpenFile(ok: bool)
    | Inspect
    | Write(written: nat)
    | Sync(ok: bool)
    | Scan
    | CreateTemp(ok: bool)
    | Rename(renamed: bool, synced: bool)

  /** What processes outside the protocol may do. */
  datatype Interference =
    | MoveSidecar(name: Option<Inode>)
    | OutsiderFlock(inode: Inode, take: bool)
    | OutsiderDirectory(take: bool)

  datatype Step =
    | LockStep(pid: Pid, lockAction: LockAction)
    | FileStep(pid: Pid, fileAction: FileAction)
    | Outside(interference: Interference)

  /** The store operations the protocol performs, as functions of the file contents: what an append
      writes, what a compaction writes, and whether its scan succeeds. The protocol does not depend
      on what they are. */
  datatype Ops = Ops(payload: (Bytes, Bytes) -> Bytes, compacted: (Bytes, nat) -> Bytes, scans: Bytes -> bool)

  /** The operations of the history store. */
  function StoreOps(c: Codec): Ops {
    Ops(Payload, (s: Bytes, keep: nat) => Compacted(c, s, keep, MAX_FILE_BYTES),
        s => (forall i | 0 <= i < |Lines(s)| :: Decodable(c, Lines(s)[i])) && (Tail(s) != [] ==> Decodable(c, Tail(s))))
  }

  function At(s: State, p: Pid): Phase {
    if p in s.phases then s.phases[p] else Idle
  }

  function Contents(s: State): Bytes {
    if s.history.Some? && s.history.value in s.files then s.files[s.history.value] else []
  }

  function FlockOf(s: State, i: Inode): Owner {
    if i in s.flocks then s.flocks[i] else Free
  }

  predicate HoldsDirectory(ph: Phase) {
    !ph.Idle? && !ph.WaitDirectory?
  }

  /** Inside the critical section: both locks are held. */
  predicate Critical(ph: Phase) {
    HoldsDirectory(ph) && !ph.OpenSidecar? && !ph.WaitSidecar? && !ph.ReleaseDirectory?
  }

  function Goto(s: State, p: Pid, ph: Phase): State {
    s.(phases := s.phases[p := ph])
  }

  function Acknowledge(s: State, ticket: nat): State {
    s.(acked := s.acked + {ticket})
  }

  /** The history with its last entry replaced. */
  function Amend(log: seq<Entry>, e: Entry): seq<Entry> {
    if log == [] then [e] else log[..|log| - 1] + [e]
  }

  /** Whether an append that leaves these contents goes on to compact. */
  predicate Due(job: Job, contents: Bytes) {
    job.due || |contents| > MAX_FILE_BYTES
  }

  /** HistoryFileLock::acquire and its Drop, step by step. */
  function NextLock(s: State, p: Pid, action: LockAction): Option<State> {
    var ph := At(s, p);
    match action
    case Begin(job) =>
      if ph.Idle? then Some(Goto(s, p, WaitDirectory(job))) else None
    case TakeDirectory =>
      if ph.WaitDirectory? && s.directory.Free? then Some(Goto(s, p, OpenSidecar(ph.job)).(directory := Member(p)))
          else None
    case OpenLockFile(ok) =>
      if !ph.OpenSidecar? then None
      else if !ok then Some(Goto(s, p, ReleaseDirectory))
      else if s.sidecar.Some? then Some(Goto(s, p, WaitSidecar(ph.job, s.sidecar.value)))
      else Some(Goto(s, p, WaitSidecar(ph.job, s.next)).(sidecar := Some(s.next), next := s.next + 1))
    case TakeSidecar =>
      if ph.WaitSidecar? && FlockOf(s, ph.lock).Free?
      then Some(Goto(s, p, OpenHistory(ph.job, ph.lock, s.tickets)).(flocks := s.flocks[ph.lock := Member(p)],
          tickets := s.tickets + 1)) else None
    case TimeOut =>
      if ph.WaitDirectory? then Some(Goto(s, p, Idle))
      else if ph.WaitSidecar? then Some(Goto(s, p, ReleaseDirectory)) else None
    case Unlock =>
      if ph.Release? then Some(Goto(s, p, ReleaseDirectory).(flocks := s.flocks[ph.lock := Free])) else None
    case UnlockDirectory =>
      if ph.ReleaseDirectory? then Some(Goto(s, p, Idle).(directory := Free)) else None
    case Die =>
      Some(Goto(s, p, Idle).(
        directory := if HoldsDirectory(ph) then Free else s.directory,
        flocks := if Critical(ph) then s.flocks[LockOf(ph) := Free] else s.flocks))
  }

  /** The body of append and of compact_locked, step by step. */
  function NextFile(ops: Ops, s: State, p: Pid, action: FileAction): Option<State> {
    var ph := At(s, p);
    match action
    case OpenFile(ok) =>
      if !ph.OpenHistory? then None
      else if !ok then Some(Goto(s, p, Release(ph.lock)))
      else if s.history.Some? then Some(Goto(s, p, InspectTail(ph.job, ph.lock, ph.ticket, s.history.value)))
      else Some(Goto(s, p, InspectTail(ph.job, ph.lock, ph.ticket, s.next)).(history := Some(s.next),
          files := s.files[s.next := []], next := s.next + 1))
    case Inspect =>
      if ph.InspectTail? && ph.file in s.files
      then Some(Goto(s, p, WriteLine(ph.job, ph.lock, ph.ticket, ph.file, ops.payload(s.files[ph.file], ph.job.line))))
          else None
    case Write(written) =>
      if !(ph.WriteLine? && ph.file in s.files) then None
      else if written < |ph.payload| then
        Some(Goto(s, p, Release(ph.lock)).(
          files := s.files[ph.file := s.files[ph.file] + ph.payload[..written]],
          log := s.log + [Entry(ph.ticket, ph.job, Torn(written))]))
      else
        Some(Goto(s, p, SyncLine(ph.job, ph.lock, ph.ticket, ph.file)).(
          files := s.files[ph.file := s.files[ph.file] + ph.payload],
          log := s.log + [Entry(ph.ticket, ph.job, Whole)]))
    case Sync(ok) =>
      if !(ph.SyncLine? && ph.file in s.files) then None
      else if !ok then Some(Goto(s, p, Release(ph.lock)))
      else if Due(ph.job, s.files[ph.file]) then Some(Goto(s, p, ScanFile(ph.job, ph.lock, ph.ticket)))
      else Some(Acknowledge(Goto(s, p, Release(ph.lock)), ph.ticket))
    case Scan =>
      if !ph.ScanFile? then None
      else if s.history.Some? && s.history.value in s.files && ops.scans(s.files[s.history.value])
      then Some(Goto(s, p, WriteTemp(ph.job, ph.lock, ph.ticket, s.files[s.history.value])))
      else Some(Goto(s, p, Release(ph.lock)))
    case CreateTemp(ok) =>
      if !ph.WriteTemp? then None
      else if !ok then Some(Goto(s, p, Release(ph.lock)))
      else Some(Goto(s, p, RenameTemp(ph.job, ph.lock, ph.ticket, s.next)).(
        files := s.files[s.next := ops.compacted(ph.seen, HistoryFile.AtLeastOne(ph.job.keep))], next := s.next + 1))
    case Rename(renamed, synced) =>
      if !ph.RenameTemp? then None
      else if !renamed then Some(Goto(s, p, Release(ph.lock)))
      else
        var s' := Goto(s, p, Release(ph.lock)).(
          history := Some(ph.temp), log := Amend(s.log, Entry(ph.ticket, ph.job, Replaced)));
        Some(if synced then Acknowledge(s', ph.ticket) else s')
  }

  function NextOutside(s: State, i: Interference): Option<State> {
    match i
    case MoveSidecar(name) =>
      if name.Some? && name.value >= s.next then None else Some(s.(sidecar := name))
    case OutsiderFlock(inode, take) =>
      if take && FlockOf(s, inode).Free? then Some(s.(flocks := s.flocks[inode := Outsider]))
      else if !take && FlockOf(s, inode).Outsider? then Some(s.(flocks := s.flocks[inode := Free]))
      else None
    case OutsiderDirectory(take) =>
      if take && s.directory.Free? then Some(s.(directory := Outsider))
      else if !take && s.directory.Outsider? then Some(s.(directory := Free))
      else None
  }

  /** The state after one step, if the step can be taken. */
  function Next(ops: Ops, s: State, step: Step): Option<State> {
    match step
    case LockStep(p, action) => NextLock(s, p, action)
    case FileStep(p, action) => NextFile(ops, s, p, action)
    case Outside(i) => NextOutside(s, i)
  }

  function LockOf(ph: Phase): Inode
    requires Critical(ph)
  {
    ph.lock
  }

  const Init := State(Free, None, map[], None, map[], 0, map[], 0, [], {})

  function Run(ops: Ops, steps: seq<Step>): Option<State> {
    if steps == [] then Some(Init)
    else
      match Run(ops, steps[..|steps| - 1])
      case None => None
      case Some(s) => Next(ops, s, steps[|steps| - 1])
  }

  // ---------------------------------------------------------------- the sequential meaning

  /** The contents after one append with this outcome. */
  function Perform(ops: Ops, s: Bytes, e: Entry): Bytes {
    var payload := ops.payload(s, e.job.line);
    match e.outcome
    case Torn(n) => s + Take(payload, n)
    case Whole => s + payload
    case Replaced => ops.compacted(s + payload, HistoryFile.AtLeastOne(e.job.keep))
  }

  /** The file a single process would have produced by performing the logged appends in order. */
  function Replay(ops: Ops, log: seq<Entry>): Bytes {
    if log == [] then [] else Perform(ops, Replay(ops, log[..|log| - 1]), log[|log| - 1])
  }

  predicate Ordered(log: seq<Entry>) {
    forall i, j | 0 <= i < j < |log| :: log[i].ticket < log[j].ticket
  }

  /** What one append may do to the contents it finds: a torn write misses part of the payload and is
      not acknowledged; a whole one is acknowledged only if no compaction was due; a compaction is
      made only when due and when the file scans. */
  predicate OutcomeOk(ops: Ops, before: Bytes, e: Entry, acked: bool) {
    var payload := ops.payload(before, e.job.line);
    match e.outcome
    case Torn(n) => n < |payload| && !acked
    case Whole => acked ==> !Due(e.job, before + payload)
    case Replaced => Due(e.job, before + payload) && ops.scans(before + payload)
  }

  /** Every logged append did, to the contents left by those before it, what an append may do. */
  predicate Legal(ops: Ops, log: seq<Entry>, acked: set<nat>) {
    log == [] ||
    var before, e := log[..|log| - 1], log[|log| - 1];
    Legal(ops, before, acked) && OutcomeOk(ops, Replay(ops, before), e, e.ticket in acked)
  }

  /** No append under this acquisition has changed the file yet. */
  predicate Untouched(s: State, t: nat) {
    t !in s.acked && forall i | 0 <= i < |s.log| :: s.log[i].ticket < t
  }

  /** The append under this acquisition has written its line and is the last to have changed the file. */
  predicate Written(s: State, t: nat, job: Job) {
    t !in s.acked && s.log != [] && s.log[|s.log| - 1] == Entry(t, job, Whole)
  }

  /** What is known of the one process that holds the directory, besides its locks. */
  ghost predicate HolderOk(ops: Ops, s: State, ph: Phase) {
    match ph
    case OpenHistory(_, _, t) => Latest(s, t) && Untouched(s, t)
    case InspectTail(_, _, t, file) => Latest(s, t) && Untouched(s, t) && s.history == Some(file)
    case WriteLine(job, _, t, file, payload) =>
      Latest(s, t) && Untouched(s, t) && s.history == Some(file) && payload == ops.payload(Contents(s), job.line)
    case SyncLine(job, _, t, file) => Latest(s, t) && Written(s, t, job) && s.history == Some(file)
    case ScanFile(job, _, t) => Latest(s, t) && Written(s, t, job) && Due(job, Contents(s)) && s.history.Some?
    case WriteTemp(job, _, t, seen) =>
      Latest(s, t) && Written(s, t, job) && Due(job, Contents(s)) && seen == Contents(s) && ops.scans(seen)
    case RenameTemp(job, _, t, temp) =>
      && Latest(s, t) && Written(s, t, job) && Due(job, Contents(s)) && ops.scans(Contents(s))
      && temp in s.files && s.files[temp] == ops.compacted(Contents(s), HistoryFile.AtLeastOne(job.keep))
    case _ => true
  }

  /** `t` is the newest lock acquisition so far. */
  predicate Latest(s: State, t: nat) {
    t + 1 == s.tickets
  }

  /** The locks of one process and the owner of one sidecar inode agree with its phase. */
  ghost predicate LockFacts(s: State, p: Pid, i: Inode) {
    var ph := At(s, p);
    && (HoldsDirectory(ph) <==> s.directory == Member(p))
    && (Critical(ph) && LockOf(ph) == i <==> FlockOf(s, i) == Member(p))
  }

  ghost predicate LocksOk(s: State) {
    forall p: Pid, i: Inode :: LockFacts(s, p, i)
  }

  ghost predicate FilesOk(s: State) {
    && (s.history.Some? ==> s.history.value in s.files)
    && (forall i: Inode | i in s.files :: i < s.next)
  }

  ghost predicate LogOk(ops: Ops, s: State) {
    && Contents(s) == Replay(ops, s.log)
    && Ordered(s.log) && Legal(ops, s.log, s.acked)
    && (forall i | 0 <= i < |s.log| :: s.log[i].ticket < s.tickets)
    && (forall t | t in s.acked :: exists i :: 0 <= i < |s.log| && s.log[i].ticket == t)
  }

  ghost predicate Inv(ops: Ops, s: State) {
    && LocksOk(s) && FilesOk(s) && LogOk(ops, s)
    && (forall p: Pid :: HolderOk(ops, s, At(s, p)))
  }

  // ---------------------------------------------------------------- every step keeps the invariant

  lemma LockStepKeepsLocks(s: State, p: Pid, action: LockAction, q: Pid, i: Inode)
    requires LocksOk(s) && NextLock(s, p, action).Some?
    ensures LockFacts(NextLock(s, p, action).value, q, i)
  {
    assert LockFacts(s, p, i) && LockFacts(s, q, i);
    if At(s, p).WaitSidecar? {
      assert LockFacts(s, q, At(s, p).lock);
    }
  }

  /** Inside the critical section both locks stay held. */
  lemma FileStepKeepsLocks(ops: Ops, s: State, p: Pid, action: FileAction)
    requires NextFile(ops, s, p, action).Some?
    ensures var s' := NextFile(ops, s, p, action).value;
            && s'.directory == s.directory && s'.flocks == s.flocks && s'.tickets == s.tickets
            && Critical(At(s, p)) && Critical(At(s', p)) && LockOf(At(s', p)) == LockOf(At(s, p))
            && forall q | q != p :: At(s', q) == At(s, q)
  {
    FileStepPhase(ops, s, p, action);
    FileStepFrame(ops, s, p, action);
    forall q | q != p
      ensures At(NextFile(ops, s, p, action).value, q) == At(s, q)
    {
      FileStepOthers(ops, s, p, action, q);
    }
  }

  lemma FileStepPhase(ops: Ops, s: State, p: Pid, action: FileAction)
    requires NextFile(ops, s, p, action).Some?
    ensures var s' := NextFile(ops, s, p, action).value;
            Critical(At(s, p)) && Critical(At(s', p)) && LockOf(At(s', p)) == LockOf(At(s, p))
  {
  }

  lemma FileStepFrame(ops: Ops, s: State, p: Pid, action: FileAction)
    requires NextFile(ops, s, p, action).Some?
    ensures var s' := NextFile(ops, s, p, action).value;
            s'.directory == s.directory && s'.flocks == s.flocks && s'.tickets == s.tickets
  {
  }

  lemma FileStepOthers(ops: Ops, s: State, p: Pid, action: FileAction, q: Pid)
    requires NextFile(ops, s, p, action).Some? && q != p
    ensures At(NextFile(ops, s, p, action).value, q) == At(s, q)
  {
  }

  lemma StepKeepsLocks(ops: Ops, s: State, step: Step)
    requires LocksOk(s) && Next(ops, s, step).Some?
    ensures LocksOk(Next(ops, s, step).value)
  {
    var s' := Next(ops, s, step).value;
    forall q: Pid, i: Inode ensures LockFacts(s', q, i) {
      assert LockFacts(s, q, i);
      match step {
        case LockStep(p, action) => LockStepKeepsLocks(s, p, action, q, i);
        case FileStep(p, action) => FileStepKeepsLocks(ops, s, p, action);
        case Outside(_) =>
      }
    }
  }

  lemma ReplaySnoc(ops: Ops, log: seq<Entry>, e: Entry)
    ensures Replay(ops, log + [e]) == Perform(ops, Replay(ops, log), e)
  {
    TakeSnoc(log, e);
  }

  lemma LegalSnoc(ops: Ops, log: seq<Entry>, acked: set<nat>, e: Entry)
    requires Legal(ops, log, acked) && OutcomeOk(ops, Replay(ops, log), e, e.ticket in acked)
    ensures Legal(ops, log + [e], acked)
  {
    TakeSnoc(log, e);
  }

  /** Acknowledging an acquisition that has no entry here changes nothing here. */
  lemma {:induction false} LegalAcknowledged(ops: Ops, log: seq<Entry>, acked: set<nat>, t: nat)
    requires Legal(ops, log, acked) && forall i | 0 <= i < |log| :: log[i].ticket != t
    ensures Legal(ops, log, acked + {t})
  {
    if log != [] {
      LegalAcknowledged(ops, log[..|log| - 1], acked, t);
    }
  }

  /** The first change made under the newest acquisition extends the sequential history. */
  lemma LogGrows(ops: Ops, s: State, s': State, e: Entry)
    requires LogOk(ops, s) && Latest(s, e.ticket) && Untouched(s, e.ticket)
    requires s'.log == s.log + [e] && s'.tickets == s.tickets && s'.acked == s.acked
    requires OutcomeOk(ops, Contents(s), e, false) && Contents(s') == Perform(ops, Contents(s), e)
    ensures LogOk(ops, s')
  {
    ReplaySnoc(ops, s.log, e);
    LegalSnoc(ops, s.log, s.acked, e);
    forall t | t in s'.acked
      ensures exists i :: 0 <= i < |s'.log| && s'.log[i].ticket == t
    {
      var i :| 0 <= i < |s.log| && s.log[i].ticket == t;
      assert s'.log[i].ticket == t;
    }
  }

  lemma AmendedListed(log: seq<Entry>, e: Entry, t: nat)
    requires log != [] && log[|log| - 1].ticket == e.ticket && exists i :: 0 <= i < |log| && log[i].ticket == t
    ensures var amended := log[..|log| - 1] + [e]; exists i :: 0 <= i < |amended| && amended[i].ticket == t
  {
    var i :| 0 <= i < |log| && log[i].ticket == t;
    assert (log[..|log| - 1] + [e])[i].ticket == t;
  }

  lemma AmendedOrdered(log: seq<Entry>, e: Entry, tickets: nat)
    requires log != [] && log[|log| - 1].ticket == e.ticket && Ordered(log)
    requires forall i | 0 <= i < |log| :: log[i].ticket < tickets
    ensures var amended := log[..|log| - 1] + [e];
            && Ordered(amended) && forall i | 0 <= i < |amended| :: amended[i].ticket < tickets
  {
    var amended := log[..|log| - 1] + [e];
    forall i | 0 <= i < |amended|
      ensures amended[i].ticket == log[i].ticket
    {
    }
  }

  lemma AmendedLegal(ops: Ops, log: seq<Entry>, acked: set<nat>, e: Entry, now: set<nat>)
    requires log != [] && log[|log| - 1].ticket == e.ticket && Ordered(log) && Legal(ops, log, acked)
    requires now == acked || now == acked + {e.ticket}
    requires OutcomeOk(ops, Replay(ops, log[..|log| - 1]), e, e.ticket in now)
    ensures var amended := log[..|log| - 1] + [e];
            Legal(ops, amended, now) && Replay(ops, amended) == Perform(ops, Replay(ops, log[..|log| - 1]), e)
  {
    var front := log[..|log| - 1];
    ReplaySnoc(ops, front, e);
    if now != acked {
      LegalAcknowledged(ops, front, acked, e.ticket);
    }
    LegalSnoc(ops, front, now, e);
  }

  /** The last append ends differently, or is acknowledged, or both. */
  lemma LogAmended(ops: Ops, s: State, s': State, e: Entry, acked: bool)
    requires LogOk(ops, s) && Latest(s, e.ticket) && s.log != [] && s.log[|s.log| - 1].ticket == e.ticket
    requires s'.log == s.log[..|s.log| - 1] + [e] && s'.tickets == s.tickets
    requires s'.acked == if acked then s.acked + {e.ticket} else s.acked
    requires acked || e.ticket !in s.acked
    requires var before := Replay(ops, s.log[..|s.log| - 1]);
             OutcomeOk(ops, before, e, acked) && Contents(s') == Perform(ops, before, e)
    ensures LogOk(ops, s')
  {
    AmendedOrdered(s.log, e, s.tickets);
    AmendedLegal(ops, s.log, s.acked, e, s'.acked);
    forall t | t in s'.acked
      ensures exists i :: 0 <= i < |s'.log| && s'.log[i].ticket == t
    {
      assert t == e.ticket ==> s.log[|s.log| - 1].ticket == t;
      AmendedListed(s.log, e, t);
    }
  }

  ghost predicate DataOk(ops: Ops, s: State) {
    FilesOk(s) && LogOk(ops, s)
  }

  /** Lock steps leave the files and the log alone. */
  lemma LockStepFrame(s: State, p: Pid, action: LockAction)
    requires NextLock(s, p, action).Some?
    ensures var s' := NextLock(s, p, action).value;
            && s'.files == s.files && s'.history == s.history && s'.log == s.log && s'.acked == s.acked
            && s'.next >= s.next && s'.tickets >= s.tickets
  {
  }

  lemma LockStepOthers(s: State, p: Pid, action: LockAction, q: Pid)
    requires NextLock(s, p, action).Some? && q != p
    ensures At(NextLock(s, p, action).value, q) == At(s, q)
  {
  }

  lemma DataFrame(ops: Ops, s: State, s': State)
    requires DataOk(ops, s)
    requires s'.files == s.files && s'.history == s.history && s'.log == s.log && s'.acked == s.acked
    requires s'.next >= s.next && s'.tickets >= s.tickets
    ensures DataOk(ops, s')
  {
  }

  /** A new acquisition has changed nothing yet. */
  lemma NewTicket(ops: Ops, s: State, s': State)
    requires LogOk(ops, s) && s'.log == s.log && s'.acked == s.acked
    ensures Untouched(s', s.tickets)
  {
    assert forall t | t in s.acked :: t < s.tickets;
  }

  lemma LockStepKeepsData(ops: Ops, s: State, p: Pid, action: LockAction)
    requires DataOk(ops, s) && NextLock(s, p, action).Some?
    ensures var s' := NextLock(s, p, action).value;
            && DataOk(ops, s') && s'.files == s.files && s'.history == s.history && s'.log == s.log
               && s'.acked == s.acked
            && (At(s', p).OpenHistory? ==> Latest(s', At(s', p).ticket) && Untouched(s', At(s', p).ticket))
            && (HoldsDirectory(At(s', p)) ==> At(s', p).OpenHistory? || !Critical(At(s', p)))
            && (s'.tickets != s.tickets ==> HoldsDirectory(At(s, p)))
            && forall q | q != p :: At(s', q) == At(s, q)
  {
    var s' := NextLock(s, p, action).value;
    LockStepFrame(s, p, action);
    DataFrame(ops, s, s');
    NewTicket(ops, s, s');
    LockStepPhases(s, p, action);
    forall q | q != p
      ensures At(s', q) == At(s, q)
    {
      LockStepOthers(s, p, action, q);
    }
  }

  lemma LockStepPhases(s: State, p: Pid, action: LockAction)
    requires NextLock(s, p, action).Some?
    ensures var s' := NextLock(s, p, action).value;
            && (At(s', p).OpenHistory? ==> At(s', p).ticket == s.tickets && Latest(s', s.tickets))
            && (HoldsDirectory(At(s', p)) ==> At(s', p).OpenHistory? || !Critical(At(s', p)))
            && (s'.tickets != s.tickets ==> HoldsDirectory(At(s, p)))
  {
  }

  lemma TornEffect(ops: Ops, s: State, p: Pid, written: nat)
    requires FilesOk(s) && At(s, p).WriteLine? && s.history == Some(At(s, p).file) && written < |At(s, p).payload|
    requires NextFile(ops, s, p, Write(written)).Some?
    ensures var s', ph := NextFile(ops, s, p, Write(written)).value, At(s, p);
            && FilesOk(s') && Contents(s') == Contents(s) + ph.payload[..written] && At(s', p) == Release(ph.lock)
            && s'.log == s.log + [Entry(ph.ticket, ph.job, Torn(written))] && s'.tickets == s.tickets
               && s'.acked == s.acked
  {
  }

  lemma TornKeepsData(ops: Ops, s: State, p: Pid, written: nat)
    requires DataOk(ops, s) && HolderOk(ops, s, At(s, p)) && NextFile(ops, s, p, Write(written)).Some?
    requires written < |At(s, p).payload|
    ensures var s' := NextFile(ops, s, p, Write(written)).value; DataOk(ops, s') && HolderOk(ops, s', At(s', p))
  {
    var s', ph := NextFile(ops, s, p, Write(written)).value, At(s, p);
    TornEffect(ops, s, p, written);
    LogGrows(ops, s, s', Entry(ph.ticket, ph.job, Torn(written)));
  }

  lemma WholeEffect(ops: Ops, s: State, p: Pid, written: nat)
    requires FilesOk(s) && At(s, p).WriteLine? && s.history == Some(At(s, p).file) && written >= |At(s, p).payload|
    requires NextFile(ops, s, p, Write(written)).Some?
    ensures var s', ph := NextFile(ops, s, p, Write(written)).value, At(s, p);
            && FilesOk(s') && Contents(s') == Contents(s) + ph.payload && s'.history == s.history
            && At(s', p) == SyncLine(ph.job, ph.lock, ph.ticket, ph.file)
            && s'.log == s.log + [Entry(ph.ticket, ph.job, Whole)] && s'.tickets == s.tickets && s'.acked == s.acked
  {
  }

  lemma WholeKeepsData(ops: Ops, s: State, p: Pid, written: nat)
    requires DataOk(ops, s) && HolderOk(ops, s, At(s, p)) && NextFile(ops, s, p, Write(written)).Some?
    requires written >= |At(s, p).payload|
    ensures var s' := NextFile(ops, s, p, Write(written)).value; DataOk(ops, s') && HolderOk(ops, s', At(s', p))
  {
    var s', ph := NextFile(ops, s, p, Write(written)).value, At(s, p);
    WholeEffect(ops, s, p, written);
    LogGrows(ops, s, s', Entry(ph.ticket, ph.job, Whole));
    assert s'.log[|s'.log| - 1] == Entry(ph.ticket, ph.job, Whole);
  }

  lemma WriteKeepsData(ops: Ops, s: State, p: Pid, written: nat)
    requires DataOk(ops, s) && HolderOk(ops, s, At(s, p)) && NextFile(ops, s, p, Write(written)).Some?
    ensures var s' := NextFile(ops, s, p, Write(written)).value; DataOk(ops, s') && HolderOk(ops, s', At(s', p))
  {
    if written < |At(s, p).payload| {
      TornKeepsData(ops, s, p, written);
    } else {
      WholeKeepsData(ops, s, p, written);
    }
  }

  lemma RenameEffect(ops: Ops, s: State, p: Pid, synced: bool)
    requires FilesOk(s) && At(s, p).RenameTemp? && At(s, p).temp in s.files && s.log != []
    ensures var s', ph := NextFile(ops, s, p, Rename(true, synced)).value, At(s, p);
            && FilesOk(s') && Contents(s') == s.files[ph.temp] && At(s', p) == Release(ph.lock)
            && s'.log == s.log[..|s.log| - 1] + [Entry(ph.ticket, ph.job, Replaced)] && s'.tickets == s.tickets
            && s'.acked == if synced then s.acked + {ph.ticket} else s.acked
  {
  }

  lemma RenameKeepsData(ops: Ops, s: State, p: Pid, renamed: bool, synced: bool)
    requires DataOk(ops, s) && HolderOk(ops, s, At(s, p)) && NextFile(ops, s, p, Rename(renamed, synced)).Some?
    ensures var s' := NextFile(ops, s, p, Rename(renamed, synced)).value;
            DataOk(ops, s') && HolderOk(ops, s', At(s', p))
  {
    var s', ph := NextFile(ops, s, p, Rename(renamed, synced)).value, At(s, p);
    if renamed {
      RenameEffect(ops, s, p, synced);
      SplitLast(s.log);
      LogAmended(ops, s, s', Entry(ph.ticket, ph.job, Replaced), synced);
    }
  }

  lemma OpenKeepsData(ops: Ops, s: State, p: Pid, ok: bool)
    requires DataOk(ops, s) && HolderOk(ops, s, At(s, p)) && NextFile(ops, s, p, OpenFile(ok)).Some?
    ensures var s' := NextFile(ops, s, p, OpenFile(ok)).value; DataOk(ops, s') && HolderOk(ops, s', At(s', p))
  {
    var s' := NextFile(ops, s, p, OpenFile(ok)).value;
    assert Contents(s') == Contents(s) && s'.log == s.log && s'.acked == s.acked;
  }

  lemma InspectKeepsData(ops: Ops, s: State, p: Pid)
    requires DataOk(ops, s) && HolderOk(ops, s, At(s, p)) && NextFile(ops, s, p, Inspect).Some?
    ensures var s' := NextFile(ops, s, p, Inspect).value; DataOk(ops, s') && HolderOk(ops, s', At(s', p))
  {
  }

  lemma ScanKeepsData(ops: Ops, s: State, p: Pid)
    requires DataOk(ops, s) && HolderOk(ops, s, At(s, p)) && NextFile(ops, s, p, Scan).Some?
    ensures var s' := NextFile(ops, s, p, Scan).value; DataOk(ops, s') && HolderOk(ops, s', At(s', p))
  {
  }

  lemma TempKeepsData(ops: Ops, s: State, p: Pid, ok: bool)
    requires DataOk(ops, s) && HolderOk(ops, s, At(s, p)) && NextFile(ops, s, p, CreateTemp(ok)).Some?
    ensures var s' := NextFile(ops, s, p, CreateTemp(ok)).value; DataOk(ops, s') && HolderOk(ops, s', At(s', p))
  {
    var s' := NextFile(ops, s, p, CreateTemp(ok)).value;
    assert Contents(s') == Contents(s) && s'.log == s.log && s'.acked == s.acked;
  }

  lemma SyncEffect(ops: Ops, s: State, p: Pid, ok: bool)
    requires FilesOk(s) && At(s, p).SyncLine? && s.history == Some(At(s, p).file)
    requires NextFile(ops, s, p, Sync(ok)).Some?
    ensures var s', ph := NextFile(ops, s, p, Sync(ok)).value, At(s, p);
            && FilesOk(s') && Contents(s') == Contents(s) && s'.log == s.log && s'.tickets == s.tickets
            && s'.history == s.history
            && (At(s', p) == ScanFile(ph.job, ph.lock, ph.ticket) || At(s', p) == Release(ph.lock))
            && (At(s', p).ScanFile? ==> Due(ph.job, Contents(s)))
            && (|| s'.acked == s.acked
                || (At(s', p).Release? && s'.acked == s.acked + {ph.ticket} && !Due(ph.job, Contents(s))))
  {
  }

  lemma SyncKeepsData(ops: Ops, s: State, p: Pid, ok: bool)
    requires DataOk(ops, s) && HolderOk(ops, s, At(s, p)) && NextFile(ops, s, p, Sync(ok)).Some?
    ensures var s' := NextFile(ops, s, p, Sync(ok)).value; DataOk(ops, s') && HolderOk(ops, s', At(s', p))
  {
    var s', ph := NextFile(ops, s, p, Sync(ok)).value, At(s, p);
    SyncEffect(ops, s, p, ok);
    if s'.acked != s.acked {
      SplitLast(s.log);
      LogAmended(ops, s, s', Entry(ph.ticket, ph.job, Whole), true);
    }
  }

  lemma FileStepKeepsData(ops: Ops, s: State, p: Pid, action: FileAction)
    requires DataOk(ops, s) && HolderOk(ops, s, At(s, p)) && NextFile(ops, s, p, action).Some?
    ensures var s' := NextFile(ops, s, p, action).value; DataOk(ops, s') && HolderOk(ops, s', At(s', p))
  {
    match action {
      case OpenFile(ok) => OpenKeepsData(ops, s, p, ok);
      case CreateTemp(ok) => TempKeepsData(ops, s, p, ok);
      case Sync(ok) => SyncKeepsData(ops, s, p, ok);
      case Write(written) => WriteKeepsData(ops, s, p, written);
      case Rename(renamed, synced) => RenameKeepsData(ops, s, p, renamed, synced);
      case Inspect => InspectKeepsData(ops, s, p);
      case Scan => ScanKeepsData(ops, s, p);
    }
  }

  /** Nobody but the directory holder has anything at stake in the files. */
  lemma OthersHoldNothing(s: State, p: Pid, q: Pid)
    requires LocksOk(s) && HoldsDirectory(At(s, p)) && p != q
    ensures !HoldsDirectory(At(s, q))
  {
    assert LockFacts(s, p, 0) && LockFacts(s, q, 0);
  }

  lemma LockStepKeepsHolders(ops: Ops, s: State, p: Pid, action: LockAction, q: Pid)
    requires Inv(ops, s) && NextLock(s, p, action).Some?
    ensures HolderOk(ops, NextLock(s, p, action).value, At(NextLock(s, p, action).value, q))
  {
    assert HolderOk(ops, s, At(s, q));
    LockStepKeepsData(ops, s, p, action);
    if p != q && HoldsDirectory(At(s, p)) {
      OthersHoldNothing(s, p, q);
    }
  }

  lemma FileStepKeepsHolders(ops: Ops, s: State, p: Pid, action: FileAction, q: Pid)
    requires Inv(ops, s) && NextFile(ops, s, p, action).Some?
    ensures HolderOk(ops, NextFile(ops, s, p, action).value, At(NextFile(ops, s, p, action).value, q))
  {
    assert HolderOk(ops, s, At(s, p)) && HolderOk(ops, s, At(s, q));
    FileStepKeepsData(ops, s, p, action);
    FileStepKeepsLocks(ops, s, p, action);
    if p != q {
      OthersHoldNothing(s, p, q);
    }
  }

  lemma StepKeepsHolders(ops: Ops, s: State, step: Step, q: Pid)
    requires Inv(ops, s) && Next(ops, s, step).Some?
    ensures HolderOk(ops, Next(ops, s, step).value, At(Next(ops, s, step).value, q))
  {
    match step {
      case LockStep(p, action) => LockStepKeepsHolders(ops, s, p, action, q);
      case FileStep(p, action) => FileStepKeepsHolders(ops, s, p, action, q);
      case Outside(i) =>
        assert HolderOk(ops, s, At(s, q));
        OutsideKeepsData(ops, s, i);
    }
  }

  lemma StepKeepsData(ops: Ops, s: State, step: Step)
    requires Inv(ops, s) && Next(ops, s, step).Some?
    ensures DataOk(ops, Next(ops, s, step).value)
  {
    match step {
      case LockStep(p, action) => LockStepKeepsData(ops, s, p, action);
      case FileStep(p, action) => assert HolderOk(ops, s, At(s, p)); FileStepKeepsData(ops, s, p, action);
      case Outside(i) => OutsideKeepsData(ops, s, i);
    }
  }

  lemma OutsideKeepsData(ops: Ops, s: State, i: Interference)
    requires NextOutside(s, i).Some?
    ensures var s' := NextOutside(s, i).value;
            && s'.files == s.files && s'.history == s.history && s'.log == s.log && s'.acked == s.acked
            && s'.next == s.next && s'.tickets == s.tickets && s'.phases == s.phases
  {
  }

  lemma StepKeepsInv(ops: Ops, s: State, step: Step)
    requires Inv(ops, s) && Next(ops, s, step).Some?
    ensures Inv(ops, Next(ops, s, step).value)
  {
    StepKeepsLocks(ops, s, step);
    StepKeepsData(ops, s, step);
    forall q: Pid ensures HolderOk(ops, Next(ops, s, step).value, At(Next(ops, s, step).value, q)) {
      StepKeepsHolders(ops, s, step, q);
    }
  }

  lemma {:induction false} RunKeepsInv(ops: Ops, steps: seq<Step>)
    requires Run(ops, steps).Some?
    ensures Inv(ops, Run(ops, steps).value)
  {
    if steps != [] {
      var before := steps[..|steps| - 1];
      RunKeepsInv(ops, before);
      StepKeepsInv(ops, Run(ops, before).value, steps[|steps| - 1]);
    }
  }

  // ---------------------------------------------------------------- what every run guarantees

  /** At most one process is ever inside the critical section, whatever happens to the sidecar name. */
  lemma MutualExclusion(ops: Ops, steps: seq<Step>, p: Pid, q: Pid)
    requires Run(ops, steps).Some?
    ensures var s := Run(ops, steps).value; Critical(At(s, p)) && Critical(At(s, q)) ==> p == q
  {
    RunKeepsInv(ops, steps);
    assert LockFacts(Run(ops, steps).value, p, 0) && LockFacts(Run(ops, steps).value, q, 0);
  }

  /** The file is at every moment what one process performing the logged appends in lock order would
      have produced; each acquisition logs at most one append, each append did what an append may do,
      and every acknowledged one is among them. */
  lemma SequentialHistory(ops: Ops, steps: seq<Step>)
    requires Run(ops, steps).Some?
    ensures var s := Run(ops, steps).value;
            && Contents(s) == Replay(ops, s.log)
            && Ordered(s.log) && Legal(ops, s.log, s.acked)
            && forall t | t in s.acked :: exists i :: 0 <= i < |s.log| && s.log[i].ticket == t
  {
    RunKeepsInv(ops, steps);
  }

  /** No append, acknowledged or not, is written to an inode that a compaction has replaced, and none
      is written between inspecting the last byte and a change by someone else. */
  lemma WritesReachCurrentFile(ops: Ops, steps: seq<Step>, p: Pid)
    requires Run(ops, steps).Some? && At(Run(ops, steps).value, p).WriteLine?
    ensures var s := Run(ops, steps).value; var ph := At(s, p);
            s.history == Some(ph.file) && ph.payload == ops.payload(Contents(s), ph.job.line)
  {
    RunKeepsInv(ops, steps);
    assert HolderOk(ops, Run(ops, steps).value, At(Run(ops, steps).value, p));
  }

  // ---------------------------------------------------------------- the appends of the history file

  lemma ScansIsScannable(c: Codec, s: Bytes)
    ensures StoreOps(c).scans(s) <==> Scannable(c, s)
  {
    if StoreOps(c).scans(s) {
      forall l | l in Lines(s)
        ensures Decodable(c, l)
      {
        var i :| 0 <= i < |Lines(s)| && Lines(s)[i] == l;
      }
    }
  }

  /** What one append of a history file leaves behind, and whether it succeeds, when it stops where this
      outcome says: `acked` or not, it is an outcome of HistoryFile.Append, whose counter makes a
      compaction due exactly when the job says so. */
  ghost predicate IsAppend(c: Codec, before: Bytes, e: Entry, acked: bool, after: Bytes) {
    && (e.outcome.Torn? ==>
          !acked && after == HistoryFile.Interrupted(before, e.job.line, HistoryFile.WriteFailed(e.outcome.written)))
    && (e.outcome.Whole? && !acked ==> after == HistoryFile.Interrupted(before, e.job.line, HistoryFile.SyncFailed))
    && (e.outcome.Replaced? && !acked ==> Compaction(c, before, e, HistoryFile.AfterRename) == (after, false))
    && (acked ==> Compaction(c, before, e, HistoryFile.NoCompactFault) == (after, true))
  }

  /** The end of HistoryFile.Append after a synced line. */
  ghost function Compaction(c: Codec, before: Bytes, e: Entry, fault: HistoryFile.CompactFault): (Bytes, bool) {
    var count := if e.job.due then 0 else 1;
    HistoryFile.CompactedWhenDue(c, Appended(before, e.job.line), count, HistoryFile.AtLeastOne(e.job.keep), fault)
  }

  /** What the protocol's scan, line and compaction come to for a history file. */
  lemma StoreOutcome(c: Codec, before: Bytes, e: Entry, acked: bool)
    requires OutcomeOk(StoreOps(c), before, e, acked)
    ensures var after := Appended(before, e.job.line);
            && (e.outcome.Torn? ==> !acked)
            && (e.outcome.Whole? && acked ==> !Due(e.job, after))
            && (e.outcome.Replaced? ==> Due(e.job, after) && Scannable(c, after))
  {
    ScansIsScannable(c, Appended(before, e.job.line));
  }

  lemma StorePerform(c: Codec, before: Bytes, e: Entry)
    ensures var after := Appended(before, e.job.line);
            Perform(StoreOps(c), before, e) ==
            match e.outcome
            case Torn(n) => before + Take(Payload(before, e.job.line), n)
            case Whole => after
            case Replaced => Compacted(c, after, HistoryFile.AtLeastOne(e.job.keep), MAX_FILE_BYTES)
  {
  }

  lemma CompactionMeaning(c: Codec, before: Bytes, e: Entry, fault: HistoryFile.CompactFault)
    ensures var after := Appended(before, e.job.line);
            Compaction(c, before, e, fault) ==
            if !Due(e.job, after) then (after, true)
            else (if Scannable(c, after) && fault != HistoryFile.BeforeRename
                  then Compacted(c, after, HistoryFile.AtLeastOne(e.job.keep), MAX_FILE_BYTES) else after,
                  Scannable(c, after) && fault == HistoryFile.NoCompactFault)
  {
  }

  lemma OutcomeIsAppend(c: Codec, before: Bytes, e: Entry, acked: bool)
    requires OutcomeOk(StoreOps(c), before, e, acked)
    ensures IsAppend(c, before, e, acked, Perform(StoreOps(c), before, e))
  {
    StoreOutcome(c, before, e, acked);
    StorePerform(c, before, e);
    CompactionMeaning(c, before, e, HistoryFile.NoCompactFault);
    CompactionMeaning(c, before, e, HistoryFile.AfterRename);
  }

  lemma {:induction false} LegalAt(ops: Ops, log: seq<Entry>, acked: set<nat>, k: nat)
    requires Legal(ops, log, acked) && k < |log|
    ensures Legal(ops, log[..k], acked)
    ensures OutcomeOk(ops, Replay(ops, log[..k]), log[k], log[k].ticket in acked)
    ensures Replay(ops, log[..k + 1]) == Perform(ops, Replay(ops, log[..k]), log[k])
  {
    TakeTake(log, k);
    if k < |log| - 1 {
      LegalAt(ops, log[..|log| - 1], acked, k);
      TakeOfTake(log, |log| - 1, k);
      TakeOfTake(log, |log| - 1, k + 1);
    } else {
      Sequences.Whole(log, 0);
    }
  }

  /** In every run the history is a sequence of appends of the history file, one for each acquisition
      that changed anything: the `k`-th turns what the earlier ones left into what the next one finds. */
  lemma HistoryIsAppends(c: Codec, steps: seq<Step>, k: nat)
    requires Run(StoreOps(c), steps).Some? && k < |Run(StoreOps(c), steps).value.log|
    ensures var s := Run(StoreOps(c), steps).value;
            IsAppend(c, Replay(StoreOps(c), s.log[..k]), s.log[k], s.log[k].ticket in s.acked,
                Replay(StoreOps(c), s.log[..k + 1]))
  {
    var s := Run(StoreOps(c), steps).value;
    RunKeepsInv(StoreOps(c), steps);
    LegalAt(StoreOps(c), s.log, s.acked, k);
    OutcomeIsAppend(c, Replay(StoreOps(c), s.log[..k]), s.log[k], s.log[k].ticket in s.acked);
  }

  // ---------------------------------------------------------------- what becomes of a line

  /** The `k`-th append compacted, and its eviction dropped the line from what was to be kept. */
  ghost predicate EvictedAt(c: Codec, log: seq<Entry>, k: nat, line: Bytes)
    requires k < |log|
  {
    var after := Appended(Replay(StoreOps(c), log[..k]), log[k].job.line);
    && log[k].outcome.Replaced?
    && line in Kept(c, Lines(after))
    && line !in Evict(Kept(c, Lines(after)), HistoryFile.AtLeastOne(log[k].job.keep), MAX_FILE_BYTES)
  }

  lemma KeptHasLine(c: Codec, ls: seq<Bytes>, line: Bytes)
    requires line in ls && c.Keepable(line)
    ensures line in Kept(c, ls)
  {
    if ls[|ls| - 1] != line {
      KeptHasLine(c, ls[..|ls| - 1], line);
    }
  }

  lemma LineSurvives(s: Bytes, more: Bytes, line: Bytes)
    requires line in Lines(s)
    ensures line in Lines(s + more)
  {
    LinesFromAppend([], s, more);
  }

  lemma AppendedHasLine(s: Bytes, line: Bytes)
    requires IsLine(line)
    ensures line in Lines(Appended(s, line))
  {
    AppendedLines(s, line);
    var after := Lines(Appended(s, line));
    assert after[|after| - 1] == line;
  }

  /** A line in the file before an append, or its own, is in it afterwards unless it is evicted. */
  lemma LineKept(c: Codec, log: seq<Entry>, k: nat, line: Bytes)
    requires k < |log| && c.Keepable(line)
    requires line in Lines(Replay(StoreOps(c), log[..k]))
             || (IsLine(line) && line == log[k].job.line && !log[k].outcome.Torn?)
    ensures line in Lines(Perform(StoreOps(c), Replay(StoreOps(c), log[..k]), log[k])) || EvictedAt(c, log, k, line)
  {
    var before, e := Replay(StoreOps(c), log[..k]), log[k];
    var payload := Payload(before, e.job.line);
    if e.outcome.Torn? {
      LineSurvives(before, Take(payload, e.outcome.written), line);
    } else {
      if line in Lines(before) {
        LineSurvives(before, payload, line);
      } else {
        AppendedHasLine(before, line);
      }
      if e.outcome.Replaced? {
        KeptHasLine(c, Lines(Appended(before, e.job.line)), line);
        CompactedContents(c, Appended(before, e.job.line), HistoryFile.AtLeastOne(e.job.keep), MAX_FILE_BYTES);
      }
    }
  }

  /** From its own append on, a line is in the file until some compaction evicts it. */
  lemma {:induction false} LineStays(c: Codec, log: seq<Entry>, acked: set<nat>, k: nat, n: nat, line: Bytes)
    requires k < n <= |log| && Legal(StoreOps(c), log, acked)
    requires log[k].job.line == line && IsLine(line) && c.Keepable(line) && !log[k].outcome.Torn?
    ensures line in Lines(Replay(StoreOps(c), log[..n])) || exists j | k <= j < n :: EvictedAt(c, log, j, line)
    decreases n
  {
    var last := n - 1;
    LegalAt(StoreOps(c), log, acked, last);
    if last == k {
      LineKept(c, log, k, line);
    } else {
      LineStays(c, log, acked, k, last, line);
      if line in Lines(Replay(StoreOps(c), log[..last])) {
        LineKept(c, log, last, line);
      }
    }
  }

  /** Whole runs: an acknowledged record's line is in the file, or a compaction from its own on has
      evicted it to meet the limits; deaths, torn writes, timeouts and sidecar replacement never lose it. */
  lemma AcknowledgedLineIsInFile(c: Codec, steps: seq<Step>, ticket: nat)
    requires Run(StoreOps(c), steps).Some? && ticket in Run(StoreOps(c), steps).value.acked
    ensures var s := Run(StoreOps(c), steps).value;
            exists k :: 0 <= k < |s.log| && s.log[k].ticket == ticket
              && (IsLine(s.log[k].job.line) && c.Keepable(s.log[k].job.line) ==>
                    || s.log[k].job.line in Lines(Contents(s))
                    || exists j | k <= j < |s.log| :: EvictedAt(c, s.log, j, s.log[k].job.line))
  {
    var s := Run(StoreOps(c), steps).value;
    RunKeepsInv(StoreOps(c), steps);
    var k :| 0 <= k < |s.log| && s.log[k].ticket == ticket;
    LegalAt(StoreOps(c), s.log, s.acked, k);
    if IsLine(s.log[k].job.line) && c.Keepable(s.log[k].job.line) {
      LineStays(c, s.log, s.acked, k, |s.log|, s.log[k].job.line);
      Sequences.Whole(s.log, 0);
    }
  }

  /** The last append to change the file, once acknowledged, reads first. */
  lemma LastAppendReadsFirst(c: Codec, steps: seq<Step>, r: Record)
    requires c.Lawful() && c.EncodeRecord(r).Ok? && Run(StoreOps(c), steps).Some?
    requires var s := Run(StoreOps(c), steps).value;
             s.log != [] && s.log[|s.log| - 1].ticket in s.acked
                 && s.log[|s.log| - 1].job.line == c.EncodeRecord(r).value
    ensures ReadsFirst(c, Contents(Run(StoreOps(c), steps).value), r)
  {
    var s := Run(StoreOps(c), steps).value;
    RunKeepsInv(StoreOps(c), steps);
    var k := |s.log| - 1;
    LegalAt(StoreOps(c), s.log, s.acked, k);
    Sequences.Whole(s.log, 0);
    var before := Replay(StoreOps(c), s.log[..k]);
    AppendReadsBack(c, before, r);
    AppendCompactReadsBack(c, before, r, HistoryFile.AtLeastOne(s.log[k].job.keep), MAX_FILE_BYTES);
  }
}
