/** Atomic replacement of one file: write a sibling temporary, sync it, rename it over the
    destination, sync the directory, with the operating system free to refuse every step. */
module AtomicFile {
  import opened Outcomes
  import opened Sequences
  import opened CrashFs

  const TEMP_ATTEMPTS: nat := 128

  datatype IoError = InvalidInput | AlreadyExists | Other

  function Decimal(n: nat): string {
    (if n < 10 then [] else Decimal(n / 10)) + ['0' + (n % 10) as char]
  }

  /** temp_file_name. */
  function TempName(destination: Name, process: nat, id: nat): (temp: Name)
    ensures temp != destination
  {
    var temp := "." + destination + ".tmp." + Decimal(process) + "." + Decimal(id);
    assert |temp| > |destination|;
    temp
  }

  // ---- what a caller is promised about the destination ----

  /** Neither visible nor any surviving contents of the destination changed, and no file that existed. */
  ghost predicate Untouched(before: Fs, now: Fs, destination: Name) {
    && Lookup(now.dir, destination) == Lookup(before.dir, destination)
    && (forall b :: MayBind(now, destination, b) <==> MayBind(before, destination, b))
    && before.next <= now.next
    && (forall i | i in before.files :: i in now.files && now.files[i] == before.files[i])
  }

  /** The destination reads as complete contents, already synced. */
  ghost predicate Solid(fs: Fs, destination: Name, contents: Bytes) {
    destination in fs.dir && fs.dir[destination] in fs.files && fs.files[fs.dir[destination]] == File(contents, true)
  }

  /** At this moment processes see the old or the new contents, and so does whoever comes after a crash. */
  ghost predicate OldOrNew(before: Fs, now: Fs, destination: Name, contents: Bytes) {
    && (Read(now, destination) == Read(before, destination) || Read(now, destination) == Some(contents))
    && (forall c | MayHold(now, destination, c) :: MayHold(before, destination, c) || c == Some(contents))
  }

  ghost predicate SameHoldings(before: Fs, after: Fs, destination: Name) {
    forall c :: MayHold(after, destination, c) <==> MayHold(before, destination, c)
  }

  /** Only a crash that the old state allowed, or the new contents. */
  ghost predicate AddsHolding(before: Fs, after: Fs, destination: Name, contents: Bytes) {
    forall c :: MayHold(after, destination, c) <==> MayHold(before, destination, c) || c == Some(contents)
  }

  ghost predicate HoldsOnly(fs: Fs, destination: Name, contents: Bytes) {
    forall c :: MayHold(fs, destination, c) <==> c == Some(contents)
  }

  lemma UntouchedHolds(before: Fs, now: Fs, destination: Name, c: Option<Bytes>)
    requires Valid(before) && Untouched(before, now, destination)
    ensures MayHold(now, destination, c) <==> MayHold(before, destination, c)
  {
    MayHoldMeaning(before, destination, c);
    MayHoldMeaning(now, destination, c);
    forall b | MayBind(before, destination, b)
      ensures Plausible(now, b, c) <==> Plausible(before, b, c)
    {
      if b.Some? {
        MayBindKnown(before, destination, b);
      }
    }
  }

  lemma UntouchedMeaning(before: Fs, now: Fs, destination: Name)
    requires Valid(before) && Untouched(before, now, destination)
    ensures SameHoldings(before, now, destination) && Read(now, destination) == Read(before, destination)
  {
    forall c
      ensures MayHold(now, destination, c) <==> MayHold(before, destination, c)
    {
      UntouchedHolds(before, now, destination, c);
    }
    if destination in before.dir {
      DirectoryKnown(before, destination);
    }
  }

  lemma AppendUntouched(before: Fs, now: Fs, destination: Name, op: DirOp)
    requires Untouched(before, now, destination) && !Touches(op, destination)
    ensures Untouched(before, Append(now, op), destination)
  {
    ApplyMeaning(now.dir, op, destination);
    forall b
      ensures MayBind(Append(now, op), destination, b) <==> MayBind(before, destination, b)
    {
      MayBindAppend(now, op, destination, b);
    }
  }

  lemma SetFileUntouched(before: Fs, now: Fs, destination: Name, i: Inode, f: File)
    requires Untouched(before, now, destination) && i !in before.files && i < now.next
    ensures Untouched(before, SetFile(now, i, f), destination)
  {
    forall b
      ensures MayBind(SetFile(now, i, f), destination, b) <==> MayBind(now, destination, b)
    {
    }
  }

  lemma CreateUntouched(before: Fs, now: Fs, destination: Name, temp: Name)
    requires Valid(before) && Valid(now) && Untouched(before, now, destination) && temp != destination
    ensures Untouched(before, Create(now, temp), destination)
  {
    var room := now.(files := now.files[now.next := File([], false)], next := now.next + 1);
    assert now.next !in before.files;
    forall b
      ensures MayBind(room, destination, b) <==> MayBind(now, destination, b)
    {
    }
    AppendUntouched(before, room, destination, Link(temp, now.next));
    assert Append(room, Link(temp, now.next)) == Create(now, temp);
  }

  /** Renaming a synced temporary over the destination adds exactly the new contents to what a crash
      may leave. */
  lemma RenamePublishes(before: Fs, now: Fs, destination: Name, temp: Name, i: Inode, contents: Bytes)
    requires Valid(before) && Untouched(before, now, destination) && i in now.files
             && now.files[i] == File(contents, true)
    ensures var after := Append(now, Rename(temp, destination, i));
            AddsHolding(before, after, destination, contents) && Solid(after, destination, contents)
  {
    var op := Rename(temp, destination, i);
    var after := Append(now, op);
    forall c
      ensures MayHold(after, destination, c) <==> MayHold(before, destination, c) || c == Some(contents)
    {
      UntouchedHolds(before, now, destination, c);
      MayHoldMeaning(now, destination, c);
      MayHoldMeaning(after, destination, c);
      forall b
        ensures MayBind(after, destination, b) <==> MayBind(now, destination, b) || b == Some(i)
        ensures Plausible(after, b, c) <==> Plausible(now, b, c)
      {
        MayBindAppend(now, op, destination, b);
      }
      assert Plausible(after, Some(i), c) <==> c == Some(contents);
    }
  }

  lemma SyncSettles(fs: Fs, destination: Name, contents: Bytes)
    requires Solid(fs, destination, contents)
    ensures HoldsOnly(SyncDirectory(fs), destination, contents)
  {
    var after := SyncDirectory(fs);
    forall c
      ensures MayHold(after, destination, c) <==> c == Some(contents)
    {
      MayHoldMeaning(after, destination, c);
      forall b
        ensures MayBind(after, destination, b) <==> b == Some(fs.dir[destination])
      {
        MayBindSettled(after, destination, b);
      }
      assert Plausible(after, Some(fs.dir[destination]), c) <==> c == Some(contents);
    }
  }

  // ---- the operating system ----

  /** The calls the operating system may refuse. */
  datatype SystemCall = OpenParent | CreateTemp | WriteTemp | SyncTemp | RenameTemp | UnlinkTemp | SyncParent

  /** The parent directory. `trace` records every state a crash could strike, `refused` every call the
      operating system failed, and `collisions` how often a temporary name was taken. */
  class OpenDirectory {
    var fs: Fs
    ghost var trace: seq<Fs>
    ghost var refused: seq<SystemCall>
    ghost var collisions: nat

    constructor (fs: Fs)
      requires Valid(fs)
      ensures this.fs == fs && trace == [fs] && refused == [] && collisions == 0
    {
      this.fs := fs;
      trace := [fs];
      refused := [];
      collisions := 0;
    }

    /** Creating the directory where it is missing, opening it and checking what was opened. */
    method Open() returns (ok: bool)
      modifies this`refused
      ensures refused == if ok then old(refused) else old(refused) + [OpenParent]
    {
      ok := *;
      if !ok {
        refused := refused + [OpenParent];
      }
    }

    /** openat with O_CREAT | O_EXCL. */
    method CreateExclusive(name: Name) returns (r: Result<Inode, IoError>)
      requires Valid(fs)
      modifies this
      ensures Valid(fs) && trace == old(trace) + [fs]
      ensures r == Err(AlreadyExists) <==> name in old(fs.dir)
      ensures r.Err? ==> r.error != InvalidInput
      ensures r.Ok? ==> r.value == old(fs.next) && fs == Create(old(fs), name)
      ensures r.Err? ==> fs == old(fs)
      ensures refused == if r == Err(Other) then old(refused) + [CreateTemp] else old(refused)
      ensures collisions == if r == Err(AlreadyExists) then old(collisions) + 1 else old(collisions)
    {
      if name in fs.dir {
        r := Err(AlreadyExists);
        collisions := collisions + 1;
      } else if * {
        r := Err(Other);
        refused := refused + [CreateTemp];
      } else {
        CreateValid(fs, name);
        r := Ok(fs.next);
        fs := Create(fs, name);
      }
      trace := trace + [fs];
    }

    /** write_all: on failure some prefix has been written. */
    method Write(i: Inode, contents: Bytes) returns (ok: bool)
      requires Valid(fs) && i in fs.files
      modifies this
      ensures Valid(fs) && trace == old(trace) + [fs] && collisions == old(collisions)
      ensures exists n: nat ::
                n <= |contents| && fs == SetFile(old(fs), i, File(contents[..n], false)) && (ok ==> n == |contents|)
      ensures refused == if ok then old(refused) else old(refused) + [WriteTemp]
    {
      ok := *;
      var n: nat := |contents|;
      if !ok {
        n :| n <= |contents|;
        refused := refused + [WriteTemp];
      }
      fs := SetFile(fs, i, File(contents[..n], false));
      trace := trace + [fs];
    }

    /** File::sync_all on a file. */
    method SyncFile(i: Inode) returns (ok: bool)
      requires Valid(fs) && i in fs.files
      modifies this
      ensures Valid(fs) && trace == old(trace) + [fs] && collisions == old(collisions)
      ensures fs == if ok then SetFile(old(fs), i, File(old(fs).files[i].data, true)) else old(fs)
      ensures refused == if ok then old(refused) else old(refused) + [SyncTemp]
    {
      ok := *;
      if ok {
        fs := SetFile(fs, i, File(fs.files[i].data, true));
      } else {
        refused := refused + [SyncTemp];
      }
      trace := trace + [fs];
    }

    /** renameat within the directory, replacing the destination. */
    method RenameAt(source: Name, destination: Name) returns (ok: bool)
      requires Valid(fs) && source in fs.dir
      modifies this
      ensures Valid(fs) && trace == old(trace) + [fs] && collisions == old(collisions)
      ensures fs == if ok then Append(old(fs), Rename(source, destination, old(fs).dir[source])) else old(fs)
      ensures refused == if ok then old(refused) else old(refused) + [RenameTemp]
    {
      ok := *;
      if ok {
        DirectoryKnown(fs, source);
        AppendValid(fs, Rename(source, destination, fs.dir[source]));
        fs := Append(fs, Rename(source, destination, fs.dir[source]));
      } else {
        refused := refused + [RenameTemp];
      }
      trace := trace + [fs];
    }

    /** TempFileGuard's drop: nothing once committed, otherwise an unlink whose failure is ignored. */
    method DropGuard(name: Name, committed: bool)
      requires Valid(fs)
      modifies this
      ensures Valid(fs) && trace == old(trace) + [fs] && collisions == old(collisions)
      ensures committed ==> fs == old(fs) && refused == old(refused)
      ensures !committed ==> || (refused == old(refused) && fs == Append(old(fs), Unlink(name)))
                             || (refused == old(refused) + [UnlinkTemp] && fs == old(fs))
    {
      if !committed {
        var unlinked := *;
        if unlinked {
          AppendValid(fs, Unlink(name));
          fs := Append(fs, Unlink(name));
        } else {
          refused := refused + [UnlinkTemp];
        }
      }
      trace := trace + [fs];
    }

    /** File::sync_all on the directory. */
    method SyncAll() returns (ok: bool)
      requires Valid(fs)
      modifies this
      ensures Valid(fs) && trace == old(trace) + [fs] && collisions == old(collisions)
      ensures fs == if ok then SyncDirectory(old(fs)) else old(fs)
      ensures refused == if ok then old(refused) else old(refused) + [SyncParent]
    {
      ok := *;
      if ok {
        SyncValid(fs);
        fs := SyncDirectory(fs);
      } else {
        refused := refused + [SyncParent];
      }
      trace := trace + [fs];
    }
  }

  /** Keeps the directory whose sync is still owed. */
  class DurabilityReceipt {
    const directory: OpenDirectory

    constructor (directory: OpenDirectory)
      ensures this.directory == directory
    {
      this.directory := directory;
    }

    /** DurabilityReceipt::sync: on success, whatever synced file each name shows now is what every
        crash leaves there. */
    method Sync() returns (ok: bool)
      requires Valid(directory.fs)
      modifies directory
      ensures Valid(directory.fs)
      ensures ok <==> directory.refused == old(directory.refused)
      ensures !ok ==> directory.fs == old(directory.fs) && directory.refused == old(directory.refused) + [SyncParent]
      ensures ok ==> directory.fs == SyncDirectory(old(directory.fs))
      ensures ok ==> forall n, contents | Solid(old(directory.fs), n, contents) :: HoldsOnly(directory.fs, n, contents)
    {
      ghost var before := directory.fs;
      ok := directory.SyncAll();
      if ok {
        forall n, contents | Solid(before, n, contents)
          ensures HoldsOnly(directory.fs, n, contents)
        {
          SyncSettles(before, n, contents);
        }
      }
    }
  }

  datatype AtomicWriteOutcome =
    | NotPublished(error: IoError)
    | PublishedDurabilityPending(error: IoError, receipt: DurabilityReceipt)
    | Durable

  /** What the outcome of a write says about the file system before and after it. */
  datatype Verdict = Unpublished | Pending | Lasting

  function VerdictOf(outcome: AtomicWriteOutcome): Verdict {
    match outcome
    case NotPublished(_) => Unpublished
    case PublishedDurabilityPending(_, _) => Pending
    case Durable => Lasting
  }

  ghost predicate Written(before: Fs, after: Fs, destination: Name, contents: Bytes, v: Verdict) {
    match v
    case Unpublished => Untouched(before, after, destination) && SameHoldings(before, after, destination)
    case Pending => Solid(after, destination, contents) && AddsHolding(before, after, destination, contents)
    case Lasting => Solid(after, destination, contents) && HoldsOnly(after, destination, contents)
  }

  /** Every state recorded from `start` on shows the old or the new contents. */
  ghost predicate AlwaysOldOrNew(before: Fs, trace: seq<Fs>, start: nat, destination: Name, contents: Bytes) {
    forall k | start <= k < |trace| :: OldOrNew(before, trace[k], destination, contents)
  }

  /** create_unique_temp_at: retries names that are taken, and only those. */
  method CreateUniqueTemp(directory: OpenDirectory, destination: Name, process: nat)
      returns (r: Result<(Inode, Name), IoError>)
    requires Valid(directory.fs)
    modifies directory
    ensures Valid(directory.fs) && old(directory.trace) <= directory.trace
    ensures old(directory.collisions) <= directory.collisions <= old(directory.collisions) + TEMP_ATTEMPTS
    ensures directory.refused == if r == Err(Other) then old(directory.refused) + [CreateTemp]
                                 else old(directory.refused)
    ensures r == Err(InvalidInput) <==> '\0' in destination
    ensures '\0' !in destination ==>
              (r == Err(AlreadyExists) <==> directory.collisions == old(directory.collisions) + TEMP_ATTEMPTS)
    ensures r.Err? ==> directory.fs == old(directory.fs)
    ensures r.Err? ==> forall k | |old(directory.trace)| <= k < |directory.trace| ::
            directory.trace[k] == old(directory.fs)
    ensures r.Ok? ==> r.value.1 != destination && r.value.1 !in old(directory.fs.dir)
    ensures r.Ok? ==> r.value.0 == old(directory.fs.next) && directory.fs == Create(old(directory.fs), r.value.1)
    ensures r.Ok? ==>
              |directory.trace| > |old(directory.trace)| && directory.trace[|directory.trace| - 1] == directory.fs
    ensures r.Ok? ==> forall k | |old(directory.trace)| <= k < |directory.trace| - 1 ::
            directory.trace[k] == old(directory.fs)
  {
    if '\0' in destination {
      return Err(InvalidInput);
    }
    for attempt := 0 to TEMP_ATTEMPTS
      invariant Valid(directory.fs) && directory.fs == old(directory.fs) && directory.refused == old(directory.refused)
      invariant directory.collisions == old(directory.collisions) + attempt
      invariant old(directory.trace) <= directory.trace
      invariant forall k | |old(directory.trace)| <= k < |directory.trace| :: directory.trace[k] == old(directory.fs)
    {
      var id: nat := *;
      var temp := TempName(destination, process, id);
      var created := directory.CreateExclusive(temp);
      if created.Ok? {
        return Ok((created.value, temp));
      }
      if created.error != AlreadyExists {
        return Err(created.error);
      }
    }
    return Err(AlreadyExists);
  }

  lemma UntouchedIsSafe(before: Fs, now: Fs, destination: Name, contents: Bytes)
    requires Valid(before) && Untouched(before, now, destination)
    ensures OldOrNew(before, now, destination, contents)
  {
    UntouchedMeaning(before, now, destination);
  }

  /** A file name the operating system can take. */
  predicate Usable(destination: Name) {
    destination != "" && '\0' !in destination
  }

  /** The answer that fits the calls refused during one write and the temporary names found taken: durable
      if there was nothing against it, pending if only the last directory sync was refused, and otherwise
      not published, for the reason that came first. */
  predicate Explained(outcome: AtomicWriteOutcome, destination: Name, refused: seq<SystemCall>, taken: nat) {
    && (outcome.Durable? <==> Usable(destination) && refused == [] && taken < TEMP_ATTEMPTS)
    && (outcome.PublishedDurabilityPending? <==> refused == [SyncParent])
    && (outcome.NotPublished? ==>
          outcome.error == if refused != [] then Other else if Usable(destination) then AlreadyExists else InvalidInput)
  }

  /** write_atomic_detailed: whatever the operating system refuses, at every step processes and crash
      survivors find the old or the new contents, and the outcome says which it may be from now on. It is
      the best one that the refused calls allow. */
  method WriteAtomicDetailed(directory: OpenDirectory, destination: Name, contents: Bytes, process: nat)
    returns (outcome: AtomicWriteOutcome)
    requires Valid(directory.fs)
    modifies directory
    ensures Valid(directory.fs) && old(directory.trace) <= directory.trace
    ensures AlwaysOldOrNew(old(directory.fs), directory.trace, |old(directory.trace)|, destination, contents)
    ensures Written(old(directory.fs), directory.fs, destination, contents, VerdictOf(outcome))
    ensures old(directory.refused) <= directory.refused && old(directory.collisions) <= directory.collisions
    ensures var refused := directory.refused[|old(directory.refused)|..];
            && Explained(outcome, destination, refused, directory.collisions - old(directory.collisions))
            && (outcome.NotPublished? ==> (directory.fs.dir == old(directory.fs.dir) <==> UnlinkTemp !in refused))
    ensures !outcome.NotPublished? ==>
            directory.fs.dir == old(directory.fs.dir)[destination := directory.fs.dir[destination]]
    ensures outcome.PublishedDurabilityPending? ==> outcome.receipt.directory == directory
  {
    UntouchedMeaning(directory.fs, directory.fs, destination);
    EmptyAppend(directory.refused);
    Cancel(directory.refused, []);
    if destination == "" {
      return NotPublished(InvalidInput);
    }
    Cancel(directory.refused, [OpenParent]);
    var found := directory.Open();
    if !found {
      return NotPublished(Other);
    }
    outcome := Replace(directory, destination, contents, process);
  }

  /** write_atomic_detailed in the directory it has opened. */
  method Replace(directory: OpenDirectory, destination: Name, contents: Bytes, process: nat)
    returns (outcome: AtomicWriteOutcome)
    requires Valid(directory.fs) && destination != ""
    modifies directory
    ensures Valid(directory.fs) && old(directory.trace) <= directory.trace
    ensures AlwaysOldOrNew(old(directory.fs), directory.trace, |old(directory.trace)|, destination, contents)
    ensures Written(old(directory.fs), directory.fs, destination, contents, VerdictOf(outcome))
    ensures old(directory.refused) <= directory.refused && old(directory.collisions) <= directory.collisions
    ensures var refused := directory.refused[|old(directory.refused)|..];
            && Explained(outcome, destination, refused, directory.collisions - old(directory.collisions))
            && (outcome.NotPublished? ==> (directory.fs.dir == old(directory.fs.dir) <==> UnlinkTemp !in refused))
    ensures !outcome.NotPublished? ==>
            directory.fs.dir == old(directory.fs.dir)[destination := directory.fs.dir[destination]]
    ensures outcome.PublishedDurabilityPending? ==> outcome.receipt.directory == directory
  {
    ghost var before, calls, taken := directory.fs, directory.refused, directory.collisions;
    var created := BeginTemp(directory, destination, contents, process);
    if created.Err? {
      UntouchedMeaning(before, before, destination);
      CreationExplained(created.error, destination, calls, directory.refused, directory.collisions - taken);
      return NotPublished(created.error);
    }
    var (i, temp) := created.value;
    outcome := FillAndPublish(directory, destination, i, temp, contents, before);
    OutcomeExplained(outcome, destination, calls, directory.refused, directory.collisions - taken);
  }

  /** The answer to a temporary that could not be created. */
  lemma CreationExplained(error: IoError, destination: Name, calls: seq<SystemCall>, now: seq<SystemCall>, taken: nat)
    requires destination != "" && now == if error == Other then calls + [CreateTemp] else calls
    requires error == InvalidInput <==> '\0' in destination
    requires '\0' !in destination ==> (error == AlreadyExists <==> taken == TEMP_ATTEMPTS) && taken <= TEMP_ATTEMPTS
    ensures calls <= now && UnlinkTemp !in now[|calls|..]
    ensures Explained(NotPublished(error), destination, now[|calls|..], taken)
  {
    if error == Other {
      Cancel(calls, [CreateTemp]);
    }
  }

  /** The calls refused once the temporary exists: none, the last sync, or one before it and then perhaps
      the cleanup. */
  predicate RefusedSince(outcome: AtomicWriteOutcome, calls: seq<SystemCall>, now: seq<SystemCall>) {
    match outcome
    case Durable => now == calls
    case PublishedDurabilityPending(_, _) => now == calls + [SyncParent]
    case NotPublished(error) =>
      && error == Other && |now| > |calls| && now[|calls|] in {WriteTemp, SyncTemp, RenameTemp}
      && (now == calls + [now[|calls|]] || now == calls + [now[|calls|], UnlinkTemp])
  }

  lemma OutcomeExplained(outcome: AtomicWriteOutcome, destination: Name, calls: seq<SystemCall>, now: seq<SystemCall>,
      taken: nat)
    requires Usable(destination) && taken < TEMP_ATTEMPTS && RefusedSince(outcome, calls, now)
    ensures calls <= now && Explained(outcome, destination, now[|calls|..], taken)
    ensures outcome.NotPublished? ==> (UnlinkTemp !in now[|calls|..] <==> |now| == |calls| + 1)
  {
  }

  /** From the new temporary on. */
  method FillAndPublish(directory: OpenDirectory, destination: Name, i: Inode, temp: Name, contents: Bytes,
      ghost before: Fs)
    returns (outcome: AtomicWriteOutcome)
    requires Valid(before) && Valid(directory.fs) && Untouched(before, directory.fs, destination) && temp != destination
    requires i !in before.files && i in directory.fs.files && temp in directory.fs.dir && directory.fs.dir[temp] == i
    modifies directory
    ensures Valid(directory.fs) && old(directory.trace) <= directory.trace
    ensures AlwaysOldOrNew(before, directory.trace, |old(directory.trace)|, destination, contents)
    ensures Written(before, directory.fs, destination, contents, VerdictOf(outcome))
    ensures directory.collisions == old(directory.collisions)
    ensures RefusedSince(outcome, old(directory.refused), directory.refused)
    ensures outcome.NotPublished? ==>
              directory.fs.dir == if |directory.refused| == |old(directory.refused)| + 1
                                  then old(directory.fs.dir) - {temp} else old(directory.fs.dir)
    ensures !outcome.NotPublished? ==>
            directory.fs.dir == (old(directory.fs.dir) - {temp})[destination := directory.fs.dir[destination]]
    ensures outcome.PublishedDurabilityPending? ==> outcome.receipt.directory == directory
  {
    var filled := FillTemp(directory, destination, i, temp, contents, before);
    if !filled {
      Discard(directory, destination, temp, contents, before);
      return NotPublished(Other);
    }
    outcome := Publish(directory, destination, i, temp, contents, before);
  }

  /** A temporary to fill, and nothing a reader of the destination could notice. */
  method BeginTemp(directory: OpenDirectory, destination: Name, contents: Bytes, process: nat)
      returns (r: Result<(Inode, Name), IoError>)
    requires Valid(directory.fs)
    modifies directory
    ensures Valid(directory.fs)
    ensures old(directory.collisions) <= directory.collisions <= old(directory.collisions) + TEMP_ATTEMPTS
    ensures directory.refused == if r == Err(Other) then old(directory.refused) + [CreateTemp]
                                 else old(directory.refused)
    ensures r == Err(InvalidInput) <==> '\0' in destination
    ensures '\0' !in destination ==>
              (r == Err(AlreadyExists) <==> directory.collisions == old(directory.collisions) + TEMP_ATTEMPTS)
    ensures old(directory.trace) <= directory.trace && Untouched(old(directory.fs), directory.fs, destination)
    ensures AlwaysOldOrNew(old(directory.fs), directory.trace, |old(directory.trace)|, destination, contents)
    ensures r.Err? ==> directory.fs == old(directory.fs)
    ensures r.Ok? ==>
              var (i, temp) := r.value;
              && i !in old(directory.fs.files) && i in directory.fs.files
              && temp != destination && temp !in old(directory.fs.dir)
                 && directory.fs.dir == old(directory.fs.dir)[temp := i]
  {
    ghost var before := directory.fs;
    UntouchedIsSafe(before, before, destination, contents);
    r := CreateUniqueTemp(directory, destination, process);
    if r.Ok? {
      CreateUntouched(before, before, destination, r.value.1);
      UntouchedIsSafe(before, directory.fs, destination, contents);
    }
  }

  /** The temporary is gone, or removing it was refused and it lies where it was. */
  predicate CleanedUp(before: Fs, after: Fs, temp: Name, refused: seq<SystemCall>, now: seq<SystemCall>) {
    || (now == refused && after.dir == before.dir - {temp})
    || (now == refused + [UnlinkTemp] && after.dir == before.dir)
  }

  /** The cleanup every failure before the rename ends in. */
  method Discard(directory: OpenDirectory, destination: Name, temp: Name, contents: Bytes, ghost before: Fs)
    requires Valid(before) && Valid(directory.fs) && Untouched(before, directory.fs, destination) && temp != destination
    modifies directory
    ensures Valid(directory.fs) && old(directory.trace) <= directory.trace
    ensures AlwaysOldOrNew(before, directory.trace, |old(directory.trace)|, destination, contents)
    ensures Written(before, directory.fs, destination, contents, Unpublished)
    ensures directory.collisions == old(directory.collisions) && CleanedUp(old(directory.fs), directory.fs, temp,
        old(directory.refused), directory.refused)
  {
    AppendUntouched(before, directory.fs, destination, Unlink(temp));
    directory.DropGuard(temp, false);
    UntouchedMeaning(before, directory.fs, destination);
  }

  /** Rename the finished temporary over the destination and sync the directory. */
  method Publish(directory: OpenDirectory, destination: Name, i: Inode, temp: Name, contents: Bytes, ghost before: Fs)
    returns (outcome: AtomicWriteOutcome)
    requires Valid(before) && Valid(directory.fs) && Untouched(before, directory.fs, destination) && temp != destination
    requires temp in directory.fs.dir && directory.fs.dir[temp] == i
    requires i in directory.fs.files && directory.fs.files[i] == File(contents, true)
    modifies directory
    ensures Valid(directory.fs) && old(directory.trace) <= directory.trace
    ensures AlwaysOldOrNew(before, directory.trace, |old(directory.trace)|, destination, contents)
    ensures Written(before, directory.fs, destination, contents, VerdictOf(outcome))
    ensures directory.collisions == old(directory.collisions)
    ensures match outcome
            case Durable => directory.refused == old(directory.refused)
            case PublishedDurabilityPending(_, _) => directory.refused == old(directory.refused) + [SyncParent]
            case NotPublished(error) =>
              error == Other && CleanedUp(old(directory.fs), directory.fs, temp,
                                          old(directory.refused) + [RenameTemp], directory.refused)
    ensures !outcome.NotPublished? ==>
            directory.fs.dir == (old(directory.fs.dir) - {temp})[destination := directory.fs.dir[destination]]
    ensures outcome.PublishedDurabilityPending? ==> outcome.receipt.directory == directory
  {
    RenamePublishes(before, directory.fs, destination, temp, i, contents);
    UntouchedIsSafe(before, directory.fs, destination, contents);
    var renamed := directory.RenameAt(temp, destination);
    if !renamed {
      Discard(directory, destination, temp, contents, before);
      return NotPublished(Other);
    }
    directory.DropGuard(temp, true);
    SyncSettles(directory.fs, destination, contents);
    var receipt := new DurabilityReceipt(directory);
    var synced := directory.SyncAll();
    outcome := if synced then Durable else PublishedDurabilityPending(Other, receipt);
  }

  /** Fill and sync the temporary. */
  method FillTemp(directory: OpenDirectory, destination: Name, i: Inode, temp: Name, contents: Bytes, ghost before: Fs)
      returns (ok: bool)
    requires Valid(before) && Valid(directory.fs) && Untouched(before, directory.fs, destination)
    requires i !in before.files && i in directory.fs.files
    modifies directory
    ensures Valid(directory.fs) && Untouched(before, directory.fs, destination)
    ensures directory.fs.dir == old(directory.fs.dir) && directory.collisions == old(directory.collisions)
    ensures || (ok && directory.refused == old(directory.refused))
            || (!ok && directory.refused == old(directory.refused) + [WriteTemp])
            || (!ok && directory.refused == old(directory.refused) + [SyncTemp])
    ensures i in directory.fs.files && (ok ==> directory.fs.files[i] == File(contents, true))
    ensures old(directory.trace) <= directory.trace
    ensures AlwaysOldOrNew(before, directory.trace, |old(directory.trace)|, destination, contents)
  {
    ghost var start := directory.fs;
    ok := directory.Write(i, contents);
    SetFileUntouched(before, start, destination, i, directory.fs.files[i]);
    UntouchedIsSafe(before, directory.fs, destination, contents);
    if ok {
      ghost var filled := directory.fs;
      assert filled.files[i].data == contents;
      ok := directory.SyncFile(i);
      SetFileUntouched(before, filled, destination, i, File(contents, true));
      UntouchedIsSafe(before, directory.fs, destination, contents);
    }
  }
}
