/** Which names a crash can leave for snapshots that are published under one public name and claimed by
    renaming them to private ones. */
module ClaimNames {
  import opened Outcomes
  import opened CrashFs

  const PUBLIC: Name := "agent_session.json"

  /** No file has two names. */
  predicate Injective(d: Directory) {
    forall m, n | m in d && n in d && d[m] == d[n] :: m == n
  }

  /** No crash leaves a file with two names, nor what is public now under another one. */
  ghost predicate Tidy(fs: Fs) {
    && (forall keep | |keep| == |fs.pending| :: Injective(Survive(fs.durable, fs.pending, keep)))
    && (PUBLIC in fs.dir ==> forall n | MayBind(fs, n, Some(fs.dir[PUBLIC])) :: n == PUBLIC)
  }

  /** Every crash finds the inode under this name and under no other. */
  ghost predicate Pinned(fs: Fs, m: Name, i: Inode) {
    && (forall b | MayBind(fs, m, b) :: b == Some(i))
    && (forall n | MayBind(fs, n, Some(i)) :: n == m)
  }

  /** The directory leads to the inode by exactly one of the public and this private name. */
  predicate EitherName(d: Directory, name: Name, i: Inode) {
    if Lookup(d, PUBLIC) == Some(i) then Lookup(d, name) != Some(i) else Lookup(d, name) == Some(i)
  }

  /** A rename that is not on disk yet: a crash finds the inode under exactly one of the two names, and
      some crash rolls the rename back. */
  ghost predicate Swinging(fs: Fs, name: Name, i: Inode) {
    && (forall keep | |keep| == |fs.pending| :: EitherName(Survive(fs.durable, fs.pending, keep), name, i))
    && (forall n | MayBind(fs, n, Some(i)) :: n == PUBLIC || n == name)
    && MayBind(fs, PUBLIC, Some(i))
  }

  predicate Nameless(d: Directory, i: Inode) {
    forall n | n in d :: d[n] != i
  }

  /** Some crash leaves the inode without a name. */
  ghost predicate Losable(fs: Fs, i: Inode) {
    exists keep | |keep| == |fs.pending| :: Nameless(Survive(fs.durable, fs.pending, keep), i)
  }

  /** The directory has exactly one name for the inode. */
  predicate OneName(d: Directory, i: Inode) {
    exists n | n in d :: d[n] == i && forall m | m in d && d[m] == i :: m == n
  }

  /** Every crash leaves the inode exactly one name. */
  ghost predicate AlwaysOneName(fs: Fs, i: Inode) {
    forall keep | |keep| == |fs.pending| :: OneName(Survive(fs.durable, fs.pending, keep), i)
  }

  lemma PinnedNow(fs: Fs, m: Name, i: Inode)
    requires Valid(fs) && Pinned(fs, m, i)
    ensures Lookup(fs.dir, m) == Some(i)
  {
    MayBindNow(fs, m);
  }

  lemma PinnedIsOneName(fs: Fs, m: Name, i: Inode)
    requires Pinned(fs, m, i)
    ensures AlwaysOneName(fs, i)
  {
    forall keep | |keep| == |fs.pending|
      ensures OneName(Survive(fs.durable, fs.pending, keep), i)
    {
      var d := Survive(fs.durable, fs.pending, keep);
      assert MayBind(fs, m, Lookup(d, m));
      assert m in d && d[m] == i;
      forall n | n in d && d[n] == i
        ensures n == m
      {
        assert Lookup(d, n) == Some(i) && MayBind(fs, n, Some(i));
      }
    }
  }

  lemma SwingingIsOneName(fs: Fs, name: Name, i: Inode)
    requires Swinging(fs, name, i)
    ensures AlwaysOneName(fs, i)
  {
    forall keep | |keep| == |fs.pending|
      ensures OneName(Survive(fs.durable, fs.pending, keep), i)
    {
      var d := Survive(fs.durable, fs.pending, keep);
      assert EitherName(d, name, i);
      var here := if Lookup(d, PUBLIC) == Some(i) then PUBLIC else name;
      assert here in d && d[here] == i;
      forall n | n in d && d[n] == i
        ensures n == here
      {
        assert Lookup(d, n) == Some(i) && MayBind(fs, n, Some(i));
      }
    }
  }

  lemma LosableIsNotOneName(fs: Fs, i: Inode)
    requires Losable(fs, i)
    ensures !AlwaysOneName(fs, i)
  {
    var keep :| |keep| == |fs.pending| && Nameless(Survive(fs.durable, fs.pending, keep), i);
    assert !OneName(Survive(fs.durable, fs.pending, keep), i);
  }

  // ---- one more pending change ----

  /** A change that neither touches the pinned name nor binds the inode leaves it pinned. */
  lemma PinnedAppend(fs: Fs, op: DirOp, m: Name, i: Inode)
    requires Pinned(fs, m, i) && !Touches(op, m) && (!op.Unlink? ==> op.ino != i)
    ensures Pinned(Append(fs, op), m, i)
  {
    forall b | MayBind(Append(fs, op), m, b)
      ensures b == Some(i)
    {
      MayBindAppend(fs, op, m, b);
    }
    forall n | MayBind(Append(fs, op), n, Some(i))
      ensures n == m
    {
      MayBindAppend(fs, op, n, Some(i));
    }
  }

  lemma EitherNameApply(d: Directory, op: DirOp, name: Name, i: Inode)
    requires EitherName(d, name, i) && !Touches(op, PUBLIC) && !Touches(op, name)
    ensures EitherName(Apply(d, op), name, i)
  {
    ApplyMeaning(d, op, PUBLIC);
    ApplyMeaning(d, op, name);
  }

  lemma SwingingAppend(fs: Fs, op: DirOp, name: Name, i: Inode)
    requires Swinging(fs, name, i) && !Touches(op, PUBLIC) && !Touches(op, name) && op.Unlink?
    ensures Swinging(Append(fs, op), name, i)
  {
    var after := Append(fs, op);
    forall keep | |keep| == |after.pending|
      ensures EitherName(Survive(after.durable, after.pending, keep), name, i)
    {
      SurviveSnoc(fs.durable, fs.pending, op, keep);
      EitherNameApply(Survive(fs.durable, fs.pending, keep[..|fs.pending|]), op, name, i);
    }
    forall n | MayBind(after, n, Some(i))
      ensures n == PUBLIC || n == name
    {
      MayBindAppend(fs, op, n, Some(i));
    }
    MayBindAppend(fs, op, PUBLIC, Some(i));
  }

  lemma LosableAppend(fs: Fs, op: DirOp, i: Inode)
    requires Losable(fs, i)
    ensures Losable(Append(fs, op), i)
  {
    var keep :| |keep| == |fs.pending| && Nameless(Survive(fs.durable, fs.pending, keep), i);
    SurviveSnoc(fs.durable, fs.pending, op, keep + [false]);
    assert (keep + [false])[..|fs.pending|] == keep;
    var after := Append(fs, op);
    assert Nameless(Survive(after.durable, after.pending, keep + [false]), i);
  }

  /** A new public name over a rename that can still be rolled back: the crash that keeps only the newer
      change leaves the older file nowhere. */
  lemma PublishLoses(fs: Fs, name: Name, i: Inode, j: Inode)
    requires Tidy(fs) && Swinging(fs, name, i) && i != j
    ensures Losable(Append(fs, Link(PUBLIC, j)), i)
  {
    var keep :| |keep| == |fs.pending| && Lookup(Survive(fs.durable, fs.pending, keep), PUBLIC) == Some(i);
    var after, d := Append(fs, Link(PUBLIC, j)), Survive(fs.durable, fs.pending, keep);
    SurviveSnoc(fs.durable, fs.pending, Link(PUBLIC, j), keep + [true]);
    assert (keep + [true])[..|fs.pending|] == keep;
    assert Injective(d);
    assert Nameless(d[PUBLIC := j], i);
    assert Survive(after.durable, after.pending, keep + [true]) == d[PUBLIC := j];
  }

  lemma EitherNameRename(d: Directory, name: Name, i: Inode)
    requires Lookup(d, PUBLIC) == Some(i) && Lookup(d, name) != Some(i) && name != PUBLIC
    ensures EitherName(d, name, i) && EitherName(Apply(d, Rename(PUBLIC, name, i)), name, i)
  {
  }

  /** Claiming a snapshot whose publication is on disk. */
  lemma ClaimSwings(fs: Fs, name: Name, i: Inode)
    requires Pinned(fs, PUBLIC, i) && name != PUBLIC
    ensures Swinging(Append(fs, Rename(PUBLIC, name, i)), name, i)
  {
    var op := Rename(PUBLIC, name, i);
    var after := Append(fs, op);
    forall keep | |keep| == |after.pending|
      ensures EitherName(Survive(after.durable, after.pending, keep), name, i)
    {
      SurviveSnoc(fs.durable, fs.pending, op, keep);
      var d := Survive(fs.durable, fs.pending, keep[..|fs.pending|]);
      assert MayBind(fs, PUBLIC, Lookup(d, PUBLIC)) && MayBind(fs, name, Lookup(d, name));
      EitherNameRename(d, name, i);
    }
    forall n | MayBind(after, n, Some(i))
      ensures n == PUBLIC || n == name
    {
      MayBindAppend(fs, op, n, Some(i));
    }
    var d := Survive(fs.durable, fs.pending, All(|fs.pending|));
    assert MayBind(fs, PUBLIC, Lookup(d, PUBLIC));
    MayBindAppend(fs, op, PUBLIC, Some(i));
  }

  lemma ApplyInjective(d: Directory, op: DirOp)
    requires Injective(d)
    requires !op.Unlink? ==> forall n | n in d && d[n] == op.ino :: op.Rename? && n == op.src
    ensures Injective(Apply(d, op))
  {
    var after := Apply(d, op);
    forall m, n | m in after && n in after && after[m] == after[n]
      ensures m == n
    {
      ApplyMeaning(d, op, m);
      ApplyMeaning(d, op, n);
    }
  }

  /** A change keeps every crash free of double names when it binds no inode, or one that every crash
      finds nowhere but under the name it is moved away from. */
  lemma InjectiveAppend(fs: Fs, op: DirOp, keep: seq<bool>)
    requires Tidy(fs) && |keep| == |fs.pending| + 1
    requires op.Link? ==> forall n :: !MayBind(fs, n, Some(op.ino))
    requires op.Rename? ==> forall n | MayBind(fs, n, Some(op.ino)) :: n == op.src
    ensures Injective(Survive(fs.durable, fs.pending + [op], keep))
  {
    SurviveSnoc(fs.durable, fs.pending, op, keep);
    var before := Survive(fs.durable, fs.pending, keep[..|fs.pending|]);
    assert Injective(before);
    if !op.Unlink? {
      forall n | n in before && before[n] == op.ino
        ensures op.Rename? && n == op.src
      {
        assert Lookup(before, n) == Some(op.ino);
        assert MayBind(fs, n, Some(op.ino));
      }
    }
    ApplyInjective(before, op);
  }

  lemma TidyAppend(fs: Fs, op: DirOp)
    requires Tidy(fs)
    requires op.Link? ==> op.name == PUBLIC && forall n :: !MayBind(fs, n, Some(op.ino))
    requires op.Rename? ==> op.src == PUBLIC && op.dst != PUBLIC && forall n | MayBind(fs, n, Some(op.ino)) ::
             n == PUBLIC
    requires op.Unlink? ==> op.name != PUBLIC
    ensures Tidy(Append(fs, op))
  {
    var after := Append(fs, op);
    forall keep | |keep| == |after.pending|
      ensures Injective(Survive(after.durable, after.pending, keep))
    {
      InjectiveAppend(fs, op, keep);
    }
    if PUBLIC in after.dir {
      forall n | MayBind(after, n, Some(after.dir[PUBLIC]))
        ensures n == PUBLIC
      {
        MayBindAppend(fs, op, n, Some(after.dir[PUBLIC]));
      }
    }
  }

  // ---- a sync, a crash, a new file ----

  lemma TidyNow(fs: Fs)
    requires Valid(fs) && Tidy(fs)
    ensures Injective(fs.dir)
  {
    assert Injective(Survive(fs.durable, fs.pending, All(|fs.pending|)));
  }

  /** With nothing pending, names are what they are. */
  ghost predicate AtRest(fs: Fs) {
    fs.pending == [] && fs.durable == fs.dir && Injective(fs.dir)
  }

  lemma SyncedAtRest(fs: Fs)
    requires Valid(fs) && Tidy(fs)
    ensures AtRest(SyncDirectory(fs))
  {
    TidyNow(fs);
  }

  lemma CrashedAtRest(fs: Fs, keep: seq<bool>, torn: map<Inode, Bytes>)
    requires Tidy(fs) && |keep| == |fs.pending|
    ensures AtRest(Crash(fs, keep, torn))
  {
  }

  lemma RestIsTidy(fs: Fs)
    requires AtRest(fs)
    ensures Tidy(fs)
  {
    forall keep: seq<bool> | |keep| == |fs.pending|
      ensures Survive(fs.durable, fs.pending, keep) == fs.dir
    {
    }
    if PUBLIC in fs.dir {
      forall n | MayBind(fs, n, Some(fs.dir[PUBLIC]))
        ensures n == PUBLIC
      {
        MayBindSettled(fs, n, Some(fs.dir[PUBLIC]));
      }
    }
  }

  lemma RestPins(fs: Fs, n: Name)
    requires AtRest(fs) && n in fs.dir
    ensures Pinned(fs, n, fs.dir[n])
  {
    forall m, b | MayBind(fs, m, b)
      ensures b == Lookup(fs.dir, m)
    {
      MayBindSettled(fs, m, b);
    }
  }

  lemma CrashNarrows(fs: Fs, keep: seq<bool>, torn: map<Inode, Bytes>, n: Name, b: Option<Inode>)
    requires |keep| == |fs.pending| && MayBind(Crash(fs, keep, torn), n, b)
    ensures MayBind(fs, n, b)
  {
    MayBindSettled(Crash(fs, keep, torn), n, b);
  }

  /** A file added to the inode table, with no name yet. */
  function AddFile(fs: Fs, f: File): Fs {
    fs.(files := fs.files[fs.next := f], next := fs.next + 1)
  }

  lemma AddFileKeepsNames(fs: Fs, f: File)
    requires Valid(fs)
    ensures Valid(AddFile(fs, f)) && fs.next !in fs.files
    ensures forall n, b :: MayBind(AddFile(fs, f), n, b) <==> MayBind(fs, n, b)
    ensures forall n :: !MayBind(AddFile(fs, f), n, Some(fs.next))
  {
    forall n, b
      ensures MayBind(AddFile(fs, f), n, b) <==> MayBind(fs, n, b)
    {
    }
    forall n
      ensures !MayBind(AddFile(fs, f), n, Some(fs.next))
    {
      if MayBind(fs, n, Some(fs.next)) {
        MayBindKnown(fs, n, Some(fs.next));
      }
    }
  }

  lemma AddFileKeepsTidy(fs: Fs, f: File)
    requires Valid(fs) && Tidy(fs)
    ensures Tidy(AddFile(fs, f))
  {
    AddFileKeepsNames(fs, f);
  }
}
