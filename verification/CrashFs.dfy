/** One directory and the files in it, as they are seen by processes and as they survive power loss.
    Directory changes stay pending until the directory is synced, and a crash keeps any subset of
    them, in order. A file whose data was never synced comes back with any bytes at all. */
module CrashFs {
  import opened Outcomes
  import opened Sequences

  type Name = string
  type Inode = nat
  type Bytes = seq<bv8>
  type Directory = map<Name, Inode>

  /** A directory change: a name given to an inode, a name removed, an inode moved between names. */
  datatype DirOp = Link(name: Name, ino: Inode) | Unlink(name: Name) | Rename(src: Name, dst: Name, ino: Inode)

  datatype File = File(data: Bytes, synced: bool)

  /** `dir` is what processes see, `durable` what the disk holds for sure, and `pending` leads from
      one to the other. Inodes from `next` on have never been used. */
  datatype Fs = Fs(dir: Directory, durable: Directory, pending: seq<DirOp>, files: map<Inode, File>, next: Inode)

  function Lookup(d: Directory, n: Name): Option<Inode> {
    if n in d then Some(d[n]) else None
  }

  function Apply(d: Directory, op: DirOp): Directory {
    match op
    case Link(name, ino) => d[name := ino]
    case Unlink(name) => d - {name}
    case Rename(src, dst, ino) => (d - {src})[dst := ino]
  }

  /** The directory after the changes that `keep` selects. */
  function Survive(d: Directory, ops: seq<DirOp>, keep: seq<bool>): Directory
    requires |keep| == |ops|
  {
    if ops == [] then d
    else
      var before := Survive(d, ops[..|ops| - 1], keep[..|keep| - 1]);
      if keep[|keep| - 1] then Apply(before, ops[|ops| - 1]) else before
  }

  function All(n: nat): (keep: seq<bool>)
    ensures |keep| == n
  {
    seq(n, _ => true)
  }

  ghost predicate Valid(fs: Fs) {
    && fs.dir == Survive(fs.durable, fs.pending, All(|fs.pending|))
    && (forall i | i in fs.files :: i < fs.next)
    && (forall n | n in fs.durable :: fs.durable[n] in fs.files)
    && (forall k | 0 <= k < |fs.pending| && !fs.pending[k].Unlink? :: fs.pending[k].ino in fs.files)
  }

  /** What a process reads under a name. */
  function Read(fs: Fs, n: Name): Option<Bytes> {
    if n in fs.dir && fs.dir[n] in fs.files then Some(fs.files[fs.dir[n]].data) else None
  }

  /** Power loss: the pending changes in `keep` survive, and files that were never synced hold `torn`. */
  function Crash(fs: Fs, keep: seq<bool>, torn: map<Inode, Bytes>): Fs
    requires |keep| == |fs.pending|
  {
    var d := Survive(fs.durable, fs.pending, keep);
    Fs(d, d, [], map i | i in fs.files :: CrashedFile(fs.files[i], i, torn), fs.next)
  }

  function CrashedFile(f: File, i: Inode, torn: map<Inode, Bytes>): File {
    if f.synced then f else File(if i in torn then torn[i] else [], true)
  }

  /** Some crash leaves the name bound this way. */
  ghost predicate MayBind(fs: Fs, n: Name, b: Option<Inode>) {
    exists keep | |keep| == |fs.pending| :: Lookup(Survive(fs.durable, fs.pending, keep), n) == b
  }

  /** Some crash leaves these contents under the name. */
  ghost predicate MayHold(fs: Fs, n: Name, c: Option<Bytes>) {
    exists keep, torn | |keep| == |fs.pending| :: Read(Crash(fs, keep, torn), n) == c
  }

  /** The contents a binding may come back with. */
  predicate Plausible(fs: Fs, b: Option<Inode>, c: Option<Bytes>) {
    if b.None? || b.value !in fs.files then c.None?
    else c.Some? && (fs.files[b.value].synced ==> c.value == fs.files[b.value].data)
  }

  function Append(fs: Fs, op: DirOp): Fs {
    fs.(dir := Apply(fs.dir, op), pending := fs.pending + [op])
  }

  /** A new empty file under an unused inode. */
  function Create(fs: Fs, n: Name): Fs {
    Append(fs, Link(n, fs.next)).(files := fs.files[fs.next := File([], false)], next := fs.next + 1)
  }

  function SetFile(fs: Fs, i: Inode, f: File): Fs {
    fs.(files := fs.files[i := f])
  }

  /** A successful directory sync. */
  function SyncDirectory(fs: Fs): Fs {
    fs.(durable := fs.dir, pending := [])
  }

  predicate Touches(op: DirOp, n: Name) {
    match op
    case Link(name, _) => name == n
    case Unlink(name) => name == n
    case Rename(src, dst, _) => src == n || dst == n
  }

  /** What a change leaves under a name it touches. */
  function Effect(op: DirOp, n: Name): Option<Inode> {
    if op.Link? || (op.Rename? && op.dst == n) then Some(op.ino) else None
  }

  lemma ApplyMeaning(d: Directory, op: DirOp, n: Name)
    ensures Lookup(Apply(d, op), n) == if Touches(op, n) then Effect(op, n) else Lookup(d, n)
  {
  }

  lemma SurviveSnoc(d: Directory, ops: seq<DirOp>, op: DirOp, keep: seq<bool>)
    requires |keep| == |ops| + 1
    ensures Survive(d, ops + [op], keep) ==
            var before := Survive(d, ops, keep[..|ops|]);
            if keep[|ops|] then Apply(before, op) else before
  {
    TakeSnoc(ops, op);
  }

  lemma MayBindBefore(fs: Fs, op: DirOp, n: Name, b: Option<Inode>)
    requires MayBind(Append(fs, op), n, b)
    ensures MayBind(fs, n, b) || (Touches(op, n) && b == Effect(op, n))
  {
    var later := Append(fs, op);
    var keep :| |keep| == |later.pending| && Lookup(Survive(later.durable, later.pending, keep), n) == b;
    SurviveSnoc(fs.durable, fs.pending, op, keep);
    var before := Survive(fs.durable, fs.pending, keep[..|fs.pending|]);
    ApplyMeaning(before, op, n);
    assert MayBind(fs, n, Lookup(before, n));
  }

  lemma MayBindStill(fs: Fs, op: DirOp, n: Name, b: Option<Inode>)
    requires MayBind(fs, n, b)
    ensures MayBind(Append(fs, op), n, b)
  {
    var keep :| |keep| == |fs.pending| && Lookup(Survive(fs.durable, fs.pending, keep), n) == b;
    TakeSnoc(keep, false);
    SurviveSnoc(fs.durable, fs.pending, op, keep + [false]);
    var later := Append(fs, op);
    assert Lookup(Survive(later.durable, later.pending, keep + [false]), n) == b;
  }

  lemma MayBindEffect(fs: Fs, op: DirOp, n: Name)
    requires Touches(op, n)
    ensures MayBind(Append(fs, op), n, Effect(op, n))
  {
    var later := Append(fs, op);
    var keep := All(|later.pending|);
    SurviveSnoc(fs.durable, fs.pending, op, keep);
    ApplyMeaning(Survive(fs.durable, fs.pending, keep[..|fs.pending|]), op, n);
    assert Lookup(Survive(later.durable, later.pending, keep), n) == Effect(op, n);
  }

  /** One more pending change: a name may come back as before, or as the change leaves it. */
  lemma MayBindAppend(fs: Fs, op: DirOp, n: Name, b: Option<Inode>)
    ensures MayBind(Append(fs, op), n, b) <==> MayBind(fs, n, b) || (Touches(op, n) && b == Effect(op, n))
  {
    if MayBind(Append(fs, op), n, b) {
      MayBindBefore(fs, op, n, b);
    }
    if MayBind(fs, n, b) {
      MayBindStill(fs, op, n, b);
    }
    if Touches(op, n) {
      MayBindEffect(fs, op, n);
    }
  }

  lemma MayBindSettled(fs: Fs, n: Name, b: Option<Inode>)
    requires fs.pending == []
    ensures MayBind(fs, n, b) <==> b == Lookup(fs.durable, n)
  {
    var keep: seq<bool> := [];
    assert |keep| == |fs.pending| && Survive(fs.durable, fs.pending, keep) == fs.durable;
  }

  lemma MayBindNow(fs: Fs, n: Name)
    requires Valid(fs)
    ensures MayBind(fs, n, Lookup(fs.dir, n))
  {
    assert Lookup(Survive(fs.durable, fs.pending, All(|fs.pending|)), n) == Lookup(fs.dir, n);
  }

  /** Crashing into some contents is crashing into some binding and finding those contents there. */
  lemma MayHoldMeaning(fs: Fs, n: Name, c: Option<Bytes>)
    ensures MayHold(fs, n, c) <==> exists b :: MayBind(fs, n, b) && Plausible(fs, b, c)
  {
    if MayHold(fs, n, c) {
      var keep, torn: map<Inode, Bytes> :| |keep| == |fs.pending| && Read(Crash(fs, keep, torn), n) == c;
      var b := Lookup(Survive(fs.durable, fs.pending, keep), n);
      assert MayBind(fs, n, b) && Plausible(fs, b, c);
    }
    if b :| MayBind(fs, n, b) && Plausible(fs, b, c) {
      var keep :| |keep| == |fs.pending| && Lookup(Survive(fs.durable, fs.pending, keep), n) == b;
      var torn: map<Inode, Bytes> := if b.Some? && c.Some? then map[b.value := c.value] else map[];
      assert Read(Crash(fs, keep, torn), n) == c;
    }
  }

  /** Bindings only ever lead to known inodes. */
  lemma {:induction false} SurviveKnown(d: Directory, ops: seq<DirOp>, keep: seq<bool>, n: Name, known: set<Inode>)
    requires |keep| == |ops|
    requires forall m | m in d :: d[m] in known
    requires forall k | 0 <= k < |ops| && !ops[k].Unlink? :: ops[k].ino in known
    ensures var s := Survive(d, ops, keep); n in s ==> s[n] in known
  {
    if ops != [] {
      SurviveKnown(d, ops[..|ops| - 1], keep[..|keep| - 1], n, known);
      ApplyMeaning(Survive(d, ops[..|ops| - 1], keep[..|keep| - 1]), ops[|ops| - 1], n);
    }
  }

  lemma MayBindKnown(fs: Fs, n: Name, b: Option<Inode>)
    requires Valid(fs) && MayBind(fs, n, b) && b.Some?
    ensures b.value in fs.files && b.value < fs.next
  {
    var keep :| |keep| == |fs.pending| && Lookup(Survive(fs.durable, fs.pending, keep), n) == b;
    SurviveKnown(fs.durable, fs.pending, keep, n, fs.files.Keys);
  }

  /** Every change keeps the directory the outcome of its pending changes. */
  lemma AppendValid(fs: Fs, op: DirOp)
    requires Valid(fs) && (!op.Unlink? ==> op.ino in fs.files)
    ensures Valid(Append(fs, op))
  {
    var keep := All(|fs.pending| + 1);
    SurviveSnoc(fs.durable, fs.pending, op, keep);
    assert keep[..|fs.pending|] == All(|fs.pending|);
  }

  lemma DirectoryKnown(fs: Fs, n: Name)
    requires Valid(fs) && n in fs.dir
    ensures fs.dir[n] in fs.files && fs.dir[n] < fs.next
  {
    MayBindNow(fs, n);
    MayBindKnown(fs, n, Some(fs.dir[n]));
  }

  lemma SyncValid(fs: Fs)
    requires Valid(fs)
    ensures Valid(SyncDirectory(fs))
  {
    forall n | n in fs.dir
      ensures fs.dir[n] in fs.files
    {
      DirectoryKnown(fs, n);
    }
    assert Survive(fs.dir, [], All(0)) == fs.dir;
  }

  lemma CrashValid(fs: Fs, keep: seq<bool>, torn: map<Inode, Bytes>)
    requires Valid(fs) && |keep| == |fs.pending|
    ensures Valid(Crash(fs, keep, torn))
  {
    var d := Survive(fs.durable, fs.pending, keep);
    forall n | n in d
      ensures d[n] in fs.files
    {
      SurviveKnown(fs.durable, fs.pending, keep, n, fs.files.Keys);
    }
    assert Survive(d, [], All(0)) == d;
  }

  lemma CreateValid(fs: Fs, n: Name)
    requires Valid(fs)
    ensures Valid(Create(fs, n))
  {
    var room := fs.(files := fs.files[fs.next := File([], false)], next := fs.next + 1);
    assert Valid(room);
    AppendValid(room, Link(n, fs.next));
  }
}
