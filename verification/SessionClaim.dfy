/** Claiming a saved session: any number of openers rename the public snapshot to a private name, sync
    that, decode it, unlink it and sync again, one step at a time and in any interleaving, while
    snapshots are published, processes die and power is lost. */
module SessionClaim {
  import opened Outcomes
  import opened Sequences
  import opened CrashFs
  import opened ClaimNames

  type Pid = nat

  /** How far an opener has come: it renamed the snapshot, its own sync succeeded, it decoded, it
      unlinked its claim. */
  datatype Phase =
    | Claimed(name: Name, ino: Inode)
    | Retired(name: Name, ino: Inode)
    | Decoded(name: Name, ino: Inode)
    | Consumed(name: Name, ino: Inode)

  /** Whether a claim's rename is on disk. While it is not: whether the snapshot's publication was on
      disk when it was claimed, and whether another snapshot has been published since. */
  datatype Status = Settled | Unsynced(kept: bool, overtaken: bool)

  datatype Claim = Claim(name: Name, status: Status)

  /** `claims` has every snapshot that has been claimed, `consumed` those unlinked after decoding, and
      `restored` those returned as live sessions. `kept` says that the publication of what is public
      now is on disk. */
  datatype State = State(
    fs: Fs,
    openers: map<Pid, Phase>,
    claims: map<Inode, Claim>,
    consumed: set<Inode>,
    restored: seq<Inode>,
    kept: bool)

  datatype Step =
    | Publish(contents: Bytes)
    | Sync
    | Open(pid: Pid, name: Name)
    | SyncClaim(pid: Pid, ok: bool)
    | Decode(pid: Pid, readable: bool)
    | UnlinkClaim(pid: Pid, ok: bool)
    | Finish(pid: Pid, synced: bool)
    | Die(pid: Pid)
    | PowerLoss(keep: seq<bool>, torn: map<Inode, Bytes>)

  function SettleAll(claims: map<Inode, Claim>): map<Inode, Claim> {
    map i | i in claims :: Claim(claims[i].name, Settled)
  }

  /** A successful sync of the directory, by anyone. */
  function Synced(s: State): State {
    s.(fs := SyncDirectory(s.fs), kept := true, claims := SettleAll(s.claims))
  }

  function Leave(s: State, p: Pid): State {
    s.(openers := s.openers - {p})
  }

  function Overtake(c: Claim): Claim {
    if c.status.Unsynced? then c.(status := Unsynced(c.status.kept, true)) else c
  }

  function OvertakeAll(claims: map<Inode, Claim>): map<Inode, Claim> {
    map i | i in claims :: Overtake(claims[i])
  }

  /** A publication, as the rename of a file whose data is synced. */
  function NextPublish(s: State, contents: Bytes): State {
    var room := AddFile(s.fs, File(contents, true));
    s.(fs := Append(room, Link(PUBLIC, s.fs.next)), kept := false, claims := OvertakeAll(s.claims))
  }

  predicate CanOpen(s: State, p: Pid, name: Name) {
    p !in s.openers && PUBLIC in s.fs.dir && name !in s.fs.dir && name != PUBLIC
  }

  /** claim_exclusive: vacant when there is no public snapshot, refused when the private name is taken. */
  function NextOpen(s: State, p: Pid, name: Name): State {
    if !CanOpen(s, p, name) then s
    else
      var i := s.fs.dir[PUBLIC];
      s.(fs := Append(s.fs, Rename(PUBLIC, name, i)),
         openers := s.openers[p := Claimed(name, i)],
         claims := s.claims[i := Claim(name, Unsynced(s.kept, false))])
  }

  function NextSyncClaim(s: State, p: Pid, ok: bool): State {
    if p !in s.openers || !s.openers[p].Claimed? then s
    else if !ok then Leave(s, p)
    else Synced(s).(openers := s.openers[p := Retired(s.openers[p].name, s.openers[p].ino)])
  }

  /** Reads whatever file the private name leads to; what cannot be read or restored is quarantined. */
  function NextDecode(s: State, p: Pid, readable: bool, restores: Bytes -> bool): State {
    if p !in s.openers || !s.openers[p].Retired? then s
    else
      var name := s.openers[p].name;
      var read := Read(s.fs, name);
      if readable && read.Some? && restores(read.value)
          then s.(openers := s.openers[p := Decoded(name, s.fs.dir[name])])
      else Leave(s, p)
  }

  function NextUnlink(s: State, p: Pid, ok: bool): State {
    if p !in s.openers || !s.openers[p].Decoded? then s
    else if !ok then Leave(s, p)
    else
      var ph := s.openers[p];
      s.(fs := Append(s.fs, Unlink(ph.name)),
         openers := s.openers[p := Consumed(ph.name, ph.ino)],
         consumed := s.consumed + {ph.ino})
  }

  /** The last sync only decides what is logged; the session is returned either way. */
  function NextFinish(s: State, p: Pid, synced: bool): State {
    if p !in s.openers || !s.openers[p].Consumed? then s
    else
      var done := Leave(s, p).(restored := s.restored + [s.openers[p].ino]);
      if synced then Synced(done) else done
  }

  /** The claims that are still there after a crash; one whose rename was rolled back never happened. */
  function Recovered(claims: map<Inode, Claim>, consumed: set<Inode>, d: Directory): map<Inode, Claim> {
    map i | i in claims && (i in consumed || Lookup(d, claims[i].name) == Some(i)) :: Claim(claims[i].name, Settled)
  }

  function NextPowerLoss(s: State, keep: seq<bool>, torn: map<Inode, Bytes>): State {
    if |keep| != |s.fs.pending| then s
    else
      var fs := Crash(s.fs, keep, torn);
      s.(fs := fs, openers := map[], claims := Recovered(s.claims, s.consumed, fs.dir), kept := true)
  }

  function Next(s: State, step: Step, restores: Bytes -> bool): State {
    match step
    case Publish(contents) => NextPublish(s, contents)
    case Sync => Synced(s)
    case Open(p, name) => NextOpen(s, p, name)
    case SyncClaim(p, ok) => NextSyncClaim(s, p, ok)
    case Decode(p, readable) => NextDecode(s, p, readable, restores)
    case UnlinkClaim(p, ok) => NextUnlink(s, p, ok)
    case Finish(p, synced) => NextFinish(s, p, synced)
    case Die(p) => Leave(s, p)
    case PowerLoss(keep, torn) => NextPowerLoss(s, keep, torn)
  }

  function Run(s: State, steps: seq<Step>, restores: Bytes -> bool): State {
    if steps == [] then s else Next(Run(s, steps[..|steps| - 1], restores), steps[|steps| - 1], restores)
  }

  /** Any file system at rest without hard links, with nobody claiming: earlier evidence files may lie around. */
  ghost predicate Initial(s: State) {
    && Valid(s.fs) && AtRest(s.fs) && AllSynced(s.fs)
    && s.openers == map[] && s.claims == map[] && s.consumed == {} && s.restored == [] && s.kept
  }

  // ---- what every step keeps ----

  predicate AllSynced(fs: Fs) {
    forall i | i in fs.files :: fs.files[i].synced
  }

  /** Where the claimed snapshot can be found, `gone` or not yet consumed. */
  ghost predicate ClaimOk(fs: Fs, i: Inode, c: Claim, gone: bool) {
    && i in fs.files && c.name != PUBLIC && Lookup(fs.dir, PUBLIC) != Some(i)
    && match c.status
       case Settled => !MayBind(fs, PUBLIC, Some(i)) && (!gone ==> Pinned(fs, c.name, i))
       case Unsynced(kept, overtaken) =>
         && !gone && Lookup(fs.dir, c.name) == Some(i)
         && (!overtaken ==> PUBLIC !in fs.dir)
         && (kept ==> if overtaken then Losable(fs, i) else Swinging(fs, c.name, i))
  }

  ghost predicate ClaimsOk(fs: Fs, claims: map<Inode, Claim>, consumed: set<Inode>) {
    forall i | i in claims :: ClaimOk(fs, i, claims[i], i in consumed)
  }

  /** While its publication is on disk, what is public stays so. */
  ghost predicate PublicOk(fs: Fs, kept: bool) {
    PUBLIC in fs.dir && kept ==> Pinned(fs, PUBLIC, fs.dir[PUBLIC])
  }

  predicate OpenerOk(s: State, ph: Phase) {
    && ph.ino in s.claims && s.claims[ph.ino].name == ph.name && ph.ino !in s.restored
    && (!ph.Claimed? ==> s.claims[ph.ino].status.Settled?)
    && (ph.Consumed? <==> ph.ino in s.consumed)
  }

  predicate OpenersOk(s: State) {
    && (forall p | p in s.openers :: OpenerOk(s, s.openers[p]))
    && (forall p, q | p in s.openers && q in s.openers && p != q :: s.openers[p].ino != s.openers[q].ino)
  }

  predicate RestoredOk(s: State) {
    && (forall k | 0 <= k < |s.restored| :: s.restored[k] in s.consumed)
    && (forall j, k | 0 <= j < k < |s.restored| :: s.restored[j] != s.restored[k])
  }

  ghost predicate FsOk(s: State) {
    && Valid(s.fs) && AllSynced(s.fs) && Tidy(s.fs) && PublicOk(s.fs, s.kept) && ClaimsOk(s.fs, s.claims, s.consumed)
  }

  predicate BooksOk(s: State) {
    s.consumed <= s.claims.Keys && OpenersOk(s) && RestoredOk(s)
  }

  ghost predicate Inv(s: State) {
    FsOk(s) && BooksOk(s)
  }

  // ---- one claim, one change to the directory ----

  /** An unlink of another name. */
  lemma ClaimUnderUnlink(fs: Fs, n: Name, i: Inode, c: Claim, gone: bool)
    requires Valid(fs) && ClaimOk(fs, i, c, gone) && n != PUBLIC && (!gone ==> n != c.name)
    ensures ClaimOk(Append(fs, Unlink(n)), i, c, gone)
  {
    var op := Unlink(n);
    MayBindAppend(fs, op, PUBLIC, Some(i));
    if c.status.Settled? {
      if !gone {
        PinnedAppend(fs, op, c.name, i);
      }
    } else if c.status.kept {
      if c.status.overtaken {
        LosableAppend(fs, op, i);
      } else {
        SwingingAppend(fs, op, c.name, i);
      }
    }
  }

  /** The unlink of the claim itself, after decoding. */
  lemma ClaimConsumed(fs: Fs, i: Inode, c: Claim)
    requires ClaimOk(fs, i, c, false) && c.status.Settled?
    ensures ClaimOk(Append(fs, Unlink(c.name)), i, c, true)
  {
    MayBindAppend(fs, Unlink(c.name), PUBLIC, Some(i));
  }

  /** The claim of another snapshot. */
  lemma ClaimUnderOpen(fs: Fs, name: Name, j: Inode, i: Inode, c: Claim, gone: bool)
    requires Valid(fs) && ClaimOk(fs, i, c, gone) && Lookup(fs.dir, PUBLIC) == Some(j) && name !in fs.dir
             && name != PUBLIC
    ensures ClaimOk(Append(fs, Rename(PUBLIC, name, j)), i, c, gone)
  {
    var op := Rename(PUBLIC, name, j);
    MayBindAppend(fs, op, PUBLIC, Some(i));
    if c.status.Settled? {
      if !gone {
        PinnedNow(fs, c.name, i);
        PinnedAppend(fs, op, c.name, i);
      }
    } else if c.status.kept {
      LosableAppend(fs, op, i);
    }
  }

  /** The claim that an open makes. */
  lemma ClaimMade(fs: Fs, name: Name, i: Inode, kept: bool)
    requires Valid(fs) && Tidy(fs) && PublicOk(fs, kept)
    requires Lookup(fs.dir, PUBLIC) == Some(i) && name != PUBLIC
    ensures ClaimOk(Append(fs, Rename(PUBLIC, name, i)), i, Claim(name, Unsynced(kept, false)), false)
  {
    DirectoryKnown(fs, PUBLIC);
    if kept {
      ClaimSwings(fs, name, i);
    }
  }

  /** A publication overtakes the claims that are not on disk. */
  lemma ClaimUnderPublish(fs: Fs, j: Inode, i: Inode, c: Claim, gone: bool)
    requires Valid(fs) && Tidy(fs) && ClaimOk(fs, i, c, gone) && i != j
    ensures ClaimOk(Append(fs, Link(PUBLIC, j)), i, Overtake(c), gone)
  {
    var op := Link(PUBLIC, j);
    MayBindAppend(fs, op, PUBLIC, Some(i));
    if c.status.Settled? {
      if !gone {
        PinnedAppend(fs, op, c.name, i);
      }
    } else if c.status.kept {
      if c.status.overtaken {
        LosableAppend(fs, op, i);
      } else {
        PublishLoses(fs, c.name, i, j);
      }
    }
  }

  /** A directory at rest that still has the claim, or never again needs to. */
  lemma ClaimAtRest(fs: Fs, i: Inode, name: Name, gone: bool)
    requires AtRest(fs) && i in fs.files && name != PUBLIC
    requires if gone then Lookup(fs.dir, PUBLIC) != Some(i) else Lookup(fs.dir, name) == Some(i)
    ensures ClaimOk(fs, i, Claim(name, Settled), gone)
  {
    MayBindSettled(fs, PUBLIC, Some(i));
    if !gone {
      RestPins(fs, name);
    }
  }

  lemma ClaimSynced(fs: Fs, i: Inode, c: Claim, gone: bool)
    requires Valid(fs) && Tidy(fs) && ClaimOk(fs, i, c, gone)
    ensures ClaimOk(SyncDirectory(fs), i, Claim(c.name, Settled), gone)
  {
    SyncedAtRest(fs);
    if c.status.Settled? && !gone {
      PinnedNow(fs, c.name, i);
    }
    ClaimAtRest(SyncDirectory(fs), i, c.name, gone);
  }

  lemma ClaimRecovered(fs: Fs, keep: seq<bool>, torn: map<Inode, Bytes>, i: Inode, c: Claim, gone: bool)
    requires Tidy(fs) && |keep| == |fs.pending| && ClaimOk(fs, i, c, gone)
    requires gone || Lookup(Crash(fs, keep, torn).dir, c.name) == Some(i)
    ensures ClaimOk(Crash(fs, keep, torn), i, Claim(c.name, Settled), gone)
  {
    var after := Crash(fs, keep, torn);
    CrashedAtRest(fs, keep, torn);
    MayBindSettled(after, PUBLIC, Lookup(after.dir, PUBLIC));
    CrashNarrows(fs, keep, torn, PUBLIC, Lookup(after.dir, PUBLIC));
    ClaimAtRest(after, i, c.name, gone);
  }

  // ---- every step ----

  lemma AddFileKeepsClaim(fs: Fs, f: File, i: Inode, c: Claim, gone: bool)
    requires Valid(fs) && ClaimOk(fs, i, c, gone)
    ensures ClaimOk(AddFile(fs, f), i, c, gone)
  {
    AddFileKeepsNames(fs, f);
    var room := AddFile(fs, f);
    if c.status.Unsynced? && c.status.kept && c.status.overtaken {
      var keep :| |keep| == |fs.pending| && Nameless(Survive(fs.durable, fs.pending, keep), i);
      assert Nameless(Survive(room.durable, room.pending, keep), i);
    }
  }

  lemma PublishKeepsFs(s: State, contents: Bytes)
    requires FsOk(s)
    ensures FsOk(NextPublish(s, contents))
  {
    var f, j := File(contents, true), s.fs.next;
    var room := AddFile(s.fs, f);
    AddFileKeepsNames(s.fs, f);
    AddFileKeepsTidy(s.fs, f);
    AppendValid(room, Link(PUBLIC, j));
    TidyAppend(room, Link(PUBLIC, j));
    var after := NextPublish(s, contents);
    forall i | i in after.claims
      ensures ClaimOk(after.fs, i, after.claims[i], i in s.consumed)
    {
      AddFileKeepsClaim(s.fs, f, i, s.claims[i], i in s.consumed);
      ClaimUnderPublish(room, j, i, s.claims[i], i in s.consumed);
    }
  }

  lemma SyncKeepsFs(s: State)
    requires FsOk(s)
    ensures FsOk(Synced(s))
  {
    var after := Synced(s);
    SyncValid(s.fs);
    SyncedAtRest(s.fs);
    RestIsTidy(after.fs);
    if PUBLIC in after.fs.dir {
      RestPins(after.fs, PUBLIC);
    }
    forall i | i in after.claims
      ensures ClaimOk(after.fs, i, after.claims[i], i in s.consumed)
    {
      ClaimSynced(s.fs, i, s.claims[i], i in s.consumed);
    }
  }

  lemma OpenKeepsFs(s: State, p: Pid, name: Name)
    requires FsOk(s) && CanOpen(s, p, name) && s.consumed <= s.claims.Keys
    ensures FsOk(NextOpen(s, p, name)) && s.fs.dir[PUBLIC] !in s.claims
  {
    var j := s.fs.dir[PUBLIC];
    assert j in s.claims ==> ClaimOk(s.fs, j, s.claims[j], j in s.consumed);
    var op := Rename(PUBLIC, name, j);
    DirectoryKnown(s.fs, PUBLIC);
    AppendValid(s.fs, op);
    TidyAppend(s.fs, op);
    var after := NextOpen(s, p, name);
    forall i | i in after.claims
      ensures ClaimOk(after.fs, i, after.claims[i], i in s.consumed)
    {
      if i == j {
        ClaimMade(s.fs, name, j, s.kept);
      } else {
        ClaimUnderOpen(s.fs, name, j, i, s.claims[i], i in s.consumed);
      }
    }
  }

  lemma UnlinkKeepsFs(s: State, p: Pid)
    requires FsOk(s) && OpenersOk(s) && p in s.openers && s.openers[p].Decoded?
    ensures FsOk(NextUnlink(s, p, true))
  {
    var ph := s.openers[p];
    assert OpenerOk(s, ph) && ClaimOk(s.fs, ph.ino, s.claims[ph.ino], false);
    var op := Unlink(ph.name);
    PinnedNow(s.fs, ph.name, ph.ino);
    AppendValid(s.fs, op);
    TidyAppend(s.fs, op);
    var after := NextUnlink(s, p, true);
    if PUBLIC in after.fs.dir && s.kept {
      PinnedAppend(s.fs, op, PUBLIC, s.fs.dir[PUBLIC]);
    }
    forall i | i in after.claims
      ensures ClaimOk(after.fs, i, after.claims[i], i in after.consumed)
    {
      if i == ph.ino {
        ClaimConsumed(s.fs, i, s.claims[i]);
      } else {
        OtherName(s.fs, i, s.claims[i], i in s.consumed, ph.ino, ph.name);
        ClaimUnderUnlink(s.fs, ph.name, i, s.claims[i], i in s.consumed);
      }
    }
  }

  /** Two snapshots are not claimed under one name. */
  lemma OtherName(fs: Fs, i: Inode, c: Claim, gone: bool, j: Inode, name: Name)
    requires Valid(fs) && ClaimOk(fs, i, c, gone) && Lookup(fs.dir, name) == Some(j) && i != j
    ensures !gone ==> c.name != name
  {
    if !gone && c.status.Settled? {
      PinnedNow(fs, c.name, i);
    }
  }

  lemma PowerLossKeepsFs(s: State, keep: seq<bool>, torn: map<Inode, Bytes>)
    requires FsOk(s) && |keep| == |s.fs.pending|
    ensures FsOk(NextPowerLoss(s, keep, torn))
  {
    var after := NextPowerLoss(s, keep, torn);
    CrashValid(s.fs, keep, torn);
    CrashedAtRest(s.fs, keep, torn);
    RestIsTidy(after.fs);
    if PUBLIC in after.fs.dir {
      RestPins(after.fs, PUBLIC);
    }
    forall i | i in after.claims
      ensures ClaimOk(after.fs, i, after.claims[i], i in s.consumed)
    {
      ClaimRecovered(s.fs, keep, torn, i, s.claims[i], i in s.consumed);
    }
  }

  /** Openers see of the claims their names and that they stay settled. */
  lemma OpenersFrame(s: State, after: State)
    requires OpenersOk(s) && after.openers == s.openers && after.consumed == s.consumed && after.restored == s.restored
    requires forall i | i in s.claims ::
               i in after.claims && after.claims[i].name == s.claims[i].name
                   && (s.claims[i].status.Settled? ==> after.claims[i].status.Settled?)
    ensures OpenersOk(after)
  {
    forall p | p in after.openers
      ensures OpenerOk(after, after.openers[p])
    {
      assert OpenerOk(s, s.openers[p]);
    }
  }

  lemma PublishKeepsInv(s: State, contents: Bytes)
    requires Inv(s)
    ensures Inv(NextPublish(s, contents))
  {
    PublishKeepsFs(s, contents);
    OpenersFrame(s, NextPublish(s, contents));
  }

  lemma SyncKeepsInv(s: State)
    requires Inv(s)
    ensures Inv(Synced(s))
  {
    SyncKeepsFs(s);
    OpenersFrame(s, Synced(s));
  }

  lemma LeaveKeepsInv(s: State, p: Pid)
    requires Inv(s)
    ensures Inv(Leave(s, p))
  {
    var after := Leave(s, p);
    forall q | q in after.openers
      ensures OpenerOk(after, after.openers[q])
    {
      assert OpenerOk(s, s.openers[q]);
    }
  }

  lemma OpenKeepsOpeners(s: State, p: Pid, name: Name)
    requires OpenersOk(s) && CanOpen(s, p, name) && s.fs.dir[PUBLIC] !in s.claims
    requires s.consumed <= s.claims.Keys && RestoredOk(s)
    ensures OpenersOk(NextOpen(s, p, name))
  {
    var after := NextOpen(s, p, name);
    forall q | q in after.openers
      ensures OpenerOk(after, after.openers[q])
      ensures q != p ==> after.openers[q].ino != s.fs.dir[PUBLIC]
    {
      assert q != p ==> OpenerOk(s, s.openers[q]);
    }
  }

  lemma OpenKeepsInv(s: State, p: Pid, name: Name)
    requires Inv(s)
    ensures Inv(NextOpen(s, p, name))
  {
    if CanOpen(s, p, name) {
      OpenKeepsFs(s, p, name);
      OpenKeepsOpeners(s, p, name);
    }
  }

  /** An opener goes on with the snapshot it has claimed. */
  lemma OpenersAdvance(s: State, after: State, p: Pid)
    requires OpenersOk(s) && p in s.openers && after.claims == s.claims && after.restored == s.restored
    requires p in after.openers && after.openers == s.openers[p := after.openers[p]]
    requires after.openers[p].ino == s.openers[p].ino
    requires forall i | i != s.openers[p].ino :: i in after.consumed <==> i in s.consumed
    requires OpenerOk(after, after.openers[p])
    ensures OpenersOk(after)
  {
    forall q | q in after.openers
      ensures OpenerOk(after, after.openers[q])
    {
      if q != p {
        assert OpenerOk(s, s.openers[q]);
      }
    }
  }

  lemma RetireKeepsBooks(s: State, p: Pid)
    requires BooksOk(s) && p in s.openers && s.openers[p].Claimed?
    requires s.openers[p].ino in s.claims && s.claims[s.openers[p].ino].status.Settled?
    ensures BooksOk(s.(openers := s.openers[p := Retired(s.openers[p].name, s.openers[p].ino)]))
  {
    assert OpenerOk(s, s.openers[p]);
    OpenersAdvance(s, s.(openers := s.openers[p := Retired(s.openers[p].name, s.openers[p].ino)]), p);
  }

  lemma SyncClaimKeepsInv(s: State, p: Pid, ok: bool)
    requires Inv(s)
    ensures Inv(NextSyncClaim(s, p, ok))
  {
    LeaveKeepsInv(s, p);
    if p in s.openers && s.openers[p].Claimed? && ok {
      assert OpenerOk(s, s.openers[p]);
      SyncKeepsInv(s);
      RetireKeepsBooks(Synced(s), p);
    }
  }

  /** A settled claim's name still leads to the snapshot that was claimed. */
  lemma SettledName(s: State, p: Pid)
    requires Inv(s) && p in s.openers && (s.openers[p].Retired? || s.openers[p].Decoded?)
    ensures Lookup(s.fs.dir, s.openers[p].name) == Some(s.openers[p].ino)
  {
    var ph := s.openers[p];
    assert OpenerOk(s, ph) && ClaimOk(s.fs, ph.ino, s.claims[ph.ino], false);
    PinnedNow(s.fs, ph.name, ph.ino);
  }

  lemma DecodeKeepsBooks(s: State, p: Pid)
    requires BooksOk(s) && p in s.openers && s.openers[p].Retired?
    ensures BooksOk(s.(openers := s.openers[p := Decoded(s.openers[p].name, s.openers[p].ino)]))
  {
    assert OpenerOk(s, s.openers[p]);
    OpenersAdvance(s, s.(openers := s.openers[p := Decoded(s.openers[p].name, s.openers[p].ino)]), p);
  }

  lemma DecodeKeepsInv(s: State, p: Pid, readable: bool, restores: Bytes -> bool)
    requires Inv(s)
    ensures Inv(NextDecode(s, p, readable, restores))
  {
    LeaveKeepsInv(s, p);
    if p in s.openers && s.openers[p].Retired? {
      SettledName(s, p);
      DecodeKeepsBooks(s, p);
    }
  }

  lemma UnlinkKeepsBooks(s: State, p: Pid)
    requires BooksOk(s) && p in s.openers && s.openers[p].Decoded?
    ensures BooksOk(NextUnlink(s, p, true))
  {
    assert OpenerOk(s, s.openers[p]);
    OpenersAdvance(s, NextUnlink(s, p, true), p);
  }

  lemma UnlinkKeepsInv(s: State, p: Pid, ok: bool)
    requires Inv(s)
    ensures Inv(NextUnlink(s, p, ok))
  {
    LeaveKeepsInv(s, p);
    if p in s.openers && s.openers[p].Decoded? && ok {
      UnlinkKeepsFs(s, p);
      UnlinkKeepsBooks(s, p);
    }
  }

  lemma ReturnKeepsBooks(s: State, p: Pid)
    requires BooksOk(s) && p in s.openers && s.openers[p].Consumed?
    ensures BooksOk(NextFinish(s, p, false))
  {
    var after := NextFinish(s, p, false);
    assert OpenerOk(s, s.openers[p]);
    forall q | q in after.openers
      ensures OpenerOk(after, after.openers[q])
    {
      assert OpenerOk(s, s.openers[q]);
    }
  }

  lemma FinishKeepsInv(s: State, p: Pid, synced: bool)
    requires Inv(s)
    ensures Inv(NextFinish(s, p, synced))
  {
    if p in s.openers && s.openers[p].Consumed? {
      ReturnKeepsBooks(s, p);
      SyncKeepsInv(NextFinish(s, p, false));
    }
  }

  lemma PowerLossKeepsInv(s: State, keep: seq<bool>, torn: map<Inode, Bytes>)
    requires Inv(s)
    ensures Inv(NextPowerLoss(s, keep, torn))
  {
    if |keep| == |s.fs.pending| {
      PowerLossKeepsFs(s, keep, torn);
    }
  }

  lemma StepKeepsInv(s: State, step: Step, restores: Bytes -> bool)
    requires Inv(s)
    ensures Inv(Next(s, step, restores))
  {
    match step
    case Publish(contents) => PublishKeepsInv(s, contents);
    case Sync => SyncKeepsInv(s);
    case Open(p, name) => OpenKeepsInv(s, p, name);
    case SyncClaim(p, ok) => SyncClaimKeepsInv(s, p, ok);
    case Decode(p, readable) => DecodeKeepsInv(s, p, readable, restores);
    case UnlinkClaim(p, ok) => UnlinkKeepsInv(s, p, ok);
    case Finish(p, synced) => FinishKeepsInv(s, p, synced);
    case Die(p) => LeaveKeepsInv(s, p);
    case PowerLoss(keep, torn) => PowerLossKeepsInv(s, keep, torn);
  }

  lemma {:induction false} RunKeepsInv(s: State, steps: seq<Step>, restores: Bytes -> bool)
    requires Initial(s)
    ensures Inv(Run(s, steps, restores))
  {
    if steps == [] {
      RestIsTidy(s.fs);
      if PUBLIC in s.fs.dir {
        RestPins(s.fs, PUBLIC);
      }
    } else {
      RunKeepsInv(s, steps[..|steps| - 1], restores);
      StepKeepsInv(Run(s, steps[..|steps| - 1], restores), steps[|steps| - 1], restores);
    }
  }

  // ---- what every run guarantees ----

  /** In every run, with any number of openers and power losses, a snapshot is returned as a live
      session at most once. */
  lemma RestoredAtMostOnce(s: State, steps: seq<Step>, restores: Bytes -> bool, j: nat, k: nat)
    requires Initial(s) && j < k < |Run(s, steps, restores).restored|
    ensures Run(s, steps, restores).restored[j] != Run(s, steps, restores).restored[k]
  {
    RunKeepsInv(s, steps, restores);
  }

  /** The file has exactly one name, and its bytes read back there. */
  ghost predicate ReadsUnder(fs: Fs, n: Name, i: Inode, data: Bytes) {
    Read(fs, n) == Some(data) && Lookup(fs.dir, n) == Some(i) && forall m | Lookup(fs.dir, m) == Some(i) :: m == n
  }

  lemma PinnedReads(fs: Fs, n: Name, i: Inode, keep: seq<bool>, torn: map<Inode, Bytes>)
    requires AllSynced(fs) && Pinned(fs, n, i) && i in fs.files && |keep| == |fs.pending|
    ensures ReadsUnder(Crash(fs, keep, torn), n, i, fs.files[i].data)
  {
    var d := Survive(fs.durable, fs.pending, keep);
    assert MayBind(fs, n, Lookup(d, n));
    forall m | Lookup(d, m) == Some(i)
      ensures m == n
    {
      assert MayBind(fs, m, Some(i));
    }
  }

  /** Once any directory sync has followed the rename, whoever made it, no crash brings the snapshot back
      under the public name, and until an opener that decoded it unlinks it every crash finds it, whole,
      under its private name alone: also after a failed sync of its own opener, a failed read, a failed
      unlink or the opener's death. */
  lemma SettledEvidenceStays(s: State, steps: seq<Step>, restores: Bytes -> bool, i: Inode, keep: seq<bool>,
      torn: map<Inode, Bytes>)
    requires Initial(s)
    requires var end := Run(s, steps, restores);
             i in end.claims && end.claims[i].status.Settled? && |keep| == |end.fs.pending|
    ensures var end := Run(s, steps, restores);
            var after := Crash(end.fs, keep, torn);
            && Lookup(after.dir, PUBLIC) != Some(i)
            && (i !in end.consumed ==>
                  i in end.fs.files && ReadsUnder(after, end.claims[i].name, i, end.fs.files[i].data))
  {
    RunKeepsInv(s, steps, restores);
    var end := Run(s, steps, restores);
    assert ClaimOk(end.fs, i, end.claims[i], i in end.consumed);
    var d := Survive(end.fs.durable, end.fs.pending, keep);
    assert MayBind(end.fs, PUBLIC, Lookup(d, PUBLIC));
    if i !in end.consumed {
      PinnedReads(end.fs, end.claims[i].name, i, keep, torn);
    }
  }

  /** A public snapshot whose publication is on disk stays public, whole and under that name alone
      through every crash. */
  lemma PublicSnapshotStays(s: State, steps: seq<Step>, restores: Bytes -> bool, keep: seq<bool>,
                            torn: map<Inode, Bytes>)
    requires Initial(s)
    requires var end := Run(s, steps, restores); PUBLIC in end.fs.dir && end.kept && |keep| == |end.fs.pending|
    ensures var end := Run(s, steps, restores);
            var i := end.fs.dir[PUBLIC];
            i in end.fs.files && ReadsUnder(Crash(end.fs, keep, torn), PUBLIC, i, end.fs.files[i].data)
  {
    RunKeepsInv(s, steps, restores);
    var end := Run(s, steps, restores);
    DirectoryKnown(end.fs, PUBLIC);
    PinnedReads(end.fs, PUBLIC, end.fs.dir[PUBLIC], keep, torn);
  }

  /** When a claimed, unconsumed snapshot whose publication was on disk keeps exactly one name through
      every crash: exactly when it has not been overtaken by a publication while its rename is not on
      disk. */
  lemma ClaimKeepsOneNameIff(s: State, steps: seq<Step>, restores: Bytes -> bool, i: Inode)
    requires Initial(s)
    requires var end := Run(s, steps, restores);
             i in end.claims && i !in end.consumed && (end.claims[i].status.Unsynced? ==> end.claims[i].status.kept)
    ensures var end := Run(s, steps, restores);
            AlwaysOneName(end.fs, i) <==> end.claims[i].status != Unsynced(true, true)
  {
    RunKeepsInv(s, steps, restores);
    var end := Run(s, steps, restores);
    assert ClaimOk(end.fs, i, end.claims[i], false);
    if end.claims[i].status.Settled? {
      PinnedIsOneName(end.fs, end.claims[i].name, i);
    } else if end.claims[i].status.overtaken {
      LosableIsNotOneName(end.fs, i);
    } else {
      SwingingIsOneName(end.fs, end.claims[i].name, i);
    }
  }

  // ---- the same, in terms of the steps ----

  /** The step syncs the directory. */
  predicate SyncsAt(s: State, step: Step) {
    || step.Sync?
    || (step.SyncClaim? && step.ok && step.pid in s.openers && s.openers[step.pid].Claimed?)
    || (step.Finish? && step.synced && step.pid in s.openers && s.openers[step.pid].Consumed?)
  }

  ghost predicate SomeBetween(test: nat -> bool, o: nat, e: nat) {
    exists m: nat | o < m < e :: test(m)
  }

  function SyncSteps(s: State, steps: seq<Step>, restores: Bytes -> bool): nat -> bool {
    (m: nat) => m < |steps| && SyncsAt(Run(s, steps[..m], restores), steps[m])
  }

  function PublishSteps(steps: seq<Step>): nat -> bool {
    (m: nat) => m < |steps| && steps[m].Publish?
  }

  /** Some step after the `o`-th and before the `e`-th syncs the directory. */
  ghost predicate SyncedBetween(s: State, steps: seq<Step>, restores: Bytes -> bool, o: nat, e: nat)
    requires e <= |steps|
  {
    SomeBetween(SyncSteps(s, steps, restores), o, e)
  }

  ghost predicate PublishedBetween(steps: seq<Step>, o: nat, e: nat)
    requires e <= |steps|
  {
    SomeBetween(PublishSteps(steps), o, e)
  }

  predicate NoPowerLoss(steps: seq<Step>, o: nat) {
    forall m | o < m < |steps| :: !steps[m].PowerLoss?
  }

  /** Step `o` claims snapshot `i`. */
  predicate ClaimsAt(s: State, steps: seq<Step>, restores: Bytes -> bool, o: nat, i: Inode)
    requires o < |steps|
  {
    var before := Run(s, steps[..o], restores);
    steps[o].Open? && CanOpen(before, steps[o].pid, steps[o].name) && before.fs.dir[PUBLIC] == i
  }

  lemma RunSnoc(s: State, steps: seq<Step>, restores: Bytes -> bool, e: nat)
    requires e < |steps|
    ensures Run(s, steps[..e + 1], restores) == Next(Run(s, steps[..e], restores), steps[e], restores)
  {
    TakeTake(steps, e);
  }

  /** What one step does to the status of a claim. */
  lemma StatusStep(s: State, step: Step, restores: Bytes -> bool, i: Inode)
    requires Inv(s) && i in s.claims && !step.PowerLoss?
    ensures var after := Next(s, step, restores);
            && i in after.claims
            && after.claims[i].status ==
               if SyncsAt(s, step) then Settled
               else if step.Publish? then Overtake(s.claims[i]).status
               else s.claims[i].status
  {
    if step.Open? && CanOpen(s, step.pid, step.name) {
      assert ClaimOk(s.fs, i, s.claims[i], i in s.consumed);
    }
  }

  lemma SomeGrows(test: nat -> bool, o: nat, e: nat)
    requires o < e
    ensures SomeBetween(test, o, e + 1) <==> SomeBetween(test, o, e) || test(e)
  {
  }

  lemma SyncedGrows(s: State, steps: seq<Step>, restores: Bytes -> bool, o: nat, e: nat)
    requires o < e < |steps|
    ensures SyncedBetween(s, steps, restores, o, e + 1)
            <==> SyncedBetween(s, steps, restores, o, e) || SyncsAt(Run(s, steps[..e], restores), steps[e])
  {
    SomeGrows(SyncSteps(s, steps, restores), o, e);
  }

  lemma PublishedGrows(steps: seq<Step>, o: nat, e: nat)
    requires o < e < |steps|
    ensures PublishedBetween(steps, o, e + 1) <==> PublishedBetween(steps, o, e) || steps[e].Publish?
  {
    SomeGrows(PublishSteps(steps), o, e);
  }

  /** The step puts on disk what has been published: a directory sync, or a power loss, after which what is
      visible is what the disk holds. */
  predicate SettlesAt(s: State, step: Step) {
    SyncsAt(s, step) || (step.PowerLoss? && |step.keep| == |s.fs.pending|)
  }

  /** A step after the `m`-th and before the `e`-th does so. */
  ghost predicate SettledSince(s: State, steps: seq<Step>, restores: Bytes -> bool, m: nat, e: nat)
    requires e <= |steps|
  {
    exists k | m < k < e :: SettlesAt(Run(s, steps[..k], restores), steps[k])
  }

  ghost predicate PublicationsSettled(s: State, steps: seq<Step>, restores: Bytes -> bool, e: nat)
    requires e <= |steps|
  {
    forall m: nat | m < e && steps[m].Publish? :: SettledSince(s, steps, restores, m, e)
  }

  lemma SettledSinceGrows(s: State, steps: seq<Step>, restores: Bytes -> bool, m: nat, e: nat)
    requires e < |steps|
    ensures SettledSince(s, steps, restores, m, e + 1)
            <==> SettledSince(s, steps, restores, m, e)
                 || (m < e && SettlesAt(Run(s, steps[..e], restores), steps[e]))
  {
  }

  lemma PublicationsGrow(s: State, steps: seq<Step>, restores: Bytes -> bool, e: nat)
    requires e < |steps|
    ensures PublicationsSettled(s, steps, restores, e + 1)
            <==> SettlesAt(Run(s, steps[..e], restores), steps[e])
                 || (PublicationsSettled(s, steps, restores, e) && !steps[e].Publish?)
  {
    forall m: nat | m <= e
      ensures SettledSince(s, steps, restores, m, e + 1)
              <==> SettledSince(s, steps, restores, m, e)
                   || (m < e && SettlesAt(Run(s, steps[..e], restores), steps[e]))
    {
      SettledSinceGrows(s, steps, restores, m, e);
    }
  }

  lemma KeptStep(s: State, step: Step, restores: Bytes -> bool)
    ensures Next(s, step, restores).kept <==> SettlesAt(s, step) || (s.kept && !step.Publish?)
  {
  }

  lemma {:induction false} KeptAt(s: State, steps: seq<Step>, restores: Bytes -> bool, e: nat)
    requires s.kept && e <= |steps|
    ensures Run(s, steps[..e], restores).kept <==> PublicationsSettled(s, steps, restores, e)
  {
    if e > 0 {
      KeptAt(s, steps, restores, e - 1);
      RunSnoc(s, steps, restores, e - 1);
      KeptStep(Run(s, steps[..e - 1], restores), steps[e - 1], restores);
      PublicationsGrow(s, steps, restores, e - 1);
    }
  }

  /** What is public counts as on disk exactly when every publication has been followed by a directory sync or
      a power loss. */
  lemma KeptIff(s: State, steps: seq<Step>, restores: Bytes -> bool)
    requires Initial(s)
    ensures Run(s, steps, restores).kept <==> PublicationsSettled(s, steps, restores, |steps|)
  {
    KeptAt(s, steps, restores, |steps|);
    Whole(steps, 0);
  }

  /** The claim itself. */
  lemma StatusMade(s: State, step: Step, restores: Bytes -> bool, i: Inode)
    requires step.Open? && CanOpen(s, step.pid, step.name) && s.fs.dir[PUBLIC] == i
    ensures var after := Next(s, step, restores);
            i in after.claims && after.claims[i].status == Unsynced(s.kept, false)
  {
  }

  /** The status of a claim, read off the steps since it was made. */
  lemma {:induction false} StatusMeaning(s: State, steps: seq<Step>, restores: Bytes -> bool, o: nat, e: nat, i: Inode)
    requires Initial(s) && o < e <= |steps| && ClaimsAt(s, steps, restores, o, i) && NoPowerLoss(steps, o)
    ensures var now := Run(s, steps[..e], restores);
            && i in now.claims
            && now.claims[i].status ==
               if SyncedBetween(s, steps, restores, o, e) then Settled
               else Unsynced(Run(s, steps[..o], restores).kept, PublishedBetween(steps, o, e))
    decreases e
  {
    var last := e - 1;
    var before := Run(s, steps[..last], restores);
    RunSnoc(s, steps, restores, last);
    if last == o {
      StatusMade(before, steps[last], restores, i);
    } else {
      StatusMeaning(s, steps, restores, o, last, i);
      RunKeepsInv(s, steps[..last], restores);
      StatusStep(before, steps[last], restores, i);
      SyncedGrows(s, steps, restores, o, last);
      PublishedGrows(steps, o, last);
    }
  }

  lemma ConsumedGrows(s: State, step: Step, restores: Bytes -> bool)
    ensures s.consumed <= Next(s, step, restores).consumed
  {
  }

  lemma {:induction false} ConsumedStays(s: State, steps: seq<Step>, restores: Bytes -> bool, e: nat)
    requires e <= |steps|
    ensures Run(s, steps[..e], restores).consumed <= Run(s, steps, restores).consumed
    decreases |steps| - e
  {
    if e == |steps| {
      Whole(steps, 0);
    } else {
      RunSnoc(s, steps, restores, e);
      ConsumedGrows(Run(s, steps[..e], restores), steps[e], restores);
      ConsumedStays(s, steps, restores, e + 1);
    }
  }

  /** At every moment from its claim on, every crash leaves the snapshot exactly one name. */
  ghost predicate OneNameThroughout(s: State, steps: seq<Step>, restores: Bytes -> bool, o: nat, i: Inode) {
    forall e | o < e <= |steps| :: AlwaysOneName(Run(s, steps[..e], restores).fs, i)
  }

  /** Nothing is published between the claim and the directory sync that first follows it. */
  ghost predicate SyncedBeforePublish(s: State, steps: seq<Step>, restores: Bytes -> bool, o: nat) {
    forall m: nat | o < m < |steps| && steps[m].Publish? :: SyncedBetween(s, steps, restores, o, m)
  }

  lemma OneNameAt(s: State, steps: seq<Step>, restores: Bytes -> bool, o: nat, e: nat, i: Inode)
    requires Initial(s) && o < e <= |steps| && ClaimsAt(s, steps, restores, o, i) && NoPowerLoss(steps, o)
    requires Run(s, steps[..o], restores).kept && i !in Run(s, steps, restores).consumed
    ensures AlwaysOneName(Run(s, steps[..e], restores).fs, i)
            <==> SyncedBetween(s, steps, restores, o, e) || !PublishedBetween(steps, o, e)
  {
    StatusMeaning(s, steps, restores, o, e, i);
    ConsumedStays(s, steps, restores, e);
    ClaimKeepsOneNameIff(s, steps[..e], restores, i);
  }

  lemma SomeLater(test: nat -> bool, o: nat, m: nat, e: nat)
    requires m <= e && SomeBetween(test, o, m)
    ensures SomeBetween(test, o, e)
  {
  }

  lemma SyncedFirst(s: State, steps: seq<Step>, restores: Bytes -> bool, o: nat, e: nat)
    requires o < e <= |steps| && SyncedBeforePublish(s, steps, restores, o) && PublishedBetween(steps, o, e)
    ensures SyncedBetween(s, steps, restores, o, e)
  {
    var m: nat :| o < m < e && PublishSteps(steps)(m);
    assert SyncedBetween(s, steps, restores, o, m);
    SomeLater(SyncSteps(s, steps, restores), o, m, e);
  }

  /** A snapshot whose publication was on disk when it was claimed, and that is not consumed, keeps
      exactly one name at every moment and through every crash, exactly when nothing is published
      between its claim and the next directory sync. */
  lemma OneNameThroughoutIff(s: State, steps: seq<Step>, restores: Bytes -> bool, o: nat, i: Inode)
    requires Initial(s) && o < |steps| && ClaimsAt(s, steps, restores, o, i) && NoPowerLoss(steps, o)
    requires Run(s, steps[..o], restores).kept && i !in Run(s, steps, restores).consumed
    ensures OneNameThroughout(s, steps, restores, o, i) <==> SyncedBeforePublish(s, steps, restores, o)
  {
    if SyncedBeforePublish(s, steps, restores, o) {
      forall e | o < e <= |steps|
        ensures AlwaysOneName(Run(s, steps[..e], restores).fs, i)
      {
        OneNameAt(s, steps, restores, o, e, i);
        if PublishedBetween(steps, o, e) {
          SyncedFirst(s, steps, restores, o, e);
        }
      }
    } else {
      var m: nat :| o < m < |steps| && steps[m].Publish? && !SyncedBetween(s, steps, restores, o, m);
      LostAt(s, steps, restores, o, m, i);
    }
  }

  lemma LostAt(s: State, steps: seq<Step>, restores: Bytes -> bool, o: nat, m: nat, i: Inode)
    requires Initial(s) && o < m < |steps| && ClaimsAt(s, steps, restores, o, i) && NoPowerLoss(steps, o)
    requires Run(s, steps[..o], restores).kept && i !in Run(s, steps, restores).consumed
    requires steps[m].Publish? && !SyncedBetween(s, steps, restores, o, m)
    ensures !OneNameThroughout(s, steps, restores, o, i)
  {
    var e := m + 1;
    OneNameAt(s, steps, restores, o, e, i);
    PublishUnsynced(s, steps, restores, o, m);
    assert !AlwaysOneName(Run(s, steps[..e], restores).fs, i);
  }

  lemma PublishUnsynced(s: State, steps: seq<Step>, restores: Bytes -> bool, o: nat, m: nat)
    requires o < m < |steps| && steps[m].Publish? && !SyncedBetween(s, steps, restores, o, m)
    ensures !SyncedBetween(s, steps, restores, o, m + 1) && PublishedBetween(steps, o, m + 1)
  {
    SyncedGrows(s, steps, restores, o, m);
    PublishedGrows(steps, o, m);
  }

  /** The failing case itself: publish over a claim that is not yet synced, lose power with only the newer
      name on disk, and the older snapshot is nowhere. */
  lemma RacingPublishDropsClaim(s: State, claim: Name, contents: Bytes, restores: Bytes -> bool)
    requires Initial(s) && PUBLIC in s.fs.dir && claim !in s.fs.dir && claim != PUBLIC
    ensures var raced := Next(Next(s, Open(0, claim), restores), Publish(contents), restores);
            var end := Next(raced, PowerLoss([false, true], map[]), restores);
            Nameless(end.fs.dir, s.fs.dir[PUBLIC]) && s.fs.dir[PUBLIC] !in end.consumed
  {
    DirectoryKnown(s.fs, PUBLIC);
    RaceEnds(s, claim, contents);
  }

  /** Of two pending changes only the second survives. */
  lemma SurviveSecond(d: Directory, first: DirOp, second: DirOp)
    ensures Survive(d, [first, second], [false, true]) == Apply(d, second)
  {
    assert [first, second][..1] == [first] && [false, true][..1] == [false];
    assert Survive(d, [first], [false]) == d;
  }

  lemma RaceEnds(s: State, claim: Name, contents: Bytes)
    requires s.openers == map[] && s.fs.pending == [] && PUBLIC in s.fs.dir && claim !in s.fs.dir && claim != PUBLIC
    ensures var end := NextPowerLoss(NextPublish(NextOpen(s, 0, claim), contents), [false, true], map[]);
            end.fs.dir == s.fs.durable[PUBLIC := s.fs.next] && end.consumed == s.consumed
  {
    var first, second := Rename(PUBLIC, claim, s.fs.dir[PUBLIC]), Link(PUBLIC, s.fs.next);
    var both := NextPublish(NextOpen(s, 0, claim), contents);
    assert both.fs.pending == [first, second];
    SurviveSecond(s.fs.durable, first, second);
  }

  // ---- what a session is made of ----

  predicate Restorable(s: State, restores: Bytes -> bool, i: Inode) {
    i in s.fs.files && restores(s.fs.files[i].data)
  }

  ghost predicate DecodedOk(s: State, restores: Bytes -> bool) {
    && (forall p | p in s.openers && (s.openers[p].Decoded? || s.openers[p].Consumed?) ::
       Restorable(s, restores, s.openers[p].ino))
    && (forall i | i in s.consumed :: Restorable(s, restores, i))
  }

  /** Snapshot files never change: not by any step, not by a crash. */
  lemma StepKeepsFiles(s: State, step: Step, restores: Bytes -> bool, i: Inode)
    requires Inv(s) && i in s.fs.files
    ensures i in Next(s, step, restores).fs.files && Next(s, step, restores).fs.files[i] == s.fs.files[i]
  {
    assert i < s.fs.next;
  }

  lemma DecodeKeepsDecoded(s: State, p: Pid, readable: bool, restores: Bytes -> bool)
    requires DecodedOk(s, restores)
    ensures DecodedOk(NextDecode(s, p, readable, restores), restores)
  {
  }

  lemma UnlinkKeepsDecoded(s: State, p: Pid, ok: bool, restores: Bytes -> bool)
    requires DecodedOk(s, restores)
    ensures DecodedOk(NextUnlink(s, p, ok), restores)
  {
    if p in s.openers && s.openers[p].Decoded? {
      assert Restorable(s, restores, s.openers[p].ino);
    }
  }

  /** Steps that let nobody decode and consume nothing. */
  lemma OthersKeepDecoded(s: State, after: State, restores: Bytes -> bool)
    requires DecodedOk(s, restores) && after.consumed == s.consumed
    requires forall i | i in s.fs.files :: i in after.fs.files && after.fs.files[i] == s.fs.files[i]
    requires forall p | p in after.openers && (after.openers[p].Decoded? || after.openers[p].Consumed?) ::
               p in s.openers && s.openers[p] == after.openers[p]
    ensures DecodedOk(after, restores)
  {
  }

  lemma StepKeepsDecoded(s: State, step: Step, restores: Bytes -> bool)
    requires Inv(s) && DecodedOk(s, restores)
    ensures DecodedOk(Next(s, step, restores), restores)
  {
    forall i | i in s.fs.files
      ensures i in Next(s, step, restores).fs.files && Next(s, step, restores).fs.files[i] == s.fs.files[i]
    {
      StepKeepsFiles(s, step, restores, i);
    }
    if step.Decode? {
      DecodeKeepsDecoded(s, step.pid, step.readable, restores);
    } else if step.UnlinkClaim? {
      UnlinkKeepsDecoded(s, step.pid, step.ok, restores);
    } else {
      OthersKeepDecoded(s, Next(s, step, restores), restores);
    }
  }

  /** Only snapshots that decoded into a session are ever unlinked, and only unlinked ones returned. */
  lemma {:induction false} ConsumedWasRestorable(s: State, steps: seq<Step>, restores: Bytes -> bool)
    requires Initial(s)
    ensures var end := Run(s, steps, restores);
            && (forall i | i in end.consumed :: i in end.fs.files && restores(end.fs.files[i].data))
            && (forall k | 0 <= k < |end.restored| :: end.restored[k] in end.consumed)
            && DecodedOk(end, restores)
  {
    RunKeepsInv(s, steps, restores);
    if steps != [] {
      ConsumedWasRestorable(s, steps[..|steps| - 1], restores);
      RunKeepsInv(s, steps[..|steps| - 1], restores);
      StepKeepsDecoded(Run(s, steps[..|steps| - 1], restores), steps[|steps| - 1], restores);
    }
  }
}
