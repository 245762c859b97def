/** What becomes of a claimed session: when an opener returns it, and that no consumed snapshot is
    unaccounted for. */
module ClaimOutcomes {
  import opened Outcomes
  import opened Sequences
  import opened CrashFs
  import opened ClaimNames
  import opened SessionClaim

  /** Some opener is at work on the snapshot. */
  predicate Working(s: State, i: Inode) {
    exists p :: p in s.openers && s.openers[p].ino == i
  }

  /** The opener `p` is at work on the snapshot. */
  predicate WorksOn(s: State, p: Pid, i: Inode) {
    p in s.openers && s.openers[p].ino == i
  }

  /** At this step the snapshot's opener fails: a sync, the read, the decoder or the unlink refuses, the
      opener dies, or power is lost. The sync after the unlink is not among these. */
  predicate Refuses(s: State, step: Step, i: Inode, restores: Bytes -> bool) {
    match step
    case SyncClaim(p, ok) => !ok && WorksOn(s, p, i) && s.openers[p].Claimed?
    case Decode(p, readable) =>
      WorksOn(s, p, i) && s.openers[p].Retired? && !(readable && i in s.fs.files && restores(s.fs.files[i].data))
    case UnlinkClaim(p, ok) => !ok && WorksOn(s, p, i) && s.openers[p].Decoded?
    case Die(p) => WorksOn(s, p, i)
    case PowerLoss(keep, _) => |keep| == |s.fs.pending| && Working(s, i)
    case _ => false
  }

  ghost predicate RefusedBetween(s: State, steps: seq<Step>, restores: Bytes -> bool, i: Inode, o: nat, e: nat)
    requires e <= |steps|
  {
    exists m | o < m < e :: Refuses(Run(s, steps[..m], restores), steps[m], i, restores)
  }

  /** Where a claim stands: its opener is at work and was refused nothing, or it is over and the session was
      returned unless something was refused. */
  predicate Stands(s: State, i: Inode, refused: bool) {
    if Working(s, i) then i !in s.restored && !refused else i in s.restored <==> !refused
  }

  /** Nothing changes for a snapshot when its opener stays at work or nobody was. */
  lemma StandsStill(s: State, after: State, i: Inode, refused: bool)
    requires Stands(s, i, refused) && Working(after, i) == Working(s, i)
    requires i in after.restored <==> i in s.restored
    ensures Stands(after, i, refused)
  {
  }

  /** The opener gives up. */
  lemma StandsDown(s: State, after: State, p: Pid, i: Inode)
    requires OpenersOk(s) && Stands(s, i, false) && WorksOn(s, p, i) && after.openers == s.openers - {p}
             && after.restored == s.restored
    ensures Stands(after, i, true)
  {
  }

  /** Another opener leaves, or moves on with its own snapshot. */
  lemma OthersDoNotMatter(s: State, after: State, q: Pid, i: Inode)
    requires forall p | p != q :: (p in after.openers <==> p in s.openers)
               && (p in s.openers ==> after.openers[p] == s.openers[p])
    requires !WorksOn(s, q, i) && !WorksOn(after, q, i)
    ensures Working(after, i) == Working(s, i)
  {
    if p :| p in s.openers && s.openers[p].ino == i {
      assert p in after.openers && after.openers[p].ino == i;
    }
  }

  lemma LeaveStands(s: State, q: Pid, i: Inode, refused: bool)
    requires OpenersOk(s) && Stands(s, i, refused)
    ensures Stands(Leave(s, q), i, refused || WorksOn(s, q, i))
  {
    if WorksOn(s, q, i) {
      StandsDown(s, Leave(s, q), q, i);
    } else {
      OthersDoNotMatter(s, Leave(s, q), q, i);
    }
  }

  /** The opener goes on. */
  lemma AdvanceStands(s: State, after: State, q: Pid, i: Inode, refused: bool)
    requires Stands(s, i, refused) && q in s.openers && q in after.openers
    requires after.openers == s.openers[q := after.openers[q]] && after.openers[q].ino == s.openers[q].ino
    requires after.restored == s.restored
    ensures Stands(after, i, refused)
  {
    if WorksOn(s, q, i) {
      assert WorksOn(after, q, i);
    } else {
      OthersDoNotMatter(s, after, q, i);
    }
  }

  lemma OpenStands(s: State, p: Pid, name: Name, i: Inode, refused: bool)
    requires Stands(s, i, refused) && !(CanOpen(s, p, name) && s.fs.dir[PUBLIC] == i)
    ensures Stands(NextOpen(s, p, name), i, refused)
  {
    if CanOpen(s, p, name) {
      OthersDoNotMatter(s, NextOpen(s, p, name), p, i);
    }
  }

  lemma SyncClaimStands(s: State, p: Pid, ok: bool, i: Inode, refused: bool, restores: Bytes -> bool)
    requires OpenersOk(s) && Stands(s, i, refused)
    ensures Stands(NextSyncClaim(s, p, ok), i, refused || Refuses(s, SyncClaim(p, ok), i, restores))
  {
    if p in s.openers && s.openers[p].Claimed? {
      if ok {
        AdvanceStands(s, NextSyncClaim(s, p, ok), p, i, refused);
      } else {
        LeaveStands(s, p, i, refused);
      }
    }
  }

  lemma DecodeStands(s: State, p: Pid, readable: bool, i: Inode, refused: bool, restores: Bytes -> bool)
    requires Inv(s) && Stands(s, i, refused)
    ensures Stands(NextDecode(s, p, readable, restores), i,
                   refused || Refuses(s, Decode(p, readable), i, restores))
  {
    if p in s.openers && s.openers[p].Retired? {
      SettledName(s, p);
      DirectoryKnown(s.fs, s.openers[p].name);
      if readable && restores(s.fs.files[s.openers[p].ino].data) {
        AdvanceStands(s, NextDecode(s, p, readable, restores), p, i, refused);
      } else {
        LeaveStands(s, p, i, refused);
      }
    }
  }

  lemma UnlinkStands(s: State, p: Pid, ok: bool, i: Inode, refused: bool, restores: Bytes -> bool)
    requires OpenersOk(s) && Stands(s, i, refused)
    ensures Stands(NextUnlink(s, p, ok), i, refused || Refuses(s, UnlinkClaim(p, ok), i, restores))
  {
    if p in s.openers && s.openers[p].Decoded? {
      if ok {
        AdvanceStands(s, NextUnlink(s, p, ok), p, i, refused);
      } else {
        LeaveStands(s, p, i, refused);
      }
    }
  }

  /** The session is returned whether or not the last sync succeeds. */
  lemma FinishStands(s: State, p: Pid, synced: bool, i: Inode, refused: bool)
    requires OpenersOk(s) && Stands(s, i, refused)
    ensures Stands(NextFinish(s, p, synced), i, refused)
    ensures WorksOn(s, p, i) && s.openers[p].Consumed? ==> i in NextFinish(s, p, synced).restored
  {
    if p in s.openers && s.openers[p].Consumed? {
      var after := NextFinish(s, p, synced);
      assert after.openers == s.openers - {p} && after.restored == s.restored + [s.openers[p].ino];
      if WorksOn(s, p, i) {
        assert after.restored[|s.restored|] == i;
      } else {
        OthersDoNotMatter(s, after, p, i);
        assert i in after.restored <==> i in s.restored;
      }
    }
  }

  lemma StepStands(s: State, step: Step, i: Inode, refused: bool, restores: Bytes -> bool)
    requires Inv(s) && Stands(s, i, refused)
    requires step.Open? ==> !(CanOpen(s, step.pid, step.name) && s.fs.dir[PUBLIC] == i)
    ensures Stands(Next(s, step, restores), i, refused || Refuses(s, step, i, restores))
  {
    match step
    case Publish(contents) => StandsStill(s, NextPublish(s, contents), i, refused);
    case Sync => StandsStill(s, Synced(s), i, refused);
    case Open(p, name) => OpenStands(s, p, name, i, refused);
    case SyncClaim(p, ok) => SyncClaimStands(s, p, ok, i, refused, restores);
    case Decode(p, readable) => DecodeStands(s, p, readable, i, refused, restores);
    case UnlinkClaim(p, ok) => UnlinkStands(s, p, ok, i, refused, restores);
    case Finish(p, synced) => FinishStands(s, p, synced, i, refused);
    case Die(p) => LeaveStands(s, p, i, refused);
    case PowerLoss(_, _) =>
  }

  lemma ClaimStands(s: State, p: Pid, name: Name)
    requires Inv(s) && CanOpen(s, p, name)
    ensures Stands(NextOpen(s, p, name), s.fs.dir[PUBLIC], false)
  {
    var after, i := NextOpen(s, p, name), s.fs.dir[PUBLIC];
    OpenKeepsFs(s, p, name);
    assert after.openers[p].ino == i;
    assert forall k | 0 <= k < |s.restored| :: s.restored[k] in s.claims;
  }

  lemma RefusedGrows(s: State, steps: seq<Step>, restores: Bytes -> bool, i: Inode, o: nat, e: nat)
    requires o < e < |steps|
    ensures RefusedBetween(s, steps, restores, i, o, e + 1)
            <==> RefusedBetween(s, steps, restores, i, o, e)
                 || Refuses(Run(s, steps[..e], restores), steps[e], i, restores)
  {
  }

  lemma RunClaims(s: State, steps: seq<Step>, restores: Bytes -> bool, o: nat, i: Inode)
    requires Initial(s) && o < |steps| && ClaimsAt(s, steps, restores, o, i)
    ensures Stands(Run(s, steps[..o + 1], restores), i, false)
  {
    RunSnoc(s, steps, restores, o);
    RunKeepsInv(s, steps[..o], restores);
    ClaimStands(Run(s, steps[..o], restores), steps[o].pid, steps[o].name);
  }

  lemma RunStandsStep(s: State, steps: seq<Step>, restores: Bytes -> bool, m: nat, i: Inode, refused: bool)
    requires Initial(s) && m < |steps| && !ClaimsAt(s, steps, restores, m, i)
    requires Stands(Run(s, steps[..m], restores), i, refused)
    ensures Stands(Run(s, steps[..m + 1], restores), i,
                   refused || Refuses(Run(s, steps[..m], restores), steps[m], i, restores))
  {
    RunSnoc(s, steps, restores, m);
    RunKeepsInv(s, steps[..m], restores);
    StepStands(Run(s, steps[..m], restores), steps[m], i, refused, restores);
  }

  lemma {:induction false} RunStands(s: State, steps: seq<Step>, restores: Bytes -> bool, o: nat, e: nat, i: Inode)
    requires Initial(s) && o < e <= |steps| && ClaimsAt(s, steps, restores, o, i)
    requires forall m | o < m < |steps| :: !ClaimsAt(s, steps, restores, m, i)
    ensures Stands(Run(s, steps[..e], restores), i, RefusedBetween(s, steps, restores, i, o, e))
    decreases e
  {
    var last := e - 1;
    if last == o {
      RunClaims(s, steps, restores, o, i);
    } else {
      RunStands(s, steps, restores, o, last, i);
      RefusedGrows(s, steps, restores, i, o, last);
      RunStandsStep(s, steps, restores, last, i, RefusedBetween(s, steps, restores, i, o, last));
    }
  }

  /** In every run, with any number of other openers, publications and power losses: once the opener that
      was the last to claim a snapshot, at step `o`, is through with it, the session has been returned
      exactly when nothing was refused on the way; while it is at work neither has happened. */
  lemma ReturnedIff(s: State, steps: seq<Step>, restores: Bytes -> bool, o: nat, i: Inode)
    requires Initial(s) && o < |steps| && ClaimsAt(s, steps, restores, o, i)
    requires forall m | o < m < |steps| :: !ClaimsAt(s, steps, restores, m, i)
    ensures var end, refused := Run(s, steps, restores), RefusedBetween(s, steps, restores, i, o, |steps|);
            if Working(end, i) then i !in end.restored && !refused else i in end.restored <==> !refused
  {
    RunStands(s, steps, restores, o, |steps|, i);
    Whole(steps, 0);
  }

  // ---- nothing consumed is unaccounted for ----

  /** Some opener has unlinked the snapshot and is about to return it. */
  predicate InHand(s: State, i: Inode) {
    exists p :: p in s.openers && s.openers[p].Consumed? && s.openers[p].ino == i
  }

  /** The snapshots whose opener dies, or loses power, after the unlink and before it returns. */
  predicate DropsAt(s: State, step: Step, i: Inode) {
    match step
    case Die(p) => p in s.openers && s.openers[p] == Consumed(s.openers[p].name, i)
    case PowerLoss(keep, _) => |keep| == |s.fs.pending| && InHand(s, i)
    case _ => false
  }

  /** Snapshot `i` was dropped so in the run. */
  predicate Dropped(s: State, steps: seq<Step>, restores: Bytes -> bool, i: Inode) {
    steps != [] &&
    var before := steps[..|steps| - 1];
    Dropped(s, before, restores, i) || DropsAt(Run(s, before, restores), steps[|steps| - 1], i)
  }

  /** Exactly one of three, or none. */
  predicate AtMostOne(a: bool, b: bool, c: bool) {
    !(a && b) && !(a && c) && !(b && c)
  }

  predicate Accounted(s: State, i: Inode, dropped: bool) {
    && (i in s.consumed <==> i in s.restored || InHand(s, i) || dropped)
    && AtMostOne(i in s.restored, InHand(s, i), dropped)
  }

  lemma SameHands(s: State, after: State, q: Pid, i: Inode)
    requires forall p | p != q :: (p in after.openers <==> p in s.openers)
               && (p in s.openers ==> after.openers[p] == s.openers[p])
    requires q in s.openers ==> !s.openers[q].Consumed? || s.openers[q].ino != i
    requires q in after.openers ==> !after.openers[q].Consumed? || after.openers[q].ino != i
    ensures InHand(after, i) == InHand(s, i)
  {
    if p :| p in s.openers && s.openers[p].Consumed? && s.openers[p].ino == i {
      assert p in after.openers && after.openers[p] == s.openers[p];
    }
  }

  lemma UnlinkAccounts(s: State, p: Pid, ok: bool, i: Inode, dropped: bool)
    requires BooksOk(s) && Accounted(s, i, dropped)
    ensures Accounted(NextUnlink(s, p, ok), i, dropped)
  {
    var after := NextUnlink(s, p, ok);
    if p in s.openers && s.openers[p].Decoded? {
      assert OpenerOk(s, s.openers[p]);
      if ok && s.openers[p].ino == i {
        assert after.openers[p].Consumed? && after.openers[p].ino == i;
      } else {
        SameHands(s, after, p, i);
      }
    }
  }

  lemma FinishAccounts(s: State, p: Pid, synced: bool, i: Inode, dropped: bool)
    requires BooksOk(s) && Accounted(s, i, dropped)
    ensures Accounted(NextFinish(s, p, synced), i, dropped)
  {
    if p in s.openers && s.openers[p].Consumed? {
      var after := NextFinish(s, p, synced);
      assert after.openers == s.openers - {p} && after.restored == s.restored + [s.openers[p].ino];
      if s.openers[p].ino == i {
        assert InHand(s, i) && after.restored[|s.restored|] == i;
      } else {
        SameHands(s, after, p, i);
        assert i in after.restored <==> i in s.restored;
      }
    }
  }

  lemma DieAccounts(s: State, p: Pid, i: Inode, dropped: bool)
    requires BooksOk(s) && Accounted(s, i, dropped)
    ensures Accounted(Leave(s, p), i, dropped || DropsAt(s, Die(p), i))
  {
    if DropsAt(s, Die(p), i) {
      assert InHand(s, i);
    } else {
      SameHands(s, Leave(s, p), p, i);
    }
  }

  /** Steps that leave what is consumed, restored and in hand as it is. */
  lemma OthersAccount(s: State, step: Step, i: Inode, dropped: bool, restores: Bytes -> bool)
    requires BooksOk(s) && Accounted(s, i, dropped)
    requires !step.UnlinkClaim? && !step.Finish? && !step.Die? && !step.PowerLoss?
    ensures Accounted(Next(s, step, restores), i, dropped)
  {
    if step.Publish? || step.Sync? {
    } else if step.pid !in s.openers || !s.openers[step.pid].Consumed? {
      SameHands(s, Next(s, step, restores), step.pid, i);
    }
  }

  lemma StepAccounts(s: State, step: Step, i: Inode, dropped: bool, restores: Bytes -> bool)
    requires BooksOk(s) && Accounted(s, i, dropped)
    ensures Accounted(Next(s, step, restores), i, dropped || DropsAt(s, step, i))
  {
    match step
    case UnlinkClaim(p, ok) => UnlinkAccounts(s, p, ok, i, dropped);
    case Finish(p, synced) => FinishAccounts(s, p, synced, i, dropped);
    case Die(p) => DieAccounts(s, p, i, dropped);
    case PowerLoss(_, _) =>
    case _ => OthersAccount(s, step, i, dropped, restores);
  }

  /** Conservation: in every run each consumed snapshot has been returned, or its opener is about to return
      it, or that opener died or lost power at that point, and exactly one of these; no other snapshot is
      any of them. */
  lemma {:induction false} ConsumedIsAccounted(s: State, steps: seq<Step>, restores: Bytes -> bool, i: Inode)
    requires Initial(s)
    ensures var end, dropped := Run(s, steps, restores), Dropped(s, steps, restores, i);
            && (i in end.consumed <==> i in end.restored || InHand(end, i) || dropped)
            && AtMostOne(i in end.restored, InHand(end, i), dropped)
  {
    if steps != [] {
      var before := steps[..|steps| - 1];
      ConsumedIsAccounted(s, before, restores, i);
      RunKeepsInv(s, before, restores);
      StepAccounts(Run(s, before, restores), steps[|steps| - 1], i, Dropped(s, before, restores, i), restores);
    }
  }

  // ---- nothing refused ----

  lemma RunMore(s: State, steps: seq<Step>, step: Step, restores: Bytes -> bool)
    ensures Run(s, steps + [step], restores) == Next(Run(s, steps, restores), step, restores)
  {
    TakeSnoc(steps, step);
  }

  lemma RunTwo(s: State, steps: seq<Step>, first: Step, second: Step, restores: Bytes -> bool)
    ensures Run(s, steps + [first] + [second], restores)
            == Next(Next(Run(s, steps, restores), first, restores), second, restores)
  {
    RunMore(s, steps, first, restores);
    RunMore(s, steps + [first], second, restores);
  }

  /** Publishing a session, and one opener claiming, decoding, unlinking and returning it. */
  function Reopening(steps: seq<Step>, contents: Bytes, p: Pid, name: Name, synced: bool): seq<Step> {
    Consuming(Claiming(steps + [Publish(contents)] + [Open(p, name)], p), p, synced)
  }

  function Claiming(steps: seq<Step>, p: Pid): seq<Step> {
    steps + [SyncClaim(p, true)] + [Decode(p, true)]
  }

  function Consuming(steps: seq<Step>, p: Pid, synced: bool): seq<Step> {
    steps + [UnlinkClaim(p, true)] + [Finish(p, synced)]
  }

  /** From every reachable state: a session published with contents that decode is returned to the first
      opener that is refused nothing, whatever its last sync does; afterwards no name leads to it. */
  lemma PublishedIsReturned(s: State, steps: seq<Step>, restores: Bytes -> bool, contents: Bytes, p: Pid, name: Name,
      synced: bool)
    requires Initial(s) && restores(contents) && name != PUBLIC
    requires p !in Run(s, steps, restores).openers && name !in Run(s, steps, restores).fs.dir
    ensures var before, end := Run(s, steps, restores), Run(s, Reopening(steps, contents, p, name, synced), restores);
            var i := before.fs.next;
            && i !in before.fs.files && i in end.fs.files && end.fs.files[i].data == contents
            && end.restored == before.restored + [i] && end.openers == before.openers
            && PUBLIC !in end.fs.dir && Nameless(end.fs.dir, i)
  {
    RunKeepsInv(s, steps, restores);
    ReopeningRuns(s, steps, restores, contents, p, name, synced);
    ReturnsAlone(Run(s, steps, restores), restores, contents, p, name, synced);
  }

  function PublishedAndClaimed(s: State, contents: Bytes, p: Pid, name: Name): State {
    NextOpen(NextPublish(s, contents), p, name)
  }

  lemma ReopeningRuns(s: State, steps: seq<Step>, restores: Bytes -> bool, contents: Bytes, p: Pid, name: Name,
      synced: bool)
    ensures var claimed := PublishedAndClaimed(Run(s, steps, restores), contents, p, name);
            Run(s, Reopening(steps, contents, p, name, synced), restores)
            == NextFinish(NextUnlink(NextDecode(NextSyncClaim(claimed, p, true), p, true, restores), p, true), p,
                synced)
  {
    var public := steps + [Publish(contents)] + [Open(p, name)];
    RunTwo(s, steps, Publish(contents), Open(p, name), restores);
    RunTwo(s, public, SyncClaim(p, true), Decode(p, true), restores);
    RunTwo(s, Claiming(public, p), UnlinkClaim(p, true), Finish(p, synced), restores);
  }

  lemma ReturnsAlone(s: State, restores: Bytes -> bool, contents: Bytes, p: Pid, name: Name, synced: bool)
    requires Valid(s.fs) && restores(contents) && name != PUBLIC && p !in s.openers && name !in s.fs.dir
    ensures var claimed, i := PublishedAndClaimed(s, contents, p, name), s.fs.next;
            var read := NextDecode(NextSyncClaim(claimed, p, true), p, true, restores);
            var end := NextFinish(NextUnlink(read, p, true), p, synced);
            && i !in s.fs.files && i in end.fs.files && end.fs.files[i].data == contents
            && end.restored == s.restored + [i] && end.openers == s.openers
            && PUBLIC !in end.fs.dir && Nameless(end.fs.dir, i)
  {
    var claimed, i := PublishedAndClaimed(s, contents, p, name), s.fs.next;
    PublishAndOpen(s, contents, p, name);
    SyncAndDecode(claimed, p, name, i, restores);
    var read := NextDecode(NextSyncClaim(claimed, p, true), p, true, restores);
    UnlinkAndFinish(read, p, name, i, synced);
    OpenersBack(s.openers, p, name, i);
    NamesBack(s.fs, name, i);
  }

  lemma OpenersBack(openers: map<Pid, Phase>, p: Pid, name: Name, i: Inode)
    requires p !in openers
    ensures openers[p := Claimed(name, i)][p := Decoded(name, i)] - {p} == openers
  {
  }

  lemma NamesBack(fs: Fs, name: Name, i: Inode)
    requires Valid(fs) && i == fs.next && name !in fs.dir && name != PUBLIC
    ensures var dir := (fs.dir - {PUBLIC})[name := i] - {name}; PUBLIC !in dir && Nameless(dir, i)
  {
    forall n | n in fs.dir
      ensures fs.dir[n] != i
    {
      DirectoryKnown(fs, n);
    }
  }

  lemma PublishAndOpen(s: State, contents: Bytes, p: Pid, name: Name)
    requires Valid(s.fs) && name != PUBLIC && p !in s.openers && name !in s.fs.dir
    ensures var i, end := s.fs.next, NextOpen(NextPublish(s, contents), p, name);
            && i !in s.fs.files && i in end.fs.files && end.fs.files[i].data == contents
            && end.restored == s.restored && end.openers == s.openers[p := Claimed(name, i)]
            && end.fs.dir == (s.fs.dir - {PUBLIC})[name := i]
  {
    var published := NextPublish(s, contents);
    assert CanOpen(published, p, name) && published.fs.dir == s.fs.dir[PUBLIC := s.fs.next];
  }

  lemma SyncAndDecode(s: State, p: Pid, name: Name, i: Inode, restores: Bytes -> bool)
    requires p in s.openers && s.openers[p] == Claimed(name, i) && Lookup(s.fs.dir, name) == Some(i)
    requires i in s.fs.files && restores(s.fs.files[i].data)
    ensures var end := NextDecode(NextSyncClaim(s, p, true), p, true, restores);
            && end.restored == s.restored && end.openers == s.openers[p := Decoded(name, i)]
            && end.fs.dir == s.fs.dir && end.fs.files == s.fs.files
  {
  }

  lemma UnlinkAndFinish(s: State, p: Pid, name: Name, i: Inode, synced: bool)
    requires p in s.openers && s.openers[p] == Decoded(name, i)
    ensures var end := NextFinish(NextUnlink(s, p, true), p, synced);
            && end.restored == s.restored + [i] && end.openers == s.openers - {p}
            && end.fs.dir == s.fs.dir - {name} && end.fs.files == s.fs.files
  {
    assert s.openers[p := Consumed(name, i)] - {p} == s.openers - {p};
  }
}
