/** Whole runs of atomic writes to one destination, with power lost at any moment: which versions a
    reader can still find. */
module AtomicRuns {
  import opened Outcomes
  import opened CrashFs
  import opened AtomicFile

  /** What happens in the directory: a write ends with its verdict, the directory is synced (by a
      receipt or anybody else), something happens that leaves the destination alone, power is lost. */
  datatype Event = Write(contents: Bytes, verdict: Verdict) | DirectorySync | Elsewhere | PowerLoss

  ghost predicate Follows(before: Fs, e: Event, after: Fs, destination: Name) {
    match e
    case Write(contents, verdict) => Written(before, after, destination, contents, verdict)
    case DirectorySync => after == SyncDirectory(before)
    case Elsewhere => Untouched(before, after, destination)
    case PowerLoss => exists keep, torn | |keep| == |before.pending| :: after == Crash(before, keep, torn)
  }

  ghost predicate Run(states: seq<Fs>, events: seq<Event>, destination: Name) {
    && |states| == |events| + 1
    && (forall k | 0 <= k < |states| :: Valid(states[k]))
    && (forall k | 0 <= k < |events| :: Follows(states[k], events[k], states[k + 1], destination))
  }

  predicate Publishes(e: Event) {
    e.Write? && e.verdict != Unpublished
  }

  /** These are the contents some write in `events[first..end]` published. */
  ghost predicate Version(events: seq<Event>, first: nat, end: nat, c: Option<Bytes>)
    requires first <= end <= |events|
  {
    exists j | first <= j < end :: Publishes(events[j]) && c == Some(events[j].contents)
  }

  /** Every crash after the first `end` events leaves a version published from `first` on. */
  ghost predicate OnlyVersions(states: seq<Fs>, events: seq<Event>, destination: Name, first: nat, end: nat)
    requires |states| == |events| + 1 && first <= end <= |events|
  {
    forall c | MayHold(states[end], destination, c) :: Version(events, first, end, c)
  }

  /** What is visible now is a version published from `first` on, and its data is on disk. */
  ghost predicate ShowsVersion(states: seq<Fs>, events: seq<Event>, destination: Name, first: nat, end: nat)
    requires |states| == |events| + 1 && first <= end <= |events|
  {
    exists j | first <= j < end :: Publishes(events[j]) && Solid(states[end], destination, events[j].contents)
  }

  lemma CrashHoldings(fs: Fs, keep: seq<bool>, torn: map<Inode, Bytes>, destination: Name, c: Option<Bytes>)
    requires Valid(fs) && |keep| == |fs.pending|
    ensures var after := Crash(fs, keep, torn);
            && (MayHold(after, destination, c) <==> c == Read(after, destination))
            && (MayHold(after, destination, c) ==> MayHold(fs, destination, c))
  {
    var after := Crash(fs, keep, torn);
    CrashValid(fs, keep, torn);
    MayHoldMeaning(after, destination, c);
    forall b
      ensures MayBind(after, destination, b) <==> b == Lookup(after.dir, destination)
    {
      MayBindSettled(after, destination, b);
    }
    if destination in after.dir {
      DirectoryKnown(after, destination);
      assert after.files[after.dir[destination]].synced;
    }
    assert Plausible(after, Lookup(after.dir, destination), c) <==> c == Read(after, destination);
    if MayHold(after, destination, c) {
      assert Read(Crash(fs, keep, torn), destination) == c;
    }
  }

  lemma SyncHoldings(fs: Fs, destination: Name, contents: Bytes, c: Option<Bytes>)
    requires Solid(fs, destination, contents) && MayHold(SyncDirectory(fs), destination, c)
    ensures c == Some(contents)
  {
    SyncSettles(fs, destination, contents);
  }

  /** One more event that does not settle anything by itself: contents a crash may leave afterwards
      were possible before, or the event just published them, or they were visible when it synced. */
  lemma HoldingsAfter(before: Fs, e: Event, after: Fs, destination: Name, c: Option<Bytes>)
    requires Valid(before) && Valid(after) && Follows(before, e, after, destination) && MayHold(after, destination, c)
    ensures MayHold(before, destination, c) || (Publishes(e) && c == Some(e.contents))
  {
    match e
    case Write(contents, verdict) =>
    case DirectorySync =>
      MayHoldMeaning(after, destination, c);
      MayHoldMeaning(before, destination, c);
      var b :| MayBind(after, destination, b) && Plausible(after, b, c);
      MayBindSettled(after, destination, b);
      MayBindNow(before, destination);
      assert Plausible(before, b, c);
    case Elsewhere =>
      UntouchedHolds(before, after, destination, c);
    case PowerLoss =>
      var keep, torn :| |keep| == |before.pending| && after == Crash(before, keep, torn);
      CrashHoldings(before, keep, torn, destination, c);
  }

  lemma VersionGrows(events: seq<Event>, first: nat, end: nat, c: Option<Bytes>)
    requires first <= end < |events| && Version(events, first, end, c)
    ensures Version(events, first, end + 1, c)
  {
  }

  /** Once every crash leaves a version from `first` on, that stays so. */
  lemma {:induction false} VersionsLast(states: seq<Fs>, events: seq<Event>, destination: Name, first: nat, from: nat,
      end: nat)
    requires Run(states, events, destination) && first <= from <= end <= |events|
    requires OnlyVersions(states, events, destination, first, from)
    ensures OnlyVersions(states, events, destination, first, end)
    decreases end
  {
    if from < end {
      VersionsLast(states, events, destination, first, from, end - 1);
      forall c | MayHold(states[end], destination, c)
        ensures Version(events, first, end, c)
      {
        HoldingsAfter(states[end - 1], events[end - 1], states[end], destination, c);
        if MayHold(states[end - 1], destination, c) {
          VersionGrows(events, first, end - 1, c);
        }
      }
    }
  }

  /** A write reported durable is never undone: after it, whatever fails and however often power is
      lost, the destination comes back with its contents or with those of a later published write. */
  lemma DurableOutlastsCrashes(states: seq<Fs>, events: seq<Event>, destination: Name, k: nat, c: Option<Bytes>)
    requires Run(states, events, destination) && k < |events|
    requires events[k].Write? && events[k].verdict == Lasting
    requires MayHold(states[|events|], destination, c)
    ensures exists j | k <= j < |events| :: Publishes(events[j]) && c == Some(events[j].contents)
  {
    assert Written(states[k], states[k + 1], destination, events[k].contents, Lasting);
    var end, after := k + 1, states[k + 1];
    assert OnlyVersions(states, events, destination, k, end) by {
      forall d | MayHold(after, destination, d)
        ensures Version(events, k, end, d)
      {
        assert Publishes(events[k]) && d == Some(events[k].contents);
      }
    }
    VersionsLast(states, events, destination, k, k + 1, |events|);
  }

  lemma SolidStays(before: Fs, e: Event, after: Fs, destination: Name, contents: Bytes)
    requires Valid(before) && Follows(before, e, after, destination) && Solid(before, destination, contents)
    requires e != PowerLoss && !Publishes(e)
    ensures Solid(after, destination, contents)
  {
  }

  lemma PublishedIsSolid(before: Fs, e: Event, after: Fs, destination: Name)
    requires Follows(before, e, after, destination) && Publishes(e)
    ensures Solid(after, destination, e.contents)
  {
  }

  /** Until power is lost, what is visible after a published write is that write or a later one. */
  lemma {:induction false} VersionVisible(states: seq<Fs>, events: seq<Event>, destination: Name, p: nat, end: nat)
    requires Run(states, events, destination) && p < end <= |events| && Publishes(events[p])
    requires forall k | p < k < end :: events[k] != PowerLoss
    ensures ShowsVersion(states, events, destination, p, end)
    decreases end
  {
    var e := events[end - 1];
    assert Follows(states[end - 1], e, states[end], destination);
    if Publishes(e) {
      PublishedIsSolid(states[end - 1], e, states[end], destination);
    } else {
      VersionVisible(states, events, destination, p, end - 1);
      var j :| p <= j < end - 1 && Publishes(events[j]) && Solid(states[end - 1], destination, events[j].contents);
      SolidStays(states[end - 1], e, states[end], destination, events[j].contents);
    }
  }

  /** A pending write becomes durable with the first successful directory sync, provided power was not
      lost in between: from then on nothing published before it can come back. */
  lemma PendingBecomesDurable(states: seq<Fs>, events: seq<Event>, destination: Name, p: nat, k: nat, c: Option<Bytes>)
    requires Run(states, events, destination) && p < k < |events|
    requires Publishes(events[p]) && events[k] == DirectorySync
    requires forall m | p < m < k :: events[m] != PowerLoss
    requires MayHold(states[|events|], destination, c)
    ensures exists j | p <= j < |events| :: Publishes(events[j]) && c == Some(events[j].contents)
  {
    VersionVisible(states, events, destination, p, k);
    var j :| p <= j < k && Publishes(events[j]) && Solid(states[k], destination, events[j].contents);
    assert Follows(states[k], events[k], states[k + 1], destination);
    var end, after := k + 1, states[k + 1];
    assert OnlyVersions(states, events, destination, p, end) by {
      forall d | MayHold(after, destination, d)
        ensures Version(events, p, end, d)
      {
        SyncHoldings(states[k], destination, events[j].contents, d);
      }
    }
    VersionsLast(states, events, destination, p, k + 1, |events|);
  }
}
