/** What the command-history operations mean, on values: the record codec's laws, the records a
    reader sees, the lines a compaction keeps, and the bytes an append leaves. The imperative
    operations in HistoryFile are proved against these. */
module HistoryStore {
  import opened Outcomes
  import opened Sequences
  import opened HistoryLines

  const MAX_FILE_BYTES: nat := 32 * 1024 * 1024
  const MAX_RECORD_BYTES: nat := 1024 * 1024
  const READ_RECENT_TAIL_BYTES: nat := 4 * 1024 * 1024

  datatype Record = Record(command: string, cwd: Option<string>, exitCode: int, endTimeMs: Option<nat>)

  /** The serialisation library and the review-input validator, which are not part of this model:
      `encode`/`decode` stand for serde_json, `acceptable` for validate_record_fields, `trimEnd` for
      `str::trim_end` and `utf8` for the UTF-8 check inside `read_line`. */
  datatype Codec = Codec(
    encode: Record -> Bytes,
    decode: Bytes -> Option<Record>,
    acceptable: Record -> bool,
    trimEnd: Bytes -> Bytes,
    utf8: Bytes -> bool)
  {
    /** JSON facts used below: encoding then decoding is the identity, an encoding is one nonempty
        line, and no proper prefix of an encoding decodes; trimming white space from the end of a
        line leaves a prefix of it and does not change what it decodes to. */
    ghost predicate Lawful() {
      && (forall r: Record :: decode(encode(r)) == Some(r))
      && (forall r: Record :: NEWLINE !in encode(r) && encode(r) != [])
      && (forall r: Record, n: nat | n < |encode(r)| :: decode(encode(r)[..n]) == None)
      && (forall b: Bytes {:trigger trimEnd(b + [NEWLINE])} :: trimEnd(b + [NEWLINE]) <= b)
      && (forall b: Bytes {:trigger trimEnd(b + [NEWLINE])} | NEWLINE !in b && decode(b).Some? ::
         decode(trimEnd(b + [NEWLINE])) == decode(b))
    }

    /** The record a reader takes from the content of one line, if any; the limit counts the newline. */
    function ReadContent(content: Bytes): Option<Record> {
      if content == [] || |content| + 1 > MAX_RECORD_BYTES then None
      else match decode(content)
        case None => None
        case Some(r) => if acceptable(r) then Some(r) else None
    }

    /** The same for a terminated line. */
    function Readable(l: Bytes): Option<Record> {
      ReadContent(if l == [] then [] else l[..|l| - 1])
    }

    /** Whether a terminated line holds a record at all, however long it is. */
    predicate HoldsRecord(l: Bytes) {
      match decode(trimEnd(l))
      case None => false
      case Some(r) => acceptable(r)
    }

    /** Whether compaction keeps one terminated line. */
    predicate Keepable(l: Bytes) {
      |l| <= MAX_RECORD_BYTES && HoldsRecord(l)
    }

    /** encode_record: the physical line of a record, or the reason there is none. */
    function EncodeRecord(r: Record): (result: Result<Bytes, EncodeError>)
    {
      if !acceptable(r) then Err(InvalidInput)
      else if |encode(r)| + 1 > MAX_RECORD_BYTES then Err(InvalidData)
      else Ok(encode(r) + [NEWLINE])
    }
  }

  datatype EncodeError = InvalidInput | InvalidData

  // ---------------------------------------------------------------- what a reader sees

  /** Records newest first, one per command, over terminated lines in file order; commands in
      `seen` are already taken. */
  function NewestAfter(c: Codec, ls: seq<Bytes>, seen: set<string>): seq<Record>
  {
    if ls == [] then []
    else
      var rest := ls[..|ls| - 1];
      match c.Readable(ls[|ls| - 1])
      case None => NewestAfter(c, rest, seen)
      case Some(r) =>
        if r.command in seen then NewestAfter(c, rest, seen)
        else [r] + NewestAfter(c, rest, seen + {r.command})
  }

  function Newest(c: Codec, ls: seq<Bytes>): seq<Record>
  {
    NewestAfter(c, ls, {})
  }

  /** `r` is what line `i` reads as, and no later line reads as the same command. */
  ghost predicate LatestAt(c: Codec, ls: seq<Bytes>, i: nat, r: Record)
    requires i < |ls|
  {
    c.Readable(ls[i]) == Some(r)
    && forall j | i < j < |ls| :: c.Readable(ls[j]).Some? ==> c.Readable(ls[j]).value.command != r.command
  }

  /** Some line is the latest to read as `r`. */
  ghost predicate Latest(c: Codec, ls: seq<Bytes>, r: Record) {
    exists i: nat | i < |ls| :: LatestAt(c, ls, i, r)
  }

  /** One more line is the latest itself, hides its command, or leaves things as they were. */
  lemma LatestSnoc(c: Codec, rest: seq<Bytes>, l: Bytes, r: Record)
    ensures var read := c.Readable(l);
            Latest(c, rest + [l], r)
            <==> read == Some(r) || (Latest(c, rest, r) && !(read.Some? && read.value.command == r.command))
  {
    var ls, last := rest + [l], |rest|;
    if Latest(c, ls, r) {
      var i: nat :| i < |ls| && LatestAt(c, ls, i, r);
      if i < last {
        assert LatestAt(c, rest, i, r) by {
          assert forall j | 0 <= j < last :: rest[j] == ls[j];
        }
        assert ls[last] == l;
      }
    }
    if c.Readable(l) == Some(r) {
      assert LatestAt(c, ls, last, r);
    } else if Latest(c, rest, r) && !(c.Readable(l).Some? && c.Readable(l).value.command == r.command) {
      var i: nat :| i < last && LatestAt(c, rest, i, r);
      assert LatestAt(c, ls, i, r);
    }
  }

  /** The meaning of newest-first deduplication, both ways: a record is reported exactly when some
      line reads as it and no later line reads as the same command, and no command is reported twice. */
  lemma {:induction false} NewestMeaning(c: Codec, ls: seq<Bytes>, seen: set<string>, r: Record)
    ensures r in NewestAfter(c, ls, seen) <==> r.command !in seen && exists i: nat | i < |ls| :: LatestAt(c, ls, i, r)
  {
    if ls != [] {
      var rest, l := ls[..|ls| - 1], ls[|ls| - 1];
      assert ls == rest + [l];
      LatestSnoc(c, rest, l, r);
      var read := c.Readable(l);
      if read.Some? && read.value.command !in seen {
        NewestMeaning(c, rest, seen + {read.value.command}, r);
      } else {
        NewestMeaning(c, rest, seen, r);
      }
      assert Latest(c, ls, r) <==> exists i: nat | i < |ls| :: LatestAt(c, ls, i, r);
    }
  }

  /** Line `i` holds `r`, within the limit on records and fit for review. */
  ghost predicate StoredAt(c: Codec, ls: seq<Bytes>, i: nat, r: Record)
    requires i < |ls|
  {
    1 < |ls[i]| <= MAX_RECORD_BYTES && c.decode(ls[i][..|ls[i]| - 1]) == Some(r) && c.acceptable(r)
  }

  /** Line `i` holds `r`, and no later line holds a record of the same command. */
  ghost predicate StoredLatestAt(c: Codec, ls: seq<Bytes>, i: nat, r: Record)
    requires i < |ls|
  {
    StoredAt(c, ls, i, r) && forall j, other | i < j < |ls| && StoredAt(c, ls, j, other) :: other.command != r.command
  }

  ghost predicate StoredLatest(c: Codec, ls: seq<Bytes>, r: Record) {
    exists i: nat | i < |ls| :: StoredLatestAt(c, ls, i, r)
  }

  lemma StoredIsLatest(c: Codec, ls: seq<Bytes>, i: nat, r: Record)
    requires i < |ls|
    ensures LatestAt(c, ls, i, r) <==> StoredLatestAt(c, ls, i, r)
  {
    forall j, other | i <= j < |ls|
      ensures StoredAt(c, ls, j, other) <==> c.Readable(ls[j]) == Some(other)
    {
    }
    if StoredLatestAt(c, ls, i, r) {
      forall j | i < j < |ls| && c.Readable(ls[j]).Some?
        ensures c.Readable(ls[j]).value.command != r.command
      {
        assert StoredAt(c, ls, j, c.Readable(ls[j]).value);
      }
    }
  }

  lemma {:induction false} NewestLength(c: Codec, ls: seq<Bytes>, seen: set<string>)
    ensures |NewestAfter(c, ls, seen)| <= |ls|
  {
    if ls != [] {
      var read := c.Readable(ls[|ls| - 1]);
      NewestLength(c, ls[..|ls| - 1], seen);
      if read.Some? {
        NewestLength(c, ls[..|ls| - 1], seen + {read.value.command});
      }
    }
  }

  lemma NewestIsStored(c: Codec, ls: seq<Bytes>, r: Record)
    ensures r in Newest(c, ls) <==> StoredLatest(c, ls, r)
  {
    NewestMeaning(c, ls, {}, r);
    forall i: nat | i < |ls|
      ensures LatestAt(c, ls, i, r) <==> StoredLatestAt(c, ls, i, r)
    {
      StoredIsLatest(c, ls, i, r);
    }
  }

  predicate DistinctCommands(rs: seq<Record>) {
    forall i, j | 0 <= i < j < |rs| :: rs[i].command != rs[j].command
  }

  lemma {:induction false} NewestDistinct(c: Codec, ls: seq<Bytes>, seen: set<string>)
    ensures DistinctCommands(NewestAfter(c, ls, seen))
  {
    if ls != [] {
      var rest := ls[..|ls| - 1];
      var read := c.Readable(ls[|ls| - 1]);
      if read.Some? && read.value.command !in seen {
        var seen' := seen + {read.value.command};
        NewestDistinct(c, rest, seen');
        var tail := NewestAfter(c, rest, seen');
        forall j | 0 <= j < |tail| ensures tail[j].command != read.value.command {
          NewestMeaning(c, rest, seen', tail[j]);
        }
      } else {
        NewestDistinct(c, rest, seen);
      }
    }
  }

  /** The latest line of the first record lies after that of the second. */
  ghost predicate LaterThan(c: Codec, ls: seq<Bytes>, r: Record, other: Record) {
    exists a: nat, b: nat | b < a < |ls| :: LatestAt(c, ls, a, r) && LatestAt(c, ls, b, other)
  }

  lemma LaterStays(c: Codec, rest: seq<Bytes>, l: Bytes, r: Record, other: Record)
    requires LaterThan(c, rest, r, other)
    requires var read := c.Readable(l);
             read.Some? ==> read.value.command != r.command && read.value.command != other.command
    ensures LaterThan(c, rest + [l], r, other)
  {
    var a: nat, b: nat :| b < a < |rest| && LatestAt(c, rest, a, r) && LatestAt(c, rest, b, other);
    LatestLonger(c, rest, l, a, r);
    LatestLonger(c, rest, l, b, other);
  }

  lemma LatestLonger(c: Codec, rest: seq<Bytes>, l: Bytes, i: nat, r: Record)
    requires i < |rest| && LatestAt(c, rest, i, r)
    requires var read := c.Readable(l); read.Some? ==> read.value.command != r.command
    ensures LatestAt(c, rest + [l], i, r)
  {
    assert forall j | 0 <= j < |rest| :: (rest + [l])[j] == rest[j];
  }

  /** Newest first: an earlier place in the result means a later line in the file. */
  lemma {:induction false} NewestOrdered(c: Codec, ls: seq<Bytes>, seen: set<string>, i: nat, j: nat)
    requires i < j < |NewestAfter(c, ls, seen)|
    ensures LaterThan(c, ls, NewestAfter(c, ls, seen)[i], NewestAfter(c, ls, seen)[j])
    decreases |ls|, 0
  {
    var rest, l := ls[..|ls| - 1], ls[|ls| - 1];
    var read := c.Readable(l);
    SplitLast(ls);
    if read.Some? && read.value.command !in seen {
      OrderedBelow(c, rest, l, seen, i, j);
    } else {
      var rs := NewestAfter(c, rest, seen);
      NewestOrdered(c, rest, seen, i, j);
      NewestMeaning(c, rest, seen, rs[i]);
      NewestMeaning(c, rest, seen, rs[j]);
      LaterStays(c, rest, l, rs[i], rs[j]);
    }
  }

  /** The same below a line that is reported itself. */
  lemma {:induction false} OrderedBelow(c: Codec, rest: seq<Bytes>, l: Bytes, seen: set<string>, i: nat, j: nat)
    requires c.Readable(l).Some? && c.Readable(l).value.command !in seen
    requires i < j < |NewestAfter(c, rest, seen + {c.Readable(l).value.command})| + 1
    ensures var r, below := c.Readable(l).value, NewestAfter(c, rest, seen + {c.Readable(l).value.command});
            LaterThan(c, rest + [l], ([r] + below)[i], ([r] + below)[j])
    decreases |rest|, 1
  {
    var r := c.Readable(l).value;
    var seen' := seen + {r.command};
    var below := NewestAfter(c, rest, seen');
    NewestMeaning(c, rest, seen', below[j - 1]);
    if i == 0 {
      var b: nat :| b < |rest| && LatestAt(c, rest, b, below[j - 1]);
      LatestLonger(c, rest, l, b, below[j - 1]);
      assert LatestAt(c, rest + [l], |rest|, r);
    } else {
      NewestOrdered(c, rest, seen', i - 1, j - 1);
      NewestMeaning(c, rest, seen', below[i - 1]);
      LaterStays(c, rest, l, below[i - 1], below[j - 1]);
    }
  }

  /** Dropping the oldest lines drops only the oldest records. */
  lemma {:induction false} NewestOfSuffix(c: Codec, older: seq<Bytes>, ls: seq<Bytes>, seen: set<string>)
    ensures NewestAfter(c, ls, seen) <= NewestAfter(c, older + ls, seen)
    decreases |ls|
  {
    if ls != [] {
      var rest := ls[..|ls| - 1];
      assert (older + ls)[..|older + ls| - 1] == older + rest;
      forall s: set<string> ensures NewestAfter(c, rest, s) <= NewestAfter(c, older + rest, s) {
        NewestOfSuffix(c, older, rest, s);
      }
    }
  }

  // ---------------------------------------------------------------- compaction

  function Kept(c: Codec, ls: seq<Bytes>): (ks: seq<Bytes>)
    ensures forall l | l in ks :: l in ls && c.Keepable(l)
  {
    if ls == [] then []
    else
      var rest := Kept(c, ls[..|ls| - 1]);
      if c.Keepable(ls[|ls| - 1]) then rest + [ls[|ls| - 1]] else rest
  }

  /** What compaction keeps of a file, before any eviction: every line of at most 1 MiB that holds a record
      fit for review, as often as it stands there, and no other. */
  lemma {:induction false} KeptMeaning(c: Codec, ls: seq<Bytes>, l: Bytes)
    ensures multiset(Kept(c, ls))[l] ==
            if |l| <= MAX_RECORD_BYTES && exists r :: c.decode(c.trimEnd(l)) == Some(r) && c.acceptable(r)
            then multiset(ls)[l] else 0
  {
    if ls != [] {
      var front, last := ls[..|ls| - 1], ls[|ls| - 1];
      KeptMeaning(c, front, l);
      SplitLast(ls);
      assert c.Keepable(last) <==>
             |last| <= MAX_RECORD_BYTES && exists r :: c.decode(c.trimEnd(last)) == Some(r) && c.acceptable(r);
    }
  }

  predicate Fits(ls: seq<Bytes>, maxEntries: nat, maxBytes: nat) {
    |ls| <= maxEntries && TotalBytes(ls) <= maxBytes
  }

  /** Evict from the front until both limits hold. */
  function Evict(ls: seq<Bytes>, maxEntries: nat, maxBytes: nat): (r: seq<Bytes>)
    ensures Fits(r, maxEntries, maxBytes)
    ensures |r| <= |ls|
  {
    if Fits(ls, maxEntries, maxBytes) then ls else Evict(ls[1..], maxEntries, maxBytes)
  }

  function CompactedLines(c: Codec, ls: seq<Bytes>, maxEntries: nat, maxBytes: nat): seq<Bytes> {
    Evict(Kept(c, ls), maxEntries, maxBytes)
  }

  /** The file contents a successful compaction leaves. */
  function Compacted(c: Codec, s: Bytes, maxEntries: nat, maxBytes: nat): Bytes {
    Concat(CompactedLines(c, Lines(s), maxEntries, maxBytes))
  }

  /** `read_line` sees at most 1 MiB + 1 bytes of each physical line, and those must be UTF-8. */
  predicate Decodable(c: Codec, l: Bytes) {
    c.utf8(if |l| <= MAX_RECORD_BYTES + 1 then l else l[..MAX_RECORD_BYTES + 1])
  }

  ghost predicate Scannable(c: Codec, s: Bytes) {
    (forall l | l in Lines(s) :: Decodable(c, l)) && (Tail(s) != [] ==> Decodable(c, Tail(s)))
  }

  /** While a limit is exceeded there is a first line to drop. */
  lemma EvictStep(ls: seq<Bytes>, maxEntries: nat, maxBytes: nat) returns (rest: seq<Bytes>)
    requires |Evict(ls, maxEntries, maxBytes)| < |ls| || !Fits(ls, maxEntries, maxBytes)
    ensures ls != [] && rest == ls[1..] && !Fits(ls, maxEntries, maxBytes)
    ensures Evict(ls, maxEntries, maxBytes) == Evict(rest, maxEntries, maxBytes)
    ensures TotalBytes(ls) == |ls[0]| + TotalBytes(rest)
  {
    rest := ls[1..];
  }

  lemma {:induction false} EvictIsSuffix(ls: seq<Bytes>, maxEntries: nat, maxBytes: nat)
    ensures var r := Evict(ls, maxEntries, maxBytes); r == ls[|ls| - |r|..]
  {
    if !Fits(ls, maxEntries, maxBytes) {
      var rest := EvictStep(ls, maxEntries, maxBytes);
      EvictIsSuffix(rest, maxEntries, maxBytes);
      DropDrop(ls, 1, |rest| - |Evict(rest, maxEntries, maxBytes)|);
    }
  }

  /** Eviction keeps the longest suffix that fits: every longer one breaks a limit. */
  lemma {:induction false} EvictIsLongest(ls: seq<Bytes>, maxEntries: nat, maxBytes: nat, k: nat)
    requires k < |ls| - |Evict(ls, maxEntries, maxBytes)|
    ensures !Fits(ls[k..], maxEntries, maxBytes)
  {
    var rest := EvictStep(ls, maxEntries, maxBytes);
    if k == 0 {
      DropZero(ls);
    } else {
      EvictIsLongest(rest, maxEntries, maxBytes, k - 1);
      DropDrop(ls, 1, k - 1);
    }
  }

  /** Evicting as lines arrive, one at a time, is evicting once at the end. */
  lemma {:induction false} EvictIncremental(ls: seq<Bytes>, l: Bytes, maxEntries: nat, maxBytes: nat)
    ensures Evict(Evict(ls, maxEntries, maxBytes) + [l], maxEntries, maxBytes) == Evict(ls + [l], maxEntries, maxBytes)
  {
    if !Fits(ls, maxEntries, maxBytes) {
      TotalBytesSnoc(ls, l);
      var rest := EvictStep(ls, maxEntries, maxBytes);
      var more := EvictStep(ls + [l], maxEntries, maxBytes);
      assert more == rest + [l];
      EvictIncremental(rest, l, maxEntries, maxBytes);
    }
  }

  lemma {:induction false} KeptIdempotent(c: Codec, ls: seq<Bytes>)
    requires forall l | l in ls :: c.Keepable(l)
    ensures Kept(c, ls) == ls
  {
    if ls != [] {
      KeptIdempotent(c, ls[..|ls| - 1]);
    }
  }

  /** Re-reading a compacted file finds exactly the lines that were kept, within the byte budget. */
  lemma CompactedContents(c: Codec, s: Bytes, maxEntries: nat, maxBytes: nat)
    ensures Lines(Compacted(c, s, maxEntries, maxBytes)) == CompactedLines(c, Lines(s), maxEntries, maxBytes)
    ensures Closed(Compacted(c, s, maxEntries, maxBytes))
    ensures |Compacted(c, s, maxEntries, maxBytes)| <= maxBytes
  {
    var ls := CompactedLines(c, Lines(s), maxEntries, maxBytes);
    LinesFromAreLines([], s);
    EvictIsSuffix(Kept(c, Lines(s)), maxEntries, maxBytes);
    LinesOfConcat(ls);
    ConcatClosed(ls);
    ConcatLength(ls);
  }

  /** A second compaction with the same limits changes nothing. */
  lemma CompactionFixedPoint(c: Codec, s: Bytes, maxEntries: nat, maxBytes: nat)
    ensures var once := Compacted(c, s, maxEntries, maxBytes);
            Compacted(c, once, maxEntries, maxBytes) == once
  {
    CompactedContents(c, s, maxEntries, maxBytes);
    EvictIsSuffix(Kept(c, Lines(s)), maxEntries, maxBytes);
    KeptIdempotent(c, CompactedLines(c, Lines(s), maxEntries, maxBytes));
  }

  /** Every line a reader understands is one that compaction would keep. */
  lemma ReadableIsKeepable(c: Codec, l: Bytes)
    requires c.Lawful() && IsLine(l)
    ensures c.Readable(l).Some? ==> c.Keepable(l)
  {
    var content := l[..|l| - 1];
    assert l == content + [NEWLINE];
    if c.Readable(l).Some? {
      assert c.decode(c.trimEnd(content + [NEWLINE])) == c.decode(content);
    }
  }

  lemma {:induction false} NewestIgnoresDropped(c: Codec, ls: seq<Bytes>, seen: set<string>)
    requires c.Lawful()
    requires forall l | l in ls :: IsLine(l)
    ensures NewestAfter(c, Kept(c, ls), seen) == NewestAfter(c, ls, seen)
  {
    if ls != [] {
      var last := ls[|ls| - 1];
      var rest := ls[..|ls| - 1];
      ReadableIsKeepable(c, last);
      forall s: set<string> ensures NewestAfter(c, Kept(c, rest), s) == NewestAfter(c, rest, s) {
        NewestIgnoresDropped(c, rest, s);
      }
      var ks := Kept(c, ls);
      if c.Keepable(last) {
        assert ks == Kept(c, rest) + [last] && ks[..|ks| - 1] == Kept(c, rest);
      }
    }
  }

  lemma EvictedNewest(c: Codec, ls: seq<Bytes>, maxEntries: nat, maxBytes: nat)
    ensures Newest(c, Evict(ls, maxEntries, maxBytes)) <= Newest(c, ls)
  {
    var held := Evict(ls, maxEntries, maxBytes);
    var older := ls[..|ls| - |held|];
    EvictIsSuffix(ls, maxEntries, maxBytes);
    assert ls == older + held;
    NewestOfSuffix(c, older, held, {});
  }

  /** Compaction never invents, reorders or hides a newer record: what a full read sees afterwards
      is the newest part of what it saw before. */
  lemma CompactionKeepsNewest(c: Codec, s: Bytes, maxEntries: nat, maxBytes: nat)
    requires c.Lawful()
    ensures Newest(c, Lines(Compacted(c, s, maxEntries, maxBytes))) <= Newest(c, Lines(s))
  {
    CompactedContents(c, s, maxEntries, maxBytes);
    LinesFromAreLines([], s);
    NewestIgnoresDropped(c, Lines(s), {});
    EvictedNewest(c, Kept(c, Lines(s)), maxEntries, maxBytes);
  }

  // ---------------------------------------------------------------- the bounded tail read

  /** The whole lines inside the last 4 MiB of a file whose length was read as `fileLen`; the file
      may have grown or shrunk since. */
  function Window(data: Bytes, fileLen: nat): Bytes {
    var start := if fileLen > READ_RECENT_TAIL_BYTES then fileLen - READ_RECENT_TAIL_BYTES else 0;
    var end := if fileLen < |data| then fileLen else |data|;
    var raw := if start < end then data[start..end] else [];
    if start == 0 || (start - 1 < |data| && data[start - 1] == NEWLINE) then raw
    else raw[LineEnd(raw)..]
  }

  function Snapshot(data: Bytes, fileLen: nat): Bytes {
    if fileLen < |data| then data[..fileLen] else data
  }

  /** What read_recent_from returns. */
  function ReadRecent(c: Codec, data: Bytes, fileLen: nat, maxEntries: nat): seq<Record> {
    Take(Newest(c, Lines(Window(data, fileLen))), maxEntries)
  }

  /** Where the window starts, as an offset into the file as it was measured. */
  function WindowStart(data: Bytes, fileLen: nat): (k: nat)
    ensures k <= |Snapshot(data, fileLen)|
  {
    var snap := Snapshot(data, fileLen);
    var start := if fileLen > READ_RECENT_TAIL_BYTES then fileLen - READ_RECENT_TAIL_BYTES else 0;
    if start >= |snap| then |snap|
    else if start == 0 || data[start - 1] == NEWLINE then start
    else start + LineEnd(snap[start..])
  }

  lemma WindowIsSuffix(data: Bytes, fileLen: nat)
    ensures Window(data, fileLen) == Snapshot(data, fileLen)[WindowStart(data, fileLen)..]
  {
    var snap := Snapshot(data, fileLen);
    var start := if fileLen > READ_RECENT_TAIL_BYTES then fileLen - READ_RECENT_TAIL_BYTES else 0;
    if start < |snap| {
      assert data[start..|snap|] == snap[start..];
    }
  }

  /** The lines in the window are the last lines of the file. */
  lemma WindowLines(data: Bytes, fileLen: nat)
    ensures var k := WindowStart(data, fileLen); var snap := Snapshot(data, fileLen);
            Lines(Window(data, fileLen)) == [] || Lines(snap) == Lines(snap[..k]) + Lines(Window(data, fileLen))
    ensures fileLen <= READ_RECENT_TAIL_BYTES ==> Window(data, fileLen) == Snapshot(data, fileLen)
  {
    var snap := Snapshot(data, fileLen);
    var k := WindowStart(data, fileLen);
    WindowIsSuffix(data, fileLen);
    if k < |snap| && fileLen > READ_RECENT_TAIL_BYTES {
      WindowStartsLine(data, fileLen);
      LinesCut(snap, k);
    }
  }

  lemma WindowStartsLine(data: Bytes, fileLen: nat)
    requires 0 < WindowStart(data, fileLen) < |Snapshot(data, fileLen)|
    ensures Snapshot(data, fileLen)[WindowStart(data, fileLen) - 1] == NEWLINE
  {
    var snap := Snapshot(data, fileLen);
    var start := if fileLen > READ_RECENT_TAIL_BYTES then fileLen - READ_RECENT_TAIL_BYTES else 0;
    if data[start - 1] != NEWLINE {
      var raw := snap[start..];
      LineEndMeaning(raw);
      assert raw[LineEnd(raw) - 1] == snap[start + LineEnd(raw) - 1];
    }
  }

  /** The bounded read refines the full one: it is a prefix of the full newest-first list, and when
      the file fits the window it is that list cut to the limit. */
  lemma TailReadRefinesFullRead(c: Codec, data: Bytes, fileLen: nat, maxEntries: nat)
    ensures var full := Newest(c, Lines(Snapshot(data, fileLen)));
            ReadRecent(c, data, fileLen, maxEntries) <= Take(full, maxEntries)
            && (fileLen <= READ_RECENT_TAIL_BYTES ==>
               ReadRecent(c, data, fileLen, maxEntries) == Take(full, maxEntries))
  {
    WindowLines(data, fileLen);
    var w := Lines(Window(data, fileLen));
    if w != [] {
      NewestOfSuffix(c, Lines(Snapshot(data, fileLen)[..WindowStart(data, fileLen)]), w, {});
    }
  }

  /** Whatever the file and the limit, a record is reported only if it is fit for review and a line of the
      file of at most 1 MiB holds it. */
  lemma ReadRecentHolds(c: Codec, data: Bytes, fileLen: nat, maxEntries: nat, r: Record)
    requires r in ReadRecent(c, data, fileLen, maxEntries)
    ensures c.acceptable(r)
    ensures exists l | l in Lines(Snapshot(data, fileLen)) ::
              1 < |l| <= MAX_RECORD_BYTES && c.decode(l[..|l| - 1]) == Some(r)
  {
    var ls := Lines(Snapshot(data, fileLen));
    TailReadRefinesFullRead(c, data, fileLen, maxEntries);
    assert r in Take(Newest(c, ls), maxEntries);
    NewestIsStored(c, ls, r);
    var i: nat :| i < |ls| && StoredAt(c, ls, i, r);
    assert ls[i] in ls;
  }

  /** A file within the window, read with a limit that leaves room for every line: the records reported are
      those that some line holds while no later line holds one of the same command. */
  lemma ReadRecentFindsAll(c: Codec, data: Bytes, maxEntries: nat, r: Record)
    requires |data| <= READ_RECENT_TAIL_BYTES && |Lines(data)| <= maxEntries
    ensures r in ReadRecent(c, data, |data|, maxEntries) <==> StoredLatest(c, Lines(data), r)
  {
    TailReadRefinesFullRead(c, data, |data|, maxEntries);
    NewestLength(c, Lines(data), {});
    NewestIsStored(c, Lines(data), r);
  }

  // ---------------------------------------------------------------- append

  /** The bytes one append writes: a separating newline when the file ends in a crash fragment,
      then the encoded line. */
  function Payload(s: Bytes, line: Bytes): Bytes {
    if Closed(s) then line else [NEWLINE] + line
  }

  function Appended(s: Bytes, line: Bytes): Bytes {
    s + Payload(s, line)
  }

  /** An append adds its own line last; a crash fragment before it becomes a line of its own. */
  lemma AppendedLines(s: Bytes, line: Bytes)
    requires IsLine(line)
    ensures Lines(Appended(s, line)) == (if Closed(s) then Lines(s) else Lines(s) + [Tail(s) + [NEWLINE]]) + [line]
  {
    if Closed(s) {
      LinesOfOne(line);
      LinesAppend(s, line);
    } else {
      LinesAfterFragment(s, line);
    }
  }

  lemma AppendedClosed(s: Bytes, line: Bytes)
    requires IsLine(line)
    ensures Closed(Appended(s, line))
  {
    var after := Appended(s, line);
    assert after[|after| - 1] == line[|line| - 1];
  }

  lemma EncodedIsLine(c: Codec, r: Record)
    requires c.Lawful() && c.EncodeRecord(r).Ok?
    ensures var line := c.EncodeRecord(r).value;
            IsLine(line) && |line| <= MAX_RECORD_BYTES && c.Readable(line) == Some(r) && c.Keepable(line)
  {
    var line := c.EncodeRecord(r).value;
    assert line[..|line| - 1] == c.encode(r);
    ReadableIsKeepable(c, line);
  }

  /** A file that ends in an acknowledged record shows that record first, whatever came before and
      however large the file is. */
  lemma LastLineReadsFirst(c: Codec, data: Bytes, r: Record, maxEntries: nat)
    requires c.Lawful() && c.EncodeRecord(r).Ok? && maxEntries >= 1
    requires Closed(data) && Lines(data) != [] && Lines(data)[|Lines(data)| - 1] == c.EncodeRecord(r).value
    ensures var rs := ReadRecent(c, data, |data|, maxEntries); rs != [] && rs[0] == r
  {
    EncodedIsLine(c, r);
    WindowHoldsLast(data);
    WindowEndsWithLast(data);
    LastIsNewest(c, Lines(Window(data, |data|)), r);
  }

  lemma WindowEndsWithLast(data: Bytes)
    requires Lines(Window(data, |data|)) != [] && Lines(data) != []
    ensures var w, ls := Lines(Window(data, |data|)), Lines(data);
            w[|w| - 1] == ls[|ls| - 1]
  {
    WindowLines(data, |data|);
    var older, newer := Lines(Snapshot(data, |data|)[..WindowStart(data, |data|)]), Lines(Window(data, |data|));
    LastOfBoth(older, newer);
  }

  lemma LastOfBoth<T>(older: seq<T>, newer: seq<T>)
    requires newer != []
    ensures older + newer != [] && (older + newer)[|older + newer| - 1] == newer[|newer| - 1]
  {
  }

  lemma LastIsNewest(c: Codec, ls: seq<Bytes>, r: Record)
    requires ls != [] && c.Readable(ls[|ls| - 1]) == Some(r)
    ensures Newest(c, ls) != [] && Newest(c, ls)[0] == r
  {
  }

  lemma LastLineSplit(data: Bytes) returns (front: Bytes)
    requires Closed(data) && Lines(data) != []
    ensures data == front + Lines(data)[|Lines(data)| - 1] && Closed(front)
    ensures IsLine(Lines(data)[|Lines(data)| - 1])
  {
    var ls := Lines(data);
    LinesRebuild(data);
    LinesFromAreLines([], data);
    TailFromClosed([], data);
    ConcatLast(ls);
    front := Concat(ls[..|ls| - 1]);
    ConcatClosed(ls[..|ls| - 1]);
  }

  /** The 4 MiB window is longer than any record, so it always holds the last whole line. */
  lemma WindowHoldsLast(data: Bytes)
    requires Closed(data) && Lines(data) != [] && |Lines(data)[|Lines(data)| - 1]| <= MAX_RECORD_BYTES
    ensures Lines(Window(data, |data|)) != []
  {
    var front := LastLineSplit(data);
    assert front != [] ==> data[|front| - 1] == front[|front| - 1];
    WindowStartBefore(data, |front|);
    WindowIsSuffix(data, |data|);
    ClosedHasLine(data, WindowStart(data, |data|));
  }

  lemma ClosedHasLine(data: Bytes, k: nat)
    requires Closed(data) && k < |data|
    ensures Lines(data[k..]) != []
  {
    var rest := data[k..];
    assert rest[|rest| - 1] == NEWLINE;
    LinesHead(rest);
  }

  lemma WindowStartBefore(data: Bytes, k: nat)
    requires k < |data| && |data| - k <= READ_RECENT_TAIL_BYTES && (k == 0 || data[k - 1] == NEWLINE)
    ensures WindowStart(data, |data|) <= k
  {
    var start := |data| - READ_RECENT_TAIL_BYTES;
    if start > 0 && data[start - 1] != NEWLINE {
      assert Snapshot(data, |data|) == data;
      var raw := data[start..];
      assert raw[k - 1 - start] == NEWLINE;
      LineEndMeaning(raw);
    }
  }

  /** A physical line begins here. */
  predicate LineStart(data: Bytes, k: nat)
    requires k <= |data|
  {
    k == 0 || data[k - 1] == NEWLINE
  }

  /** What a read of a file of this length looks at: it begins with the first line that begins within the
      last 4 MiB, and is empty when none does. */
  lemma WindowIsTail(data: Bytes)
    ensures var k := WindowStart(data, |data|);
            && k <= |data| && Window(data, |data|) == data[k..] && |data| - k <= READ_RECENT_TAIL_BYTES
            && (k == |data| || LineStart(data, k))
            && forall j | 0 <= j < k && LineStart(data, j) :: |data| - j > READ_RECENT_TAIL_BYTES
  {
    WindowIsSuffix(data, |data|);
    assert Snapshot(data, |data|) == data;
    var k := WindowStart(data, |data|);
    if 0 < k < |data| {
      WindowStartsLine(data, |data|);
    }
    forall j | 0 <= j < k && LineStart(data, j)
      ensures |data| - j > READ_RECENT_TAIL_BYTES
    {
      if |data| - j <= READ_RECENT_TAIL_BYTES {
        WindowStartBefore(data, j);
      }
    }
  }

  lemma {:induction false} ConcatLast(ls: seq<Bytes>)
    requires ls != []
    ensures Concat(ls) == Concat(ls[..|ls| - 1]) + ls[|ls| - 1]
  {
    if |ls| == 1 {
      assert ls[1..] == [];
    } else {
      ConcatLast(ls[1..]);
      assert ls[1..][..|ls| - 2] == ls[..|ls| - 1][1..];
      assert Concat(ls) == ls[0] + (Concat(ls[1..][..|ls| - 2]) + ls[|ls| - 1]);
    }
  }

  /** Every bounded read of `data` that asks for anything gets `r` first. */
  ghost predicate ReadsFirst(c: Codec, data: Bytes, r: Record) {
    forall limit: nat | limit >= 1 ::
      ReadRecent(c, data, |data|, limit) != [] && ReadRecent(c, data, |data|, limit)[0] == r
  }

  /** From any earlier contents, a crash fragment included, the appended record reads back first. */
  lemma AppendReadsBack(c: Codec, s: Bytes, r: Record)
    requires c.Lawful() && c.EncodeRecord(r).Ok?
    ensures s <= Appended(s, c.EncodeRecord(r).value)
    ensures ReadsFirst(c, Appended(s, c.EncodeRecord(r).value), r)
  {
    var data := Appended(s, c.EncodeRecord(r).value);
    EncodedIsLine(c, r);
    AppendedLines(s, c.EncodeRecord(r).value);
    AppendedClosed(s, c.EncodeRecord(r).value);
    forall limit: nat | limit >= 1
      ensures ReadRecent(c, data, |data|, limit) != [] && ReadRecent(c, data, |data|, limit)[0] == r
    {
      LastLineReadsFirst(c, data, r, limit);
    }
  }

  lemma EvictKeepsLast(ls: seq<Bytes>, maxEntries: nat, maxBytes: nat)
    requires ls != [] && |ls[|ls| - 1]| <= maxBytes && maxEntries >= 1
    ensures var held := Evict(ls, maxEntries, maxBytes); held != [] && held[|held| - 1] == ls[|ls| - 1]
  {
    var last := ls[|ls| - 1];
    assert ls[|ls| - 1..] == [last];
    assert TotalBytes([last]) == |last| + TotalBytes([]);
    EvictIsSuffix(ls, maxEntries, maxBytes);
    if Evict(ls, maxEntries, maxBytes) == [] {
      EvictIsLongest(ls, maxEntries, maxBytes, |ls| - 1);
    }
  }

  /** The same when the append went on to compact, as it does every 128th time or above 32 MiB. */
  lemma AppendCompactReadsBack(c: Codec, s: Bytes, r: Record, keep: nat, maxBytes: nat)
    requires c.Lawful() && c.EncodeRecord(r).Ok?
    requires keep >= 1 && maxBytes >= MAX_RECORD_BYTES
    ensures ReadsFirst(c, Compacted(c, Appended(s, c.EncodeRecord(r).value), keep, maxBytes), r)
  {
    var line := c.EncodeRecord(r).value;
    var after := Appended(s, line);
    var data := Compacted(c, after, keep, maxBytes);
    EncodedIsLine(c, r);
    AppendedLines(s, line);
    CompactedContents(c, after, keep, maxBytes);
    EvictKeepsLast(Kept(c, Lines(after)), keep, maxBytes);
    forall limit: nat | limit >= 1
      ensures ReadRecent(c, data, |data|, limit) != [] && ReadRecent(c, data, |data|, limit)[0] == r
    {
      LastLineReadsFirst(c, data, r, limit);
    }
  }

  /** A record whose write was cut short is invisible or complete once the next append has ended
      its line: never half a record, never another one. */
  lemma TornRecordIsAllOrNothing(c: Codec, r: Record, n: nat)
    requires c.Lawful() && c.EncodeRecord(r).Ok? && 0 < n < |c.EncodeRecord(r).value|
    ensures var line := c.EncodeRecord(r).value[..n] + [NEWLINE];
            && IsLine(line)
            && c.Readable(line) == (if n == |c.encode(r)| then Some(r) else None)
            && (c.Keepable(line) ==> n == |c.encode(r)| && c.trimEnd(line) == c.encode(r))
  {
    var fragment := c.EncodeRecord(r).value[..n];
    assert fragment == c.encode(r)[..n];
    var line := fragment + [NEWLINE];
    assert line[..|line| - 1] == fragment;
    if n == |c.encode(r)| {
      assert fragment == c.encode(r);
    }
    var t := c.trimEnd(fragment + [NEWLINE]);
    assert t <= fragment;
    assert t == c.encode(r)[..|t|];
  }
}
