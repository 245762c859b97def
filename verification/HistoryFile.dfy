/** The command-history operations as the source performs them: a buffered reader advanced in place,
    a file whose contents are appended to and replaced, and loops over bytes. */
module HistoryFile {
  import opened Outcomes
  import opened Sequences
  import opened HistoryLines
  import opened HistoryStore
  import opened Whitespace

  const COMPACT_EVERY: nat := 128

  /** A `BufRead` over one open descriptor. */
  class ByteReader {
    const data: Bytes
    var pos: nat

    ghost predicate Valid()
      reads this
    {
      pos <= |data|
    }

    ghost function Rest(): Bytes
      requires Valid()
      reads this
    {
      data[pos..]
    }

    constructor (contents: Bytes)
      ensures Valid() && data == contents && pos == 0
    {
      data := contents;
      pos := 0;
    }

    /** `take(limit).read_line`: one line, cut at `limit` bytes, or what is left. */
    method ReadLine(limit: nat) returns (line: Bytes)
      requires Valid()
      modifies this
      ensures Valid()
      ensures var n := LineEnd(old(Rest()));
              line == old(Rest())[..if n <= limit then n else limit]
      ensures pos == old(pos) + |line|
    {
      var rest := data[pos..];
      var n := LineEnd(rest);
      line := rest[..if n <= limit then n else limit];
      pos := pos + |line|;
    }

    /** Some nonempty part of what is left; how much depends on the buffer. */
    method FillBuf() returns (available: Bytes)
      requires Valid()
      ensures available <= Rest()
      ensures available == [] <==> Rest() == []
    {
      var rest := data[pos..];
      if rest == [] {
        return [];
      }
      var n: nat :| 0 < n <= |rest|;
      available := rest[..n];
    }

    method Consume(n: nat)
      requires Valid() && n <= |Rest()|
      modifies this
      ensures Valid() && pos == old(pos) + n
    {
      pos := pos + n;
    }

    /** discard_through_newline: whatever the buffer boundaries, exactly one physical line is skipped. */
    method DiscardThroughNewline()
      requires Valid()
      modifies this
      ensures Valid() && pos == old(pos) + LineEnd(old(Rest()))
    {
      ghost var before := Rest();
      ghost var skipped := 0;
      while true
        invariant Valid() && pos == old(pos) + skipped
        invariant skipped <= |before| && NEWLINE !in before[..skipped]
        decreases |data| - pos
      {
        assert Rest() == before[skipped..];
        var available := FillBuf();
        if available == [] {
          assert before[..skipped] == before;
          LineEndMeaning(before);
          return;
        }
        var consumed := LineEnd(available);
        LineEndMeaning(available);
        Consume(consumed);
        if NEWLINE in available {
          LineEndSkip(before, skipped, consumed);
          return;
        }
        assert before[..skipped + consumed] == before[..skipped] + available;
        skipped := skipped + consumed;
      }
    }
  }

  /** One turn of the compaction scan: the next physical line, if it is text of at most 1 MiB. */
  datatype Scanned = EndOfFile | NotText | Oversized | Line(line: Bytes)

  /** What the next turn yields for the unread bytes `s`. */
  function NextScan(c: Codec, s: Bytes): Scanned {
    if s == [] then EndOfFile
    else if !c.utf8(Chunk(s)) then NotText
    else if NEWLINE in s && LineEnd(s) <= MAX_RECORD_BYTES then Line(s[..LineEnd(s)])
    else Oversized
  }

  method ScanLine(c: Codec, reader: ByteReader) returns (next: Scanned)
    requires reader.Valid()
    modifies reader
    ensures reader.Valid()
    ensures next == NextScan(c, old(reader.Rest()))
    ensures next != NotText ==> reader.pos == old(reader.pos) + LineEnd(old(reader.Rest()))
    ensures next != NotText && next != EndOfFile ==> reader.pos > old(reader.pos)
  {
    ghost var rest := reader.Rest();
    var line := reader.ReadLine(MAX_RECORD_BYTES + 1);
    ChunkMeaning(rest);
    ScanMeaning(c, rest);
    if line == [] {
      return EndOfFile;
    }
    if !c.utf8(line) {
      return NotText;
    }
    if line[|line| - 1] != NEWLINE {
      DropDrop(reader.data, reader.pos - |line|, |line|);
      reader.DiscardThroughNewline();
      return Oversized;
    }
    if |line| > MAX_RECORD_BYTES {
      return Oversized;
    }
    return Line(line);
  }

  /** The turn, in terms of the bytes that `read_line` returned. */
  lemma ScanMeaning(c: Codec, s: Bytes)
    ensures var line := Chunk(s);
            NextScan(c, s) ==
            if line == [] then EndOfFile
            else if !c.utf8(line) then NotText
            else if line[|line| - 1] == NEWLINE && |line| <= MAX_RECORD_BYTES then Line(line)
            else Oversized
  {
    ChunkMeaning(s);
  }

  /** What the bytes that `read_line` returned tell about the whole physical line. */
  lemma ChunkMeaning(s: Bytes)
    ensures var line, n := Chunk(s), LineEnd(s);
            && (line == [] <==> s == [])
            && (line != [] && line[|line| - 1] == NEWLINE ==> |line| == n && line == s[..n] && NEWLINE in s)
            && (line != [] && line[|line| - 1] != NEWLINE ==>
                  |line| + LineEnd(s[|line|..]) == n && (NEWLINE !in s || n > MAX_RECORD_BYTES))
  {
    LineEndMeaning(s);
    var line := Chunk(s);
    if line != [] {
      if line[|line| - 1] == NEWLINE {
        ChunkEndsLine(s, |line|);
      } else {
        LineEndAfterChunk(s, |line|);
      }
    }
  }

  lemma LineEndSkip(s: Bytes, k: nat, n: nat)
    requires 0 < n && k + n <= |s| && NEWLINE !in s[..k]
    requires s[k..][n - 1] == NEWLINE && forall i | 0 <= i < n - 1 :: s[k..][i] != NEWLINE
    ensures LineEnd(s) == k + n
  {
    LineEndMeaning(s);
    var m := LineEnd(s);
    assert s[k + n - 1] == NEWLINE;
    assert forall i | 0 <= i < k :: s[i] == s[..k][i];
    assert forall i | k <= i < k + n - 1 :: s[i] == s[k..][i - k];
  }

  /** What went wrong outside the logic of one compaction. */
  datatype CompactFault = NoCompactFault | BeforeRename | AfterRename

  /** What went wrong outside the logic of one append: nothing, the lock or the open, a write cut
      short after some bytes, or one of the two syncs. */
  datatype AppendFault = NoAppendFault | LockOrOpenFailed | WriteFailed(written: nat) | SyncFailed

  datatype Failure = NotEncodable(error: EncodeError) | IoFailed | NotUtf8

  /** `max_entries.max(1)`. */
  function AtLeastOne(n: nat): (limit: nat)
    ensures limit >= 1 && limit >= n && (limit == 1 || limit == n)
  {
    if n == 0 then 1 else n
  }

  /** What is left of the tail read is the window. */
  lemma WindowOfTail(data: Bytes, fileLen: nat, tail: Bytes, firstComplete: nat)
    requires var start := if fileLen > READ_RECENT_TAIL_BYTES then fileLen - READ_RECENT_TAIL_BYTES else 0;
             var end := if fileLen < |data| then fileLen else |data|;
             && tail == (if start < end then data[start..end] else [])
             && firstComplete == (if start == 0 || (start - 1 < |data| && data[start - 1] == NEWLINE) then 0
                else LineEnd(tail))
    ensures firstComplete <= |tail| && tail[firstComplete..] == Window(data, fileLen)
  {
    LineEndMeaning(tail);
  }

  /** What an append has written when it stops at a fault: nothing, any first part of its one write, or
      all of it. */
  function Interrupted(before: Bytes, line: Bytes, fault: AppendFault): Bytes {
    match fault
    case LockOrOpenFailed => before
    case WriteFailed(written) => before + Take(Payload(before, line), written)
    case SyncFailed => Appended(before, line)
    case NoAppendFault => Appended(before, line)
  }

  /** A file too large, or the counter coming round, makes a compaction due; it succeeds exactly when the
      file is text and nothing fails. The contents afterwards, and whether all went well. */
  ghost function CompactedWhenDue(c: Codec, before: Bytes, count: nat, keep: nat, fault: CompactFault): (Bytes, bool) {
    if |before| <= MAX_FILE_BYTES && count % COMPACT_EVERY != 0 then (before, true)
    else
      (if Scannable(c, before) && fault != BeforeRename then Compacted(c, before, keep, MAX_FILE_BYTES) else before,
       Scannable(c, before) && fault == NoCompactFault)
  }

  /** The file behind one history path, with the process's append counter. */
  class HistoryFile {
    const c: Codec
    var bytes: Bytes
    var appendCount: nat

    constructor (codec: Codec, contents: Bytes)
      ensures c == codec && bytes == contents && appendCount == 0
    {
      c := codec;
      bytes := contents;
      appendCount := 0;
    }

    /** read_recent_from: a backwards scan over the bounded tail. `fileLen` was read beforehand and
        may no longer be the file's length. */
    method ReadRecentFrom(fileLen: nat, maxEntries: nat) returns (records: seq<Record>)
      ensures records == ReadRecent(c, bytes, fileLen, maxEntries)
    {
      if maxEntries == 0 || fileLen == 0 {
        return [];
      }
      var start := if fileLen > READ_RECENT_TAIL_BYTES then fileLen - READ_RECENT_TAIL_BYTES else 0;
      var startsAtLineBoundary := start == 0 || (start - 1 < |bytes| && bytes[start - 1] == NEWLINE);
      var end := if fileLen < |bytes| then fileLen else |bytes|;
      var tail := if start < end then bytes[start..end] else [];
      if tail == [] {
        return [];
      }
      var firstComplete := 0;
      if !startsAtLineBoundary {
        LineEndMeaning(tail);
        if NEWLINE !in tail {
          return [];
        }
        firstComplete := LineEnd(tail);
      }
      WindowOfTail(bytes, fileLen, tail, firstComplete);
      records := NewestInTail(c, tail, firstComplete, maxEntries);
    }

    /** compact_locked_with_budget: one streaming pass, then a replacement. It succeeds exactly when
        every line's first MiB is text and nothing fails; only a failure after the rename leaves the
        replaced contents behind an error. */
    method Compact(maxEntries: nat, maxBytes: nat, fault: CompactFault) returns (result: Result<(), Failure>)
      modifies this`bytes
      ensures result.Ok? <==> Scannable(c, old(bytes)) && fault == NoCompactFault
      ensures bytes == if Scannable(c, old(bytes)) && fault != BeforeRename
              then Compacted(c, old(bytes), maxEntries, maxBytes) else old(bytes)
    {
      KeptScanMeaning(c, bytes);
      var recent := ScanRecent(c, bytes, maxEntries, maxBytes);
      if recent.Err? {
        return Err(NotUtf8);
      }
      if fault == BeforeRename {
        return Err(IoFailed);
      }
      bytes := WriteAll(recent.value);
      if fault == AfterRename {
        return Err(IoFailed);
      }
      return Ok(());
    }

    /** append: encode, inspect the last byte, write once, sync, and compact when due. */
    method Append(maxEntries: nat, record: Record, fault: AppendFault, compactFault: CompactFault)
      returns (result: Result<(), Failure>)
      modifies this
      ensures IsBlank(record.command) ==> result.Ok? && bytes == old(bytes)
      ensures !IsBlank(record.command) && c.EncodeRecord(record).Err? ==>
                result == Err(NotEncodable(c.EncodeRecord(record).error)) && bytes == old(bytes)
      ensures !IsBlank(record.command) && c.EncodeRecord(record).Ok? ==>
                !fault.NoAppendFault? ==>
                  result.Err? && bytes == Interrupted(old(bytes), c.EncodeRecord(record).value, fault)
      ensures !IsBlank(record.command) && c.EncodeRecord(record).Ok? && fault.NoAppendFault? ==>
                (bytes, result.Ok?) == CompactedWhenDue(c, Appended(old(bytes), c.EncodeRecord(record).value),
                    old(appendCount) + 1,
                                                        AtLeastOne(maxEntries), compactFault)
      ensures !IsBlank(record.command) ==>
                (result.Ok? <==>
                  && c.acceptable(record) && |c.encode(record)| < MAX_RECORD_BYTES && fault.NoAppendFault?
                  && var after := Appended(old(bytes), c.encode(record) + [NEWLINE]);
                     || (|after| <= MAX_FILE_BYTES && (old(appendCount) + 1) % COMPACT_EVERY != 0)
                     || (Scannable(c, after) && compactFault.NoCompactFault?))
      ensures result.Ok? && !IsBlank(record.command) ==> |bytes| <= MAX_FILE_BYTES
      ensures c.Lawful() && result.Ok? && !IsBlank(record.command) ==> ReadsFirst(c, bytes, record)
    {
      if IsBlank(record.command) {
        return Ok(());
      }
      var encoding := c.EncodeRecord(record);
      if encoding.Err? {
        return Err(NotEncodable(encoding.error));
      }
      result := AppendEncoded(maxEntries, encoding.value, fault, compactFault);
      if result.Ok? {
        AppendVisible(c, old(bytes), record, old(appendCount) + 1, AtLeastOne(maxEntries), compactFault);
      }
    }

    /** append from the encoded line on. */
    method AppendEncoded(maxEntries: nat, line: Bytes, fault: AppendFault, compactFault: CompactFault)
      returns (result: Result<(), Failure>)
      modifies this
      ensures !fault.NoAppendFault? ==> result.Err? && bytes == Interrupted(old(bytes), line, fault)
      ensures fault.NoAppendFault? ==>
                (bytes, result.Ok?) == CompactedWhenDue(c, Interrupted(old(bytes), line, fault), old(appendCount) + 1,
                    AtLeastOne(maxEntries), compactFault)
    {
      var synced := AppendLine(line, fault);
      if !synced {
        return Err(IoFailed);
      }
      ghost var appended := bytes;
      appendCount := appendCount + 1;
      result := CompactWhenDue(maxEntries, compactFault);
      assert (bytes, result.Ok?) == CompactedWhenDue(c, appended, appendCount, AtLeastOne(maxEntries), compactFault);
    }

    /** The middle of append: inspect the last byte, write once, sync. */
    method AppendLine(line: Bytes, fault: AppendFault) returns (ok: bool)
      modifies this`bytes
      ensures ok <==> fault.NoAppendFault?
      ensures bytes == Interrupted(old(bytes), line, fault)
    {
      if fault.LockOrOpenFailed? {
        return false;
      }
      var encoded := line;
      if |bytes| > 0 && bytes[|bytes| - 1] != NEWLINE {
        encoded := [NEWLINE] + encoded;
      }
      if fault.WriteFailed? {
        bytes := bytes + Take(encoded, fault.written);
        return false;
      }
      bytes := bytes + encoded;
      return fault.NoAppendFault?;
    }

    /** The end of append. */
    method CompactWhenDue(maxEntries: nat, compactFault: CompactFault) returns (result: Result<(), Failure>)
      modifies this`bytes
      ensures (bytes, result.Ok?) == CompactedWhenDue(c, old(bytes), appendCount, AtLeastOne(maxEntries), compactFault)
    {
      result := Ok(());
      if |bytes| > MAX_FILE_BYTES || appendCount % COMPACT_EVERY == 0 {
        result := Compact(AtLeastOne(maxEntries), MAX_FILE_BYTES, compactFault);
      }
    }
  }

  /** With or without a compaction, a successful append leaves a file within its limit that reads the
      record first. */
  lemma AppendVisible(c: Codec, data: Bytes, record: Record, count: nat, keep: nat, fault: CompactFault)
    requires c.EncodeRecord(record).Ok? && keep > 0
    requires CompactedWhenDue(c, Appended(data, c.EncodeRecord(record).value), count, keep, fault).1
    ensures var after := CompactedWhenDue(c, Appended(data, c.EncodeRecord(record).value), count, keep, fault).0;
            |after| <= MAX_FILE_BYTES && (c.Lawful() ==> ReadsFirst(c, after, record))
  {
    CompactedContents(c, Appended(data, c.EncodeRecord(record).value), keep, MAX_FILE_BYTES);
    if c.Lawful() {
      AppendReadsBack(c, data, record);
      AppendCompactReadsBack(c, data, record, keep, MAX_FILE_BYTES);
    }
  }

  /** The records and commands after one more line. */
  predicate Pushed(read: Option<Record>, seen0: set<string>, records0: seq<Record>, seen: set<string>,
      records: seq<Record>) {
    if read.Some? && read.value.command !in seen0
    then seen == seen0 + {read.value.command} && records == records0 + [read.value]
    else seen == seen0 && records == records0
  }

  /** The checks read_recent_from makes on one line; its limit counts the newline that is not part of it. */
  method ReadRecord(c: Codec, line: Bytes) returns (read: Option<Record>)
    ensures read == c.ReadContent(line)
  {
    if line == [] || |line| + 1 > MAX_RECORD_BYTES {
      return None;
    }
    read := c.decode(line);
    if read.Some? && !c.acceptable(read.value) {
      read := None;
    }
  }

  /** Keep a record whose command has not been seen. */
  method PushIfNew(read: Option<Record>, seen0: set<string>, records0: seq<Record>)
      returns (seen: set<string>, records: seq<Record>)
    ensures Pushed(read, seen0, records0, seen, records) && |records| <= |records0| + 1
  {
    seen, records := seen0, records0;
    if read.Some? && read.value.command !in seen {
      seen := seen + {read.value.command};
      records := records + [read.value];
    }
  }

  /** One turn of the loop below, on the last segment of `tail[first..upTo]`. */
  method TakeSegment(c: Codec, tail: Bytes, first: nat, upTo: nat, seen0: set<string>, records0: seq<Record>)
    returns (begin: nat, seen: set<string>, records: seq<Record>)
    requires first < upTo <= |tail| && tail[upTo - 1] == NEWLINE
    ensures first <= begin < upTo && (begin == first || tail[begin - 1] == NEWLINE) && |records| <= |records0| + 1
    ensures records0 + NewestAfter(c, Lines(tail[first..upTo]), seen0)
            == records + NewestAfter(c, Lines(tail[first..begin]), seen)
  {
    var end := upTo - 1;
    begin := SegmentStart(tail, first, end);
    var read := ReadRecord(c, tail[begin..end]);
    seen, records := PushIfNew(read, seen0, records0);
    RegionStep(c, tail, first, begin, end, seen0, records0, seen, records,
               records0 + NewestAfter(c, Lines(tail[first..upTo]), seen0));
  }

  /** The loop of read_recent_from over `tail[first..upTo]`, split at newlines from the back. */
  method NewestInRegion(c: Codec, tail: Bytes, first: nat, upTo: nat, maxEntries: nat) returns (records: seq<Record>)
    requires maxEntries > 0 && first < upTo <= |tail| && tail[upTo - 1] == NEWLINE
    ensures records == Take(Newest(c, Lines(tail[first..upTo])), maxEntries)
  {
    ghost var rest := Lines(tail[first..upTo]);
    ghost var all := Newest(c, rest);
    records := [];
    var seen: set<string> := {};
    var left := upTo;
    while true
      invariant first < left <= |tail| && tail[left - 1] == NEWLINE
      invariant rest == Lines(tail[first..left])
      invariant all == records + NewestAfter(c, rest, seen)
      invariant |records| < maxEntries
      decreases left
    {
      left, seen, records := TakeSegment(c, tail, first, left, seen, records);
      rest := Lines(tail[first..left]);
      if |records| == maxEntries {
        return;
      }
      if left == first {
        assert tail[first..left] == [];
        return;
      }
    }
  }

  /** The end of read_recent_from: an unterminated last line is not looked at. */
  method NewestInTail(c: Codec, tail: Bytes, first: nat, maxEntries: nat) returns (records: seq<Record>)
    requires maxEntries > 0 && first <= |tail|
    ensures records == Take(Newest(c, Lines(tail[first..])), maxEntries)
  {
    var last := LastNewline(tail);
    if last < 0 || first >= last {
      NothingToRead(c, tail, first, last);
      return [];
    }
    LinesUpToLast(tail, first, last);
    records := NewestInRegion(c, tail, first, last + 1, maxEntries);
  }

  /** Push one kept line and evict from the front while a limit is exceeded. `held` is everything
      kept so far, evicted lines included. */
  method PushRecent(recent0: seq<Bytes>, bytes0: nat, line: Bytes, maxEntries: nat, maxBytes: nat,
      ghost held: seq<Bytes>)
    returns (recent: seq<Bytes>, recentBytes: nat)
    requires recent0 == Evict(held, maxEntries, maxBytes) && bytes0 == TotalBytes(recent0)
    ensures recent == Evict(held + [line], maxEntries, maxBytes) && recentBytes == TotalBytes(recent)
  {
    EvictIncremental(held, line, maxEntries, maxBytes);
    TotalBytesSnoc(recent0, line);
    recent, recentBytes := recent0 + [line], bytes0 + |line|;
    while |recent| > maxEntries || recentBytes > maxBytes
      invariant recentBytes == TotalBytes(recent)
      invariant Evict(recent, maxEntries, maxBytes) == Evict(held + [line], maxEntries, maxBytes)
      decreases |recent|
    {
      ghost var rest := EvictStep(recent, maxEntries, maxBytes);
      recentBytes := recentBytes - |recent[0]|;
      recent := recent[1..];
    }
  }

  /** The scan of compact_locked_with_budget: the deque of lines to write, or an error at the first
      chunk that is not text. */
  method ScanRecent(c: Codec, contents: Bytes, maxEntries: nat, maxBytes: nat) returns (result: Result<seq<Bytes>, ()>)
    ensures var kept := KeptScan(c, contents);
            result == if kept.Ok? then Ok(Evict(kept.value, maxEntries, maxBytes)) else Err(())
  {
    ghost var whole := KeptScan(c, contents);
    PrependNone(whole);
    var reader := new ByteReader(contents);
    var recent: seq<Bytes> := [];
    var recentBytes := 0;
    ghost var held: seq<Bytes> := [];
    ghost var rest := contents;
    while true
      invariant reader.Valid() && reader.data == contents && reader.Rest() == rest
      invariant whole == Prepend(held, KeptScan(c, rest))
      invariant recent == Evict(held, maxEntries, maxBytes)
      invariant recentBytes == TotalBytes(recent)
      decreases |contents| - reader.pos
    {
      KeptScanStep(c, rest, held, whole);
      var next := ScanLine(c, reader);
      if next == EndOfFile {
        break;
      }
      if next == NotText {
        return Err(());
      }
      DropDrop(contents, reader.pos - LineEnd(rest), LineEnd(rest));
      rest := rest[LineEnd(rest)..];
      if next.Oversized? {
        continue;
      }
      var record := c.decode(c.trimEnd(next.line));
      if record.Some? && c.acceptable(record.value) {
        recent, recentBytes := PushRecent(recent, recentBytes, next.line, maxEntries, maxBytes, held);
        held := held + [next.line];
      }
    }
    return Ok(recent);
  }

  /** The lines a complete scan of `s` keeps, before any eviction. */
  ghost function KeptScan(c: Codec, s: Bytes): Result<seq<Bytes>, ()>
    decreases |s|
  {
    match NextScan(c, s)
    case EndOfFile => Ok([])
    case NotText => Err(())
    case Oversized => KeptScan(c, s[LineEnd(s)..])
    case Line(l) => Prepend(if c.HoldsRecord(l) then [l] else [], KeptScan(c, s[LineEnd(s)..]))
  }

  ghost function Prepend(ls: seq<Bytes>, r: Result<seq<Bytes>, ()>): Result<seq<Bytes>, ()> {
    if r.Err? then r else Ok(ls + r.value)
  }

  /** One turn of the scan, on the specification. */
  lemma KeptScanStep(c: Codec, rest: Bytes, held: seq<Bytes>, whole: Result<seq<Bytes>, ()>)
    requires whole == Prepend(held, KeptScan(c, rest))
    ensures match NextScan(c, rest)
            case EndOfFile => whole == Ok(held)
            case NotText => whole.Err?
            case Oversized => whole == Prepend(held, KeptScan(c, rest[LineEnd(rest)..]))
            case Line(l) =>
              whole == Prepend(if c.HoldsRecord(l) then held + [l] else held, KeptScan(c, rest[LineEnd(rest)..]))
  {
    var next := NextScan(c, rest);
    if next.EndOfFile? {
      assert held + [] == held;
    }
    if next.Line? {
      var r := KeptScan(c, rest[LineEnd(rest)..]);
      if c.HoldsRecord(next.line) {
        PrependOne(held, next.line, r);
      } else {
        PrependNone(r);
      }
    }
  }

  lemma PrependNone(r: Result<seq<Bytes>, ()>)
    ensures Prepend([], r) == r
  {
    if r.Ok? {
      assert [] + r.value == r.value;
    }
  }

  lemma PrependOne(ls: seq<Bytes>, l: Bytes, r: Result<seq<Bytes>, ()>)
    ensures Prepend(ls, Prepend([l], r)) == Prepend(ls + [l], r)
  {
    if r.Ok? {
      assert ls + ([l] + r.value) == (ls + [l]) + r.value;
    }
  }

  /** The streaming scan agrees with splitting the whole file first. */
  lemma {:induction false} KeptScanMeaning(c: Codec, s: Bytes)
    ensures KeptScan(c, s) == if Scannable(c, s) then Ok(Kept(c, Lines(s))) else Err(())
    decreases |s|
  {
    if s != [] {
      LineEndMeaning(s);
      ScannableSplits(c, s);
      var rest := s[LineEnd(s)..];
      KeptScanMeaning(c, rest);
      if NEWLINE in s {
        KeptCons(c, s[..LineEnd(s)], Lines(rest));
        PrependNone(KeptScan(c, rest));
      }
    }
  }

  lemma {:induction false} KeptCons(c: Codec, l: Bytes, ls: seq<Bytes>)
    ensures Kept(c, [l] + ls) == (if c.Keepable(l) then [l] else []) + Kept(c, ls)
  {
    var all := [l] + ls;
    if ls == [] {
      assert all[..0] == [];
    } else {
      assert all[..|all| - 1] == [l] + ls[..|ls| - 1];
      KeptCons(c, l, ls[..|ls| - 1]);
    }
  }

  /** No newline from one place up to another, or from a place on. */
  predicate NoneBetween(s: Bytes, from: int, to: int) {
    forall i | 0 <= i < |s| && from <= i < to :: s[i] != NEWLINE
  }

  predicate NoneFrom(s: Bytes, k: int) {
    NoneBetween(s, k, |s|)
  }

  /** `iter().rposition(newline)`, -1 when there is none. */
  method LastNewline(s: Bytes) returns (i: int)
    ensures -1 <= i < |s| && NoneFrom(s, i + 1)
    ensures i >= 0 ==> s[i] == NEWLINE
  {
    i := |s| - 1;
    while i >= 0 && s[i] != NEWLINE
      invariant -1 <= i < |s| && NoneFrom(s, i + 1)
    {
      i := i - 1;
    }
  }

  /** Where the last newline-separated segment of `s[first..end]` begins. */
  method SegmentStart(s: Bytes, first: nat, end: nat) returns (begin: nat)
    requires first <= end <= |s|
    ensures first <= begin <= end
    ensures begin == first || s[begin - 1] == NEWLINE
    ensures NoneBetween(s, begin, end)
  {
    begin := end;
    while begin > first && s[begin - 1] != NEWLINE
      invariant first <= begin <= end
      invariant NoneBetween(s, begin, end)
    {
      begin := begin - 1;
    }
  }

  method WriteAll(lines: seq<Bytes>) returns (out: Bytes)
    ensures out == Concat(lines)
  {
    out := [];
    var i := 0;
    while i < |lines|
      invariant i <= |lines|
      invariant out + Concat(lines[i..]) == Concat(lines)
    {
      assert out + Concat(lines[i..]) == (out + lines[i]) + Concat(lines[i + 1..]);
      out := out + lines[i];
      i := i + 1;
    }
  }

  lemma RegionSplit(tail: Bytes, first: nat, begin: nat, end: nat)
    requires first <= begin <= end < |tail| && tail[end] == NEWLINE
    requires begin == first || tail[begin - 1] == NEWLINE
    requires NoneBetween(tail, begin, end)
    ensures Lines(tail[first..end + 1]) == Lines(tail[first..begin]) + [tail[begin..end + 1]]
  {
    var line := tail[begin..end + 1];
    SliceSlice(tail, begin, end + 1, 0, end - begin);
    LinesOfOne(line);
    assert tail[first..end + 1] == tail[first..begin] + line;
    LinesAppend(tail[first..begin], line);
  }

  lemma LinesUpToLast(tail: Bytes, first: nat, last: nat)
    requires first <= last < |tail| && tail[last] == NEWLINE && NoneFrom(tail, last + 1)
    ensures Lines(tail[first..]) == Lines(tail[first..last + 1])
  {
    var region, rest := tail[first..last + 1], tail[last + 1..];
    assert tail[first..] == region + rest;
    LinesFromPlain([], rest);
    LinesAppend(region, rest);
  }

  /** One turn of the backwards scan, on the specification. */
  lemma RegionStep(c: Codec, tail: Bytes, first: nat, begin: nat, end: nat, seen: set<string>, records: seq<Record>,
                   newSeen: set<string>, newRecords: seq<Record>, all: seq<Record>)
    requires first <= begin <= end < |tail| && tail[end] == NEWLINE
    requires begin == first || tail[begin - 1] == NEWLINE
    requires NoneBetween(tail, begin, end)
    requires all == records + NewestAfter(c, Lines(tail[first..end + 1]), seen)
    requires Pushed(c.ReadContent(tail[begin..end]), seen, records, newSeen, newRecords)
    ensures all == newRecords + NewestAfter(c, Lines(tail[first..begin]), newSeen)
  {
    RegionSplit(tail, first, begin, end);
    SliceSlice(tail, begin, end + 1, 0, end - begin);
    NewestSnoc(c, Lines(tail[first..begin]), tail[begin..end + 1], tail[begin..end], seen);
    var read := c.ReadContent(tail[begin..end]);
    if read.Some? {
      Regroup(records, read.value, NewestAfter(c, Lines(tail[first..begin]), newSeen));
    }
  }

  lemma NewestSnoc(c: Codec, ls: seq<Bytes>, line: Bytes, content: Bytes, seen: set<string>)
    requires line != [] && content == line[..|line| - 1]
    ensures var read := c.ReadContent(content);
            NewestAfter(c, ls + [line], seen) ==
              if read.Some? && read.value.command !in seen
              then [read.value] + NewestAfter(c, ls, seen + {read.value.command})
              else NewestAfter(c, ls, seen)
  {
    assert (ls + [line])[..|ls|] == ls;
  }

  lemma Regroup<T>(a: seq<T>, x: T, b: seq<T>)
    ensures a + ([x] + b) == (a + [x]) + b
  {
  }

  /** A lone newline is a line with nothing to read. */
  lemma EmptyLineReadsNothing(c: Codec)
    ensures Newest(c, Lines([NEWLINE])) == []
  {
    LinesOfOne([NEWLINE]);
    EmptyAppend<Bytes>([[NEWLINE]]);
    NewestSnoc(c, [], [NEWLINE], [], {});
  }

  lemma LoneNewline(c: Codec, tail: Bytes, at: nat)
    requires at < |tail| && tail[at] == NEWLINE && NoneFrom(tail, at + 1)
    ensures Newest(c, Lines(tail[at..])) == []
  {
    LinesUpToLast(tail, at, at);
    SliceOne(tail, at);
    EmptyLineReadsNothing(c);
  }

  lemma FragmentReadsNothing(c: Codec, tail: Bytes, from: nat, first: nat)
    requires from <= first <= |tail| && NoneFrom(tail, from)
    ensures Newest(c, Lines(tail[first..])) == []
  {
    LinesFromPlain([], tail[first..]);
  }

  lemma NothingToRead(c: Codec, tail: Bytes, first: nat, last: int)
    requires first <= |tail| && -1 <= last < |tail| && NoneFrom(tail, last + 1)
    requires last >= 0 ==> tail[last] == NEWLINE
    requires last < 0 || first >= last
    ensures Newest(c, Lines(tail[first..])) == []
  {
    if first == last {
      LoneNewline(c, tail, first);
    } else {
      FragmentReadsNothing(c, tail, last + 1, first);
    }
  }

  /** The bytes `read_line` returns for the first physical line of `s`. */
  function Chunk(s: Bytes): Bytes {
    var n := LineEnd(s);
    s[..if n <= MAX_RECORD_BYTES + 1 then n else MAX_RECORD_BYTES + 1]
  }

  /** The scan condition asks for a text chunk first and recursively after the first physical line. */
  lemma ScannableSplits(c: Codec, s: Bytes)
    requires s != []
    ensures Scannable(c, s) <==> c.utf8(Chunk(s)) && Scannable(c, s[LineEnd(s)..])
    ensures NEWLINE in s ==> Lines(s) == [s[..LineEnd(s)]] + Lines(s[LineEnd(s)..])
    ensures NEWLINE !in s ==> Lines(s) == [] && s[LineEnd(s)..] == []
  {
    LineEndMeaning(s);
    var first := s[..LineEnd(s)];
    if LineEnd(s) > MAX_RECORD_BYTES + 1 {
      assert first[..MAX_RECORD_BYTES + 1] == s[..MAX_RECORD_BYTES + 1];
    }
    assert Decodable(c, first) <==> c.utf8(Chunk(s));
    if NEWLINE in s {
      LinesHead(s);
    } else {
      LinesFromPlain([], s);
      assert [] + s == s == first;
    }
  }

  lemma ChunkEndsLine(s: Bytes, n: nat)
    requires 0 < n <= LineEnd(s) && s[n - 1] == NEWLINE
    ensures LineEnd(s) == n
  {
    LineEndMeaning(s);
  }

  lemma {:induction false} LineEndAfterChunk(s: Bytes, n: nat)
    requires 0 < n <= LineEnd(s) && s[n - 1] != NEWLINE
    ensures n + LineEnd(s[n..]) == LineEnd(s)
  {
    if s[0] != NEWLINE && n > 1 {
      LineEndAfterChunk(s[1..], n - 1);
      assert s[1..][n - 1..] == s[n..];
    }
  }
}
