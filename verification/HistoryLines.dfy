/** Physical lines of a JSONL file: how a byte string splits at its newlines, and how the split
    behaves under concatenation. Everything about append, compaction and the tail reader rests on it. */
module HistoryLines {
  newtype byte = b: int | 0 <= b < 256
  type Bytes = seq<byte>

  const NEWLINE: byte := 10

  /** Nothing is left unterminated: the text is empty or ends in a newline. */
  predicate Closed(s: Bytes) {
    s == [] || s[|s| - 1] == NEWLINE
  }

  /** One terminated physical line. */
  predicate IsLine(l: Bytes) {
    l != [] && l[|l| - 1] == NEWLINE && NEWLINE !in l[..|l| - 1]
  }

  /** Number of bytes up to and including the first newline, or all of them when there is none. */
  function LineEnd(s: Bytes): (n: nat)
    ensures n <= |s| && (s != [] ==> n > 0)
  {
    if s == [] then 0 else if s[0] == NEWLINE then 1 else 1 + LineEnd(s[1..])
  }

  /** The terminated lines, each with its newline, of an already read `pending` fragment followed by `s`. */
  function LinesFrom(pending: Bytes, s: Bytes): seq<Bytes>
    decreases |s|
  {
    if s == [] then []
    else if s[0] == NEWLINE then [pending + [NEWLINE]] + LinesFrom([], s[1..])
    else LinesFrom(pending + [s[0]], s[1..])
  }

  /** What is left unterminated after the last newline. */
  function TailFrom(pending: Bytes, s: Bytes): Bytes
    decreases |s|
  {
    if s == [] then pending
    else if s[0] == NEWLINE then TailFrom([], s[1..])
    else TailFrom(pending + [s[0]], s[1..])
  }

  function Lines(s: Bytes): seq<Bytes> {
    LinesFrom([], s)
  }

  function Tail(s: Bytes): Bytes {
    TailFrom([], s)
  }

  function Concat(ls: seq<Bytes>): Bytes {
    if ls == [] then [] else ls[0] + Concat(ls[1..])
  }

  function TotalBytes(ls: seq<Bytes>): nat {
    if ls == [] then 0 else |ls[0]| + TotalBytes(ls[1..])
  }

  lemma {:induction false} LineEndMeaning(s: Bytes)
    ensures var n := LineEnd(s);
            && (forall i | 0 <= i < n - 1 :: s[i] != NEWLINE)
            && (if NEWLINE in s then n > 0 && s[n - 1] == NEWLINE else n == |s|)
  {
    if s != [] && s[0] != NEWLINE {
      LineEndMeaning(s[1..]);
      assert s == [s[0]] + s[1..];
    }
  }

  lemma {:induction false} LinesFromAppend(pending: Bytes, s: Bytes, t: Bytes)
    ensures LinesFrom(pending, s + t) == LinesFrom(pending, s) + LinesFrom(TailFrom(pending, s), t)
    ensures TailFrom(pending, s + t) == TailFrom(TailFrom(pending, s), t)
    decreases |s|
  {
    if s == [] {
      assert s + t == t;
    } else {
      assert (s + t)[0] == s[0] && (s + t)[1..] == s[1..] + t;
      LinesFromAppend(if s[0] == NEWLINE then [] else pending + [s[0]], s[1..], t);
    }
  }

  lemma {:induction false} TailFromClosed(pending: Bytes, s: Bytes)
    ensures TailFrom(pending, s) == [] <==> if s == [] then pending == [] else s[|s| - 1] == NEWLINE
    decreases |s|
  {
    if s != [] {
      TailFromClosed(if s[0] == NEWLINE then [] else pending + [s[0]], s[1..]);
    }
  }

  lemma LinesAppend(s: Bytes, t: Bytes)
    requires Closed(s)
    ensures Lines(s + t) == Lines(s) + Lines(t)
    ensures Tail(s + t) == Tail(t)
  {
    LinesFromAppend([], s, t);
    TailFromClosed([], s);
  }

  lemma {:induction false} LinesFromRebuild(pending: Bytes, s: Bytes)
    ensures Concat(LinesFrom(pending, s)) + TailFrom(pending, s) == pending + s
    decreases |s|
  {
    if s != [] {
      LinesFromRebuild(if s[0] == NEWLINE then [] else pending + [s[0]], s[1..]);
      assert s == [s[0]] + s[1..];
      if s[0] == NEWLINE {
        var rest := LinesFrom([], s[1..]);
        ConcatCons(pending + [NEWLINE], rest);
        assert (pending + [NEWLINE] + Concat(rest)) + TailFrom([], s[1..])
            == pending + [NEWLINE] + (Concat(rest) + TailFrom([], s[1..]));
      }
    }
  }

  lemma ConcatCons(l: Bytes, ls: seq<Bytes>)
    ensures Concat([l] + ls) == l + Concat(ls)
  {
    assert ([l] + ls)[1..] == ls;
  }

  /** Splitting loses nothing: the lines and the unterminated tail rebuild the text. */
  lemma LinesRebuild(s: Bytes)
    ensures Concat(Lines(s)) + Tail(s) == s
  {
    LinesFromRebuild([], s);
    assert [] + s == s;
  }

  lemma {:induction false} LinesFromAreLines(pending: Bytes, s: Bytes)
    requires NEWLINE !in pending
    ensures forall l | l in LinesFrom(pending, s) :: IsLine(l)
    ensures NEWLINE !in TailFrom(pending, s)
    decreases |s|
  {
    if s != [] {
      LinesFromAreLines(if s[0] == NEWLINE then [] else pending + [s[0]], s[1..]);
      var l := pending + [NEWLINE];
      assert l[..|l| - 1] == pending;
    }
  }

  lemma {:induction false} LinesFromPlain(pending: Bytes, s: Bytes)
    requires NEWLINE !in s
    ensures LinesFrom(pending, s) == [] && TailFrom(pending, s) == pending + s
    decreases |s|
  {
    if s != [] {
      LinesFromPlain(pending + [s[0]], s[1..]);
      assert pending + [s[0]] + s[1..] == pending + s;
    }
  }

  lemma LinesOfOne(l: Bytes)
    requires IsLine(l)
    ensures Lines(l) == [l] && Tail(l) == []
  {
    var body := l[..|l| - 1];
    assert l == body + [NEWLINE];
    LinesFromAppend([], body, [NEWLINE]);
    LinesFromPlain([], body);
    assert [] + body == body;
  }

  /** The first line of a text that has one, and what follows it. */
  lemma LinesHead(s: Bytes)
    requires NEWLINE in s
    ensures var n := LineEnd(s); IsLine(s[..n]) && Lines(s) == [s[..n]] + Lines(s[n..]) && Tail(s) == Tail(s[n..])
  {
    var n := LineEnd(s);
    LineEndMeaning(s);
    assert s == s[..n] + s[n..];
    assert IsLine(s[..n]) by {
      assert forall i | 0 <= i < n - 1 :: s[..n][..n - 1][i] == s[i];
    }
    LinesOfOne(s[..n]);
    LinesAppend(s[..n], s[n..]);
  }

  lemma {:induction false} ConcatClosed(ls: seq<Bytes>)
    requires forall l | l in ls :: IsLine(l)
    ensures Closed(Concat(ls))
  {
    if ls != [] {
      ConcatClosed(ls[1..]);
      assert IsLine(ls[0]);
      var rest := Concat(ls[1..]);
      assert rest != [] ==> Concat(ls)[|Concat(ls)| - 1] == rest[|rest| - 1];
    }
  }

  /** Printing terminated lines one after the other and splitting again is the identity. */
  lemma {:induction false} LinesOfConcat(ls: seq<Bytes>)
    requires forall l | l in ls :: IsLine(l)
    ensures Lines(Concat(ls)) == ls
  {
    if ls != [] {
      LinesOfOne(ls[0]);
      LinesAppend(ls[0], Concat(ls[1..]));
      LinesOfConcat(ls[1..]);
    }
  }

  lemma {:induction false} ConcatLength(ls: seq<Bytes>)
    ensures |Concat(ls)| == TotalBytes(ls)
  {
    if ls != [] {
      ConcatLength(ls[1..]);
    }
  }

  lemma {:induction false} TotalBytesSplit(xs: seq<Bytes>, ys: seq<Bytes>)
    ensures TotalBytes(xs + ys) == TotalBytes(xs) + TotalBytes(ys)
  {
    if xs == [] {
      assert xs + ys == ys;
    } else {
      assert (xs + ys)[1..] == xs[1..] + ys;
      TotalBytesSplit(xs[1..], ys);
    }
  }

  lemma TotalBytesSnoc(xs: seq<Bytes>, y: Bytes)
    ensures TotalBytes(xs + [y]) == TotalBytes(xs) + |y|
  {
    TotalBytesSplit(xs, [y]);
    assert [y][1..] == [];
  }

  /** Cutting a text after a newline splits its lines there. */
  lemma LinesCut(s: Bytes, k: nat)
    requires k <= |s| && (k == 0 || s[k - 1] == NEWLINE)
    ensures Lines(s) == Lines(s[..k]) + Lines(s[k..])
  {
    assert s == s[..k] + s[k..];
    LinesAppend(s[..k], s[k..]);
  }

  /** A newline turns the pending fragment into a line of its own. */
  lemma LinesAfterFragment(s: Bytes, line: Bytes)
    requires IsLine(line)
    ensures Lines(s + ([NEWLINE] + line)) == Lines(s) + [Tail(s) + [NEWLINE]] + [line]
  {
    var payload := [NEWLINE] + line;
    LinesFromAppend([], s, payload);
    LinesOfOne(line);
    assert payload[1..] == line;
    assert LinesFrom(Tail(s), payload) == [Tail(s) + [NEWLINE]] + [line];
  }
}
