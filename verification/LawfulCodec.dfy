/** The laws that the history store relies on can be met: a record codec, plainer than JSON, that has them. */
module LawfulCodec {
  import opened Outcomes
  import opened Sequences
  import opened HistoryLines
  import opened HistoryStore

  // ---- records as lists of numbers that tell where they end ----

  function Codes(text: string): seq<nat> {
    seq(|text|, i requires 0 <= i < |text| => text[i] as int)
  }

  function TextList(text: string): seq<nat> {
    [|text|] + Codes(text)
  }

  function OptionalText(text: Option<string>): seq<nat> {
    [if text.None? then 0 else 1] + TextList(if text.None? then "" else text.value)
  }

  function NumberList(n: int): seq<nat> {
    if n < 0 then [0, -n] else [1, n]
  }

  function OptionalNumber(n: Option<nat>): seq<nat> {
    if n.None? then [0, 0] else [1, n.value]
  }

  function RecordList(r: Record): seq<nat> {
    TextList(r.command) + (OptionalText(r.cwd) + (NumberList(r.exitCode) + OptionalNumber(r.endTimeMs)))
  }

  lemma Heads(a: seq<nat>, s: seq<nat>, b: seq<nat>, t: seq<nat>)
    requires a + s <= b + t && |a| == |b|
    ensures a == b && s <= t
  {
    assert a == (a + s)[..|a|] == (b + t)[..|a|] == b;
    assert s == (a + s)[|a|..] && t == (b + t)[|b|..];
  }

  lemma TextTells(x: string, s: seq<nat>, y: string, t: seq<nat>)
    requires TextList(x) + s <= TextList(y) + t
    ensures x == y && s <= t
  {
    assert (TextList(x) + s)[0] == |x| && (TextList(y) + t)[0] == |y|;
    Heads(TextList(x), s, TextList(y), t);
    forall i | 0 <= i < |x|
      ensures x[i] == y[i]
    {
      assert TextList(x)[i + 1] == x[i] as int && TextList(y)[i + 1] == y[i] as int;
    }
  }

  lemma OptionalTextTells(x: Option<string>, s: seq<nat>, y: Option<string>, t: seq<nat>)
    requires OptionalText(x) + s <= OptionalText(y) + t
    ensures x == y && s <= t
  {
    var tagX, tagY := [OptionalText(x)[0]], [OptionalText(y)[0]];
    var textX, textY := if x.None? then "" else x.value, if y.None? then "" else y.value;
    Associate(tagX, TextList(textX), s);
    Associate(tagY, TextList(textY), t);
    Heads(tagX, TextList(textX) + s, tagY, TextList(textY) + t);
    TextTells(textX, s, textY, t);
  }

  lemma NumbersTell(m: int, x: Option<nat>, n: int, y: Option<nat>)
    requires NumberList(m) + OptionalNumber(x) <= NumberList(n) + OptionalNumber(y)
    ensures m == n && x == y
  {
    Heads(NumberList(m), OptionalNumber(x), NumberList(n), OptionalNumber(y));
    assert NumberList(m)[0] == NumberList(n)[0] && NumberList(m)[1] == NumberList(n)[1];
    assert OptionalNumber(x)[0] == OptionalNumber(y)[0] && OptionalNumber(x)[1] == OptionalNumber(y)[1];
  }

  /** No record's list begins another one's. */
  lemma RecordTells(x: Record, y: Record)
    requires RecordList(x) <= RecordList(y)
    ensures x == y
  {
    TextTells(x.command, OptionalText(x.cwd) + (NumberList(x.exitCode) + OptionalNumber(x.endTimeMs)),
              y.command, OptionalText(y.cwd) + (NumberList(y.exitCode) + OptionalNumber(y.endTimeMs)));
    OptionalTextTells(x.cwd, NumberList(x.exitCode) + OptionalNumber(x.endTimeMs),
                      y.cwd, NumberList(y.exitCode) + OptionalNumber(y.endTimeMs));
    NumbersTell(x.exitCode, x.endTimeMs, y.exitCode, y.endTimeMs);
  }

  // ---- numbers as bytes that tell where they end ----

  const ONE: byte := 1
  const STOP: byte := 2

  function Unary(n: nat): Bytes {
    if n == 0 then [STOP] else [ONE] + Unary(n - 1)
  }

  function Unaries(ns: seq<nat>): Bytes {
    if ns == [] then [] else Unary(ns[0]) + Unaries(ns[1..])
  }

  lemma {:induction false} UnaryTells(m: nat, s: Bytes, n: nat, t: Bytes)
    requires Unary(m) + s <= Unary(n) + t
    ensures m == n && s <= t
  {
    assert (Unary(m) + s)[0] == Unary(m)[0] && (Unary(n) + t)[0] == Unary(n)[0];
    if m == 0 {
      assert s == (Unary(m) + s)[1..] && t == (Unary(n) + t)[1..];
    } else {
      assert (Unary(m) + s)[1..] == Unary(m - 1) + s && (Unary(n) + t)[1..] == Unary(n - 1) + t;
      UnaryTells(m - 1, s, n - 1, t);
    }
  }

  lemma {:induction false} UnariesTell(ms: seq<nat>, ns: seq<nat>)
    requires Unaries(ms) <= Unaries(ns)
    ensures ms <= ns
  {
    if ms != [] {
      if ns == [] {
        UnaryIsBytes(ms[0]);
        assert false;
      }
      UnaryTells(ms[0], Unaries(ms[1..]), ns[0], Unaries(ns[1..]));
      UnariesTell(ms[1..], ns[1..]);
      assert ms == [ms[0]] + ms[1..] && ns == [ns[0]] + ns[1..];
    }
  }

  lemma {:induction false} UnaryIsBytes(n: nat)
    ensures Unary(n) != [] && NEWLINE !in Unary(n)
  {
    if n > 0 {
      UnaryIsBytes(n - 1);
    }
  }

  lemma {:induction false} UnariesHaveNoNewline(ns: seq<nat>)
    ensures NEWLINE !in Unaries(ns) && (ns != [] ==> Unaries(ns) != [])
  {
    if ns != [] {
      UnaryIsBytes(ns[0]);
      UnariesHaveNoNewline(ns[1..]);
    }
  }

  // ---- the codec ----

  function Encode(r: Record): Bytes {
    Unaries(RecordList(r))
  }

  lemma EncodeTells(x: Record, y: Record)
    requires Encode(x) <= Encode(y)
    ensures x == y
  {
    UnariesTell(RecordList(x), RecordList(y));
    RecordTells(x, y);
  }

  ghost function Decode(b: Bytes): (decoded: Option<Record>)
    ensures if decoded.Some? then Encode(decoded.value) == b else forall r :: Encode(r) != b
  {
    if r :| Encode(r) == b then Some(r) else None
  }

  function DropLast(b: Bytes): Bytes {
    if b == [] then [] else b[..|b| - 1]
  }

  /** The store's assumptions about its codec exclude nothing by themselves. */
  lemma LawfulCodecExists() returns (c: Codec)
    ensures c.Lawful()
  {
    var decode: Bytes -> Option<Record> := b => Decode(b);
    c := Codec(r => Encode(r), decode, _ => true, b => DropLast(b), _ => true);
    forall r: Record
      ensures c.decode(c.encode(r)) == Some(r) && NEWLINE !in c.encode(r) && c.encode(r) != []
    {
      UnariesHaveNoNewline(RecordList(r));
      EncodeTells(Decode(Encode(r)).value, r);
    }
    forall r: Record, n: nat | n < |c.encode(r)|
      ensures c.decode(c.encode(r)[..n]) == None
    {
      var decoded := Decode(Encode(r)[..n]);
      if decoded.Some? {
        assert |Encode(decoded.value)| == n;
        EncodeTells(decoded.value, r);
      }
    }
    forall b: Bytes
      ensures DropLast(b + [NEWLINE]) == b
    {
    }
  }
}
