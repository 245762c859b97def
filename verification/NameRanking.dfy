/** rank_names: which replacement names are plausible for a mistyped one, and in what order. */
module NameRanking {
  import opened Sequences
  import opened Utf8
  import opened Whitespace
  import EditDistance

  const MAX_NAME_BYTES: nat := 256
  const MAX_RANKED_NAMES: nat := 12
  const MAX_RANKED_INPUTS: nat := 50_000

  function LowerChar(c: char): char {
    if 'A' <= c <= 'Z' then (c as int + 32) as char else c
  }

  /** `to_ascii_lowercase`; `eq_ignore_ascii_case` is equality of these. */
  function Lower(s: string): (t: string)
    ensures |t| == |s|
  {
    seq(|s|, i requires 0 <= i < |s| => LowerChar(s[i]))
  }

  /** Names are compared as if letter case did not matter: character by character they are the same, or the
      two cases of one ASCII letter. */
  lemma LowerEqualsIff(a: string, b: string)
    ensures Lower(a) == Lower(b) <==>
            |a| == |b| && forall i | 0 <= i < |a| ::
              || a[i] == b[i]
              || ('A' <= a[i] <= 'Z' && b[i] as int == a[i] as int + 32)
              || ('A' <= b[i] <= 'Z' && a[i] as int == b[i] as int + 32)
  {
    if Lower(a) == Lower(b) {
      forall i | 0 <= i < |a|
        ensures LowerChar(a[i]) == LowerChar(b[i])
      {
        assert Lower(a)[i] == Lower(b)[i];
      }
    }
  }

  datatype RankedName = RankedName(name: string, distance: nat, fuzzyScore: int, lengthDelta: nat)

  function AbsDiff(x: nat, y: nat): nat {
    if x <= y then y - x else x - y
  }

  /** The record rank_names keeps for one name; the fuzzy matcher's score is a parameter. */
  function RankOf(fuzzy: (string, string) -> int, needle: string, name: string): RankedName {
    RankedName(name, EditDistance.Distance(Lower(needle), Lower(name)), fuzzy(Lower(name), Lower(needle)),
        AbsDiff(|name|, |needle|))
  }

  function MaxDistance(needle: string): nat {
    if |needle| <= 7 then 2 else 3
  }

  /** Worth comparing at all: not empty, not too long, and not the needle in other letter case. */
  predicate Usable(needle: string, name: string) {
    name != [] && Utf8Len(name) <= MAX_NAME_BYTES && Lower(name) != Lower(needle)
  }

  /** Close enough; a different first letter must be the only mistake. */
  predicate Plausible(needle: string, name: string)
    requires needle != [] && name != []
  {
    var distance := EditDistance.Distance(Lower(needle), Lower(name));
    distance <= MaxDistance(needle) && (Lower(needle)[0] == Lower(name)[0] || distance <= 1)
  }

  /** Byte-wise string order, which for UTF-8 is the order of the characters' code points. */
  predicate TextBefore(a: string, b: string) {
    if b == [] then false
    else if a == [] then true
    else a[0] < b[0] || (a[0] == b[0] && TextBefore(a[1..], b[1..]))
  }

  /** The four-key order: distance, then better score, then length difference, then name. */
  predicate Before(x: RankedName, y: RankedName) {
    if x.distance != y.distance then x.distance < y.distance
    else if x.fuzzyScore != y.fuzzyScore then x.fuzzyScore > y.fuzzyScore
    else if x.lengthDelta != y.lengthDelta then x.lengthDelta < y.lengthDelta
    else TextBefore(x.name, y.name)
  }

  predicate Sorted(s: seq<RankedName>) {
    forall i, j | 0 <= i < j < |s| :: !Before(s[j], s[i])
  }

  function InsertRanked(x: RankedName, s: seq<RankedName>): seq<RankedName> {
    if s == [] || Before(x, s[0]) then [x] + s else [s[0]] + InsertRanked(x, s[1..])
  }

  /** What the library's stable `sort_by` computes. */
  function SortRanked(s: seq<RankedName>): seq<RankedName> {
    if s == [] then [] else InsertRanked(s[|s| - 1], SortRanked(s[..|s| - 1]))
  }

  /** What one input amounts to: nothing, a name too far from the needle, or a candidate; the last
      two use up their lower-case spelling. */
  datatype Verdict = Unusable | Far(lower: string) | Near(lower: string, ranked: RankedName)

  function Judge(fuzzy: (string, string) -> int, needle: string, raw: string): Verdict
    requires needle != []
  {
    var name := Trim(raw);
    if !Usable(needle, name) then Unusable
    else if !Plausible(needle, name) then Far(Lower(name))
    else Near(Lower(name), RankOf(fuzzy, needle, name))
  }

  /** The verdicts for one needle. */
  function Judging(fuzzy: (string, string) -> int, needle: string): string -> Verdict
    requires needle != []
  {
    raw => Judge(fuzzy, needle, raw)
  }

  datatype Collected = Collected(seen: set<string>, ranked: seq<RankedName>)

  /** One pass over the inputs, the first spelling of each name deciding. */
  function Collect(judge: string -> Verdict, names: seq<string>): Collected {
    if names == [] then Collected({}, [])
    else Consider(Collect(judge, names[..|names| - 1]), judge(names[|names| - 1]))
  }

  function Consider(c: Collected, v: Verdict): Collected {
    match v
    case Unusable => c
    case Far(lower) => Collected(c.seen + {lower}, c.ranked)
    case Near(lower, r) => if lower in c.seen then c else Collected(c.seen + {lower}, c.ranked + [r])
  }

  function Names(s: seq<RankedName>): (r: seq<string>)
    ensures |r| == |s| && forall i | 0 <= i < |r| :: r[i] == s[i].name
  {
    seq(|s|, i requires 0 <= i < |s| => s[i].name)
  }

  predicate Rankable(needle: string) {
    needle != [] && Utf8Len(needle) <= MAX_NAME_BYTES
  }

  /** The whole ranking, before it is cut to twelve. */
  function Ranking(fuzzy: (string, string) -> int, needle: string, names: seq<string>): seq<RankedName>
    requires needle != []
  {
    SortRanked(Collect(Judging(fuzzy, needle), Take(names, MAX_RANKED_INPUTS)).ranked)
  }

  /** rank_names. */
  method RankNames(fuzzy: (string, string) -> int, rawNeedle: string, names: seq<string>) returns (result: seq<string>)
    ensures var needle := Trim(rawNeedle);
            result == if Rankable(needle) then Names(Take(Ranking(fuzzy, needle, names), MAX_RANKED_NAMES)) else []
  {
    var needle := Trim(rawNeedle);
    if needle == [] || Utf8Len(needle) > MAX_NAME_BYTES {
      return [];
    }
    var ranked := CollectRanked(fuzzy, needle, Judging(fuzzy, needle), Take(names, MAX_RANKED_INPUTS));
    return Names(Take(SortRanked(ranked), MAX_RANKED_NAMES));
  }

  /** The loop of rank_names. */
  method CollectRanked(fuzzy: (string, string) -> int, needle: string, ghost judge: string -> Verdict,
      inputs: seq<string>)
    returns (ranked: seq<RankedName>)
    requires needle != [] && forall raw :: judge(raw) == Judge(fuzzy, needle, raw)
    ensures ranked == Collect(judge, inputs).ranked
  {
    var normalized := Lower(needle);
    var maxDistance := if |normalized| <= 7 then 2 else 3;
    var seen: set<string> := {};
    ranked := [];
    for i := 0 to |inputs|
      invariant Collect(judge, inputs[..i]) == Collected(seen, ranked)
    {
      TakeTake(inputs, i);
      assert Collect(judge, inputs[..i + 1]) == Consider(Collected(seen, ranked), Judge(fuzzy, needle, inputs[i]));
      var name := Trim(inputs[i]);
      if name == [] || Utf8Len(name) > MAX_NAME_BYTES || Lower(name) == normalized {
        continue;
      }
      var lower := Lower(name);
      if lower in seen {
        assert seen + {lower} == seen;
        continue;
      }
      seen := seen + {lower};
      var distance := EditDistance.EditDistance(normalized, lower);
      if distance > maxDistance || (normalized[0] != lower[0] && distance > 1) {
        continue;
      }
      ranked := ranked + [RankedName(name, distance, fuzzy(lower, normalized), AbsDiff(|lower|, |normalized|))];
    }
    Whole(inputs, 0);
  }

  // ---------------------------------------------------------------- the order

  lemma {:induction false} TextBeforeTotal(a: string, b: string)
    ensures TextBefore(a, b) || TextBefore(b, a) || a == b
    ensures !(TextBefore(a, b) && TextBefore(b, a))
  {
    if a != [] && b != [] && a[0] == b[0] {
      TextBeforeTotal(a[1..], b[1..]);
      assert a == [a[0]] + a[1..] && b == [b[0]] + b[1..];
    }
  }

  lemma {:induction false} TextBeforeTransitive(a: string, b: string, c: string)
    requires TextBefore(a, b) && TextBefore(b, c)
    ensures TextBefore(a, c)
  {
    if a != [] && a[0] == b[0] && b[0] == c[0] {
      TextBeforeTransitive(a[1..], b[1..], c[1..]);
    }
  }

  lemma BeforeTransitive(x: RankedName, y: RankedName, z: RankedName)
    requires Before(x, y) && Before(y, z)
    ensures Before(x, z)
  {
    if TextBefore(x.name, y.name) && TextBefore(y.name, z.name) {
      TextBeforeTransitive(x.name, y.name, z.name);
    }
  }

  lemma BeforeTotal(x: RankedName, y: RankedName)
    ensures Before(x, y) || Before(y, x) || x == y
    ensures !(Before(x, y) && Before(y, x))
  {
    TextBeforeTotal(x.name, y.name);
  }

  lemma {:induction false} InsertKeepsSorted(x: RankedName, s: seq<RankedName>)
    requires Sorted(s)
    ensures Sorted(InsertRanked(x, s))
    ensures multiset(InsertRanked(x, s)) == multiset(s) + multiset{x}
  {
    if s == [] {
    } else if Before(x, s[0]) {
      forall j | 0 <= j < |s| ensures !Before(s[j], x) {
        if Before(s[j], x) {
          BeforeTransitive(s[j], x, s[0]);
          BeforeTotal(s[0], s[0]);
        }
      }
    } else {
      InsertKeepsSorted(x, s[1..]);
      assert s == [s[0]] + s[1..];
      var rest := InsertRanked(x, s[1..]);
      forall j | 0 <= j < |rest| ensures !Before(rest[j], s[0]) {
        assert rest[j] in multiset(rest);
        if rest[j] != x {
          assert rest[j] in s[1..];
        }
      }
    }
  }

  lemma {:induction false} SortSorts(s: seq<RankedName>)
    ensures Sorted(SortRanked(s)) && multiset(SortRanked(s)) == multiset(s)
  {
    if s != [] {
      var front := s[..|s| - 1];
      SortSorts(front);
      InsertKeepsSorted(s[|s| - 1], SortRanked(front));
      assert s == front + [s[|s| - 1]];
    }
  }

  predicate StrictlySorted(s: seq<RankedName>) {
    forall i, j | 0 <= i < j < |s| :: Before(s[i], s[j])
  }

  /** A set of names has only one strictly sorted arrangement. */
  lemma {:induction false} StrictlySortedUnique(s: seq<RankedName>, t: seq<RankedName>)
    requires StrictlySorted(s) && StrictlySorted(t)
    requires forall r :: r in s <==> r in t
    ensures s == t
  {
    assert (s != [] ==> s[0] in t) && (t != [] ==> t[0] in s);
    if s != [] && t != [] {
      BeforeTotal(s[0], t[0]);
      var s', t' := s[1..], t[1..];
      assert s == [s[0]] + s' && t == [t[0]] + t';
      BeforeTotal(s[0], s[0]);
      assert s[0] !in s' && s[0] !in t';
      forall r ensures r in s' <==> r in t' {
        assert r in s <==> r == s[0] || r in s';
        assert r in t <==> r == t[0] || r in t';
      }
      StrictlySortedUnique(s', t');
    }
  }

  // ---------------------------------------------------------------- what is returned

  /** A candidate is filed under the lower-case spelling of its own name. */
  ghost predicate WellFiled(judge: string -> Verdict) {
    forall raw :: judge(raw).Near? ==> Lower(judge(raw).ranked.name) == judge(raw).lower
  }

  predicate DistinctLower(s: seq<RankedName>) {
    forall i, j | 0 <= i < j < |s| :: Lower(s[i].name) != Lower(s[j].name)
  }

  ghost predicate Offers(judge: string -> Verdict, names: seq<string>, r: RankedName) {
    exists raw | raw in names :: judge(raw).Near? && judge(raw).ranked == r
  }

  ghost predicate Mentions(judge: string -> Verdict, names: seq<string>, lower: string) {
    exists raw | raw in names :: !judge(raw).Unusable? && judge(raw).lower == lower
  }

  lemma {:induction false} CollectMeaning(judge: string -> Verdict, names: seq<string>)
    requires WellFiled(judge)
    ensures var c := Collect(judge, names);
            && DistinctLower(c.ranked)
            && (forall r | r in c.ranked :: Lower(r.name) in c.seen && Offers(judge, names, r))
            && (forall lower :: lower in c.seen <==> Mentions(judge, names, lower))
  {
    if names != [] {
      var before, last := names[..|names| - 1], names[|names| - 1];
      assert names == before + [last];
      CollectMeaning(judge, before);
      var c, v := Collect(judge, before), judge(last);
      forall lower ensures Mentions(judge, names, lower)
          <==> Mentions(judge, before, lower) || (!v.Unusable? && v.lower == lower) {
        if !v.Unusable? && v.lower == lower {
          assert last in names;
        }
      }
      forall r ensures Offers(judge, before, r) || (v.Near? && v.ranked == r) ==> Offers(judge, names, r) {
        assert last in names;
      }
    }
  }

  /** When the inputs are distinct after trimming and lower-casing, every candidate is kept. */
  ghost predicate DistinctInputs(judge: string -> Verdict, names: seq<string>) {
    forall i, j | 0 <= i < j < |names| && !judge(names[i]).Unusable? && !judge(names[j]).Unusable? ::
      judge(names[i]).lower != judge(names[j]).lower
  }

  lemma {:induction false} CollectKeepsAll(judge: string -> Verdict, names: seq<string>, r: RankedName)
    requires WellFiled(judge) && DistinctInputs(judge, names)
    ensures r in Collect(judge, names).ranked <==> Offers(judge, names, r)
  {
    CollectMeaning(judge, names);
    if names != [] {
      var before, last := names[..|names| - 1], names[|names| - 1];
      assert names == before + [last];
      CollectKeepsAll(judge, before, r);
      CollectMeaning(judge, before);
    }
  }

  /** The ranking is strictly sorted by the four keys, so the twelve returned are the smallest. */
  lemma RankingSorted(judge: string -> Verdict, names: seq<string>)
    requires WellFiled(judge)
    ensures StrictlySorted(SortRanked(Collect(judge, names).ranked))
    ensures forall r :: r in SortRanked(Collect(judge, names).ranked) <==> r in Collect(judge, names).ranked
  {
    var ranked := Collect(judge, names).ranked;
    var sorted := SortRanked(ranked);
    CollectMeaning(judge, names);
    SortSorts(ranked);
    forall r ensures r in sorted <==> r in ranked {
      assert r in sorted <==> r in multiset(sorted);
    }
    DistinctHaveNoDuplicates(ranked);
    forall i, j | 0 <= i < j < |sorted| ensures Before(sorted[i], sorted[j]) {
      BeforeTotal(sorted[i], sorted[j]);
      if sorted[i] == sorted[j] {
        TwiceInMultiset(sorted, i, j);
      }
    }
  }

  lemma {:induction false} DistinctHaveNoDuplicates(s: seq<RankedName>)
    requires DistinctLower(s)
    ensures forall r :: multiset(s)[r] <= 1
  {
    if s != [] {
      var front, last := s[..|s| - 1], s[|s| - 1];
      DistinctHaveNoDuplicates(front);
      assert s == front + [last];
      assert last !in front;
      assert multiset(s) == multiset(front) + multiset{last};
    }
  }

  lemma TwiceInMultiset<T>(s: seq<T>, i: nat, j: nat)
    requires i < j < |s| && s[i] == s[j]
    ensures multiset(s)[s[i]] >= 2
  {
    assert s == s[..j] + s[j..];
    assert s[i] in multiset(s[..j]) && s[j] in multiset(s[j..]) by {
      assert s[..j][i] == s[i] && s[j..][0] == s[j];
    }
  }

  lemma JudgeWellFiled(fuzzy: (string, string) -> int, needle: string)
    requires needle != []
    ensures WellFiled(Judging(fuzzy, needle))
  {
  }

  lemma SortedDistinct(judge: string -> Verdict, names: seq<string>)
    requires WellFiled(judge)
    ensures DistinctLower(SortRanked(Collect(judge, names).ranked))
  {
    var ranked := Collect(judge, names).ranked;
    var sorted := SortRanked(ranked);
    RankingSorted(judge, names);
    CollectMeaning(judge, names);
    forall i, j | 0 <= i < j < |sorted| ensures Lower(sorted[i].name) != Lower(sorted[j].name) {
      BeforeTotal(sorted[i], sorted[i]);
      assert sorted[i] != sorted[j] && sorted[i] in ranked && sorted[j] in ranked;
    }
  }

  /** Cutting a strictly sorted list keeps its smallest elements. */
  lemma TakeSmallest(all: seq<RankedName>, n: nat, r: RankedName, s: RankedName)
    requires StrictlySorted(all) && r in Take(all, n) && s in all && s !in Take(all, n)
    ensures Before(r, s)
  {
    var i :| 0 <= i < |Take(all, n)| && Take(all, n)[i] == r;
    var j :| 0 <= j < |all| && all[j] == s;
    assert forall k | 0 <= k < |Take(all, n)| :: Take(all, n)[k] == all[k];
  }

  /** What a candidate of the real judge is. */
  ghost predicate Eligible(fuzzy: (string, string) -> int, needle: string, r: RankedName)
    requires needle != []
  {
    Usable(needle, r.name) && Plausible(needle, r.name) && r == RankOf(fuzzy, needle, r.name)
  }

  lemma NearIsEligible(fuzzy: (string, string) -> int, needle: string, raw: string)
    requires needle != [] && Judge(fuzzy, needle, raw).Near?
    ensures var r := Judge(fuzzy, needle, raw).ranked; r.name == Trim(raw) && Eligible(fuzzy, needle, r)
  {
  }

  lemma OfferedMeaning(fuzzy: (string, string) -> int, needle: string, judge: string -> Verdict, inputs: seq<string>,
      r: RankedName)
    requires needle != [] && Offers(judge, inputs, r) && forall raw :: judge(raw) == Judge(fuzzy, needle, raw)
    ensures Eligible(fuzzy, needle, r) && exists n | n in inputs :: Trim(n) == r.name
  {
    var raw :| raw in inputs && judge(raw).Near? && judge(raw).ranked == r;
    NearIsEligible(fuzzy, needle, raw);
  }

  /** Every ranked name comes from an input, differs from the needle and from every other ranked name
      even ignoring letter case, is within the allowed distance and carries its true keys; the list
      is strictly ordered, and cutting it keeps names that rank before all those cut off. */
  lemma RankingMeaning(fuzzy: (string, string) -> int, needle: string, names: seq<string>)
    requires needle != []
    ensures var all := Ranking(fuzzy, needle, names);
            && DistinctLower(all) && StrictlySorted(all)
            && (forall r | r in all :: Eligible(fuzzy, needle, r) && exists n | n in Take(names, MAX_RANKED_INPUTS) ::
               Trim(n) == r.name)
            && (forall r, s | r in Take(all, MAX_RANKED_NAMES) && s in all && s !in Take(all, MAX_RANKED_NAMES) ::
               Before(r, s))
  {
    var judge := Judging(fuzzy, needle);
    var inputs := Take(names, MAX_RANKED_INPUTS);
    JudgeWellFiled(fuzzy, needle);
    RankingSorted(judge, inputs);
    SortedDistinct(judge, inputs);
    CollectMeaning(judge, inputs);
    var all := Ranking(fuzzy, needle, names);
    forall r | r in all
      ensures Eligible(fuzzy, needle, r) && exists n | n in inputs :: Trim(n) == r.name
    {
      OfferedMeaning(fuzzy, needle, judge, inputs, r);
    }
    forall r, s | r in Take(all, MAX_RANKED_NAMES) && s in all && s !in Take(all, MAX_RANKED_NAMES)
      ensures Before(r, s)
    {
      TakeSmallest(all, MAX_RANKED_NAMES, r, s);
    }
  }

  /** The strings agree up to a place where the first one ends or has the smaller character. */
  predicate SmallerFrom(a: string, b: string, n: nat) {
    n <= |a| && n < |b| && a[..n] == b[..n] && (n == |a| || a[n] < b[n])
  }

  lemma SmallerStart(a: string, b: string, n: nat)
    ensures SmallerFrom(a, b, n) && n > 0 ==> a != [] && b != [] && a[0] == b[0]
  {
    if SmallerFrom(a, b, n) && n > 0 {
      assert a[..n][0] == b[..n][0];
    }
  }

  lemma {:induction false} TextBeforeMeaning(a: string, b: string)
    ensures TextBefore(a, b) <==> exists n: nat :: SmallerFrom(a, b, n)
  {
    if a == [] || b == [] || a[0] != b[0] {
      assert TextBefore(a, b) <==> SmallerFrom(a, b, 0);
      forall n: nat
        ensures SmallerFrom(a, b, n) ==> n == 0
      {
        SmallerStart(a, b, n);
      }
    } else {
      TextBeforeMeaning(a[1..], b[1..]);
      forall n: nat
        ensures SmallerFrom(a, b, n + 1) <==> SmallerFrom(a[1..], b[1..], n)
      {
        SmallerLater(a, b, n);
      }
      if n: nat :| SmallerFrom(a[1..], b[1..], n) {
        assert SmallerFrom(a, b, n + 1);
      }
      if n: nat :| SmallerFrom(a, b, n) {
        assert n > 0 && SmallerFrom(a[1..], b[1..], n - 1);
      }
    }
  }

  lemma SmallerLater(a: string, b: string, n: nat)
    requires a != [] && b != [] && a[0] == b[0]
    ensures SmallerFrom(a, b, n + 1) <==> SmallerFrom(a[1..], b[1..], n)
  {
    if n + 1 <= |a| && n + 1 <= |b| {
      assert a[..n + 1] == [a[0]] + a[1..][..n] && b[..n + 1] == [b[0]] + b[1..][..n];
    }
  }

  /** The order of what is returned, key by key: closer first; of equally close names the better score; of
      these the one nearer in length; and last the alphabetically smaller name. */
  lemma RankingOrder(fuzzy: (string, string) -> int, needle: string, names: seq<string>, i: nat, j: nat)
    requires needle != [] && i < j < |Ranking(fuzzy, needle, names)|
    ensures var x, y := Ranking(fuzzy, needle, names)[i], Ranking(fuzzy, needle, names)[j];
            && x.distance <= y.distance
            && (x.distance == y.distance ==> x.fuzzyScore >= y.fuzzyScore)
            && (x.distance == y.distance && x.fuzzyScore == y.fuzzyScore ==> x.lengthDelta <= y.lengthDelta)
            && (x.distance == y.distance && x.fuzzyScore == y.fuzzyScore && x.lengthDelta == y.lengthDelta ==>
                  exists n: nat :: SmallerFrom(x.name, y.name, n))
  {
    RankingMeaning(fuzzy, needle, names);
    var all := Ranking(fuzzy, needle, names);
    assert Before(all[i], all[j]);
    TextBeforeMeaning(all[i].name, all[j].name);
  }

  /** Nothing plausible among the first 50,000 inputs is missing from the ranking: some spelling of it
      is there. */
  lemma RankingComplete(fuzzy: (string, string) -> int, needle: string, names: seq<string>, raw: string)
    requires needle != [] && raw in Take(names, MAX_RANKED_INPUTS)
    requires Usable(needle, Trim(raw)) && Plausible(needle, Trim(raw))
    ensures exists r | r in Ranking(fuzzy, needle, names) :: Lower(r.name) == Lower(Trim(raw))
  {
    JudgeWellFiled(fuzzy, needle);
    JudgesByLower(fuzzy, needle, Lower(Trim(raw)));
    CompleteFor(Judging(fuzzy, needle), Take(names, MAX_RANKED_INPUTS), raw, Lower(Trim(raw)));
  }

  lemma CompleteFor(judge: string -> Verdict, inputs: seq<string>, raw: string, lower: string)
    requires WellFiled(judge) && AlwaysNear(judge, lower)
    requires raw in inputs && !judge(raw).Unusable? && judge(raw).lower == lower
    ensures exists r | r in SortRanked(Collect(judge, inputs).ranked) :: Lower(r.name) == lower
  {
    RankingSorted(judge, inputs);
    CollectMeaning(judge, inputs);
    SeenIsRanked(judge, inputs, lower);
  }

  /** Whether a lower-case spelling is close enough, which is all that Plausible looks at. */
  predicate LowerPlausible(needle: string, lower: string)
    requires needle != [] && lower != []
  {
    var distance := EditDistance.Distance(Lower(needle), lower);
    distance <= MaxDistance(needle) && (Lower(needle)[0] == lower[0] || distance <= 1)
  }

  /** Every input spelled `lower` is a candidate. */
  ghost predicate AlwaysNear(judge: string -> Verdict, lower: string) {
    forall raw | !judge(raw).Unusable? && judge(raw).lower == lower :: judge(raw).Near?
  }

  lemma JudgesByLower(fuzzy: (string, string) -> int, needle: string, lower: string)
    requires needle != [] && lower != [] && LowerPlausible(needle, lower)
    ensures AlwaysNear(Judging(fuzzy, needle), lower)
  {
  }

  lemma {:induction false} SeenIsRanked(judge: string -> Verdict, names: seq<string>, lower: string)
    requires WellFiled(judge) && AlwaysNear(judge, lower)
    ensures var c := Collect(judge, names);
            lower in c.seen ==> exists r | r in c.ranked :: Lower(r.name) == lower
  {
    if names != [] {
      var before, last := names[..|names| - 1], names[|names| - 1];
      SeenIsRanked(judge, before, lower);
      var c, v := Collect(judge, before), judge(last);
      var c' := Collect(judge, names);
      if lower in c.seen {
        var r :| r in c.ranked && Lower(r.name) == lower;
        assert r in c'.ranked;
      } else if lower in c'.seen {
        assert c'.ranked == c.ranked + [v.ranked];
      }
    }
  }

  lemma OrderIrrelevant(judge: string -> Verdict, names: seq<string>, permuted: seq<string>)
    requires WellFiled(judge) && DistinctInputs(judge, names) && DistinctInputs(judge, permuted)
    requires multiset(names) == multiset(permuted)
    ensures SortRanked(Collect(judge, names).ranked) == SortRanked(Collect(judge, permuted).ranked)
  {
    RankingSorted(judge, names);
    RankingSorted(judge, permuted);
    assert forall raw :: raw in names <==> raw in multiset(names);
    assert forall raw :: raw in permuted <==> raw in multiset(permuted);
    forall r ensures r in Collect(judge, names).ranked <==> r in Collect(judge, permuted).ranked {
      CollectKeepsAll(judge, names, r);
      CollectKeepsAll(judge, permuted, r);
    }
    StrictlySortedUnique(SortRanked(Collect(judge, names).ranked), SortRanked(Collect(judge, permuted).ranked));
  }

  ghost predicate DistinctNames(names: seq<string>) {
    forall i, j | 0 <= i < j < |names| :: Lower(Trim(names[i])) != Lower(Trim(names[j]))
  }

  lemma DistinctNamesAreInputs(fuzzy: (string, string) -> int, needle: string, names: seq<string>)
    requires needle != [] && DistinctNames(names)
    ensures DistinctInputs(Judging(fuzzy, needle), names)
  {
  }

  /** The order of the inputs does not matter when at most 50,000 are given and no two agree after
      trimming and lower-casing. */
  lemma RankingIgnoresOrder(fuzzy: (string, string) -> int, needle: string, names: seq<string>, permuted: seq<string>)
    requires needle != [] && |names| <= MAX_RANKED_INPUTS && multiset(names) == multiset(permuted)
    requires DistinctNames(names) && DistinctNames(permuted)
    ensures Ranking(fuzzy, needle, names) == Ranking(fuzzy, needle, permuted)
  {
    assert |names| == |multiset(names)| == |permuted|;
    JudgeWellFiled(fuzzy, needle);
    DistinctNamesAreInputs(fuzzy, needle, names);
    DistinctNamesAreInputs(fuzzy, needle, permuted);
    OrderIrrelevant(Judging(fuzzy, needle), names, permuted);
  }
}
