/** replace_shell_word: a verified name correction replaces one argument and nothing else. */
module ShellReplace {
  import opened Outcomes
  import opened Sequences
  import opened ShellLexer

  /** is_shell_word_character; whether a character beyond ASCII is alphanumeric is Unicode's to say. */
  predicate IsWordCharacter(alphanumeric: char -> bool, c: char) {
    if c as int >= 0x80 then alphanumeric(c)
    else '0' <= c <= '9' || 'a' <= c <= 'z' || 'A' <= c <= 'Z' || c in {'_', '-', '+', '.', '/', ':', '@', '%'}
  }

  ghost predicate IsWord(alphanumeric: char -> bool, text: string) {
    text != [] && forall i | 0 <= i < |text| :: IsWordCharacter(alphanumeric, text[i])
  }

  /** The characters of argument span `span` that spell `from`: all of them, or those inside a pair of
      equal quotes. */
  function MatchIn(command: string, span: Span, from: string): Option<Span> {
    var raw := Slice(command, span);
    if raw == from then Some(span)
    else if |raw| >= 2 && raw[0] in {'\'', '"'} && raw[0] == raw[|raw| - 1] && raw[1..|raw| - 1] == from
    then Some(Span(span.start + 1, if span.end > 0 then span.end - 1 else 0))
    else None
  }

  /** The test above, for every span of one command. */
  function Spelling(command: string, from: string): Span -> Option<Span> {
    span => MatchIn(command, span, from)
  }

  /** The first `n` spans that pass a test, each with its number. */
  function Matches(test: Span -> Option<Span>, spans: seq<Span>, n: nat): (ms: seq<(nat, Span)>)
    requires n <= |spans|
    ensures forall m | m in ms :: m.0 < n && test(spans[m.0]) == Some(m.1)
  {
    if n == 0 then []
    else
      var before := Matches(test, spans, n - 1);
      match test(spans[n - 1])
      case None => before
      case Some(s) => before + [(n - 1, s)]
  }

  /** Span `k` and no other passes. */
  ghost predicate OnlyMatchIs(test: Span -> Option<Span>, spans: seq<Span>, k: nat) {
    && k < |spans| && test(spans[k]).Some?
    && forall j | 0 <= j < |spans| && j != k :: test(spans[j]).None?
  }

  /** replace_shell_word. */
  function ReplaceShellWord(alphanumeric: char -> bool, command: string, from: string, name: string): Option<string> {
    if from == [] || name == [] || from == name || exists i | 0 <= i < |name| :: !IsWordCharacter(alphanumeric, name[i])
        then None
    else
      var matches := Matches(Spelling(command, from), Spans(command), |Spans(command)|);
      if |matches| != 1 then None
      else
        var span := matches[0].1;
        if span.start <= span.end <= |command| then Some(command[..span.start] + name + command[span.end..]) else None
  }

  // ---------------------------------------------------------------- lexing the replacement

  predicate IsPlain(m: Mode, c: char) {
    m.escaped == false && Advance(m, c) == m && Pushed(m, c) == [c] && (m == START ==> !IsBreak(c))
  }

  lemma WordCharactersArePlain(alphanumeric: char -> bool, text: string, m: Mode)
    requires IsWord(alphanumeric, text) && !m.escaped
    ensures forall i | 0 <= i < |text| :: IsPlain(m, text[i])
  {
  }

  lemma {:induction false} LexPlain(l: Lex, text: string)
    requires text != [] && forall i | 0 <= i < |text| :: IsPlain(l.mode, text[i])
    ensures LexFrom(l, text) == l.(word := Some((if l.word.Some? then l.word.value else "") + text))
  {
    var front, c := text[..|text| - 1], text[|text| - 1];
    var w := if l.word.Some? then l.word.value else "";
    assert IsPlain(l.mode, c);
    assert text == front + [c];
    if front == [] {
      assert w + [c] == w + text;
    } else {
      LexPlain(l, front);
      assert (w + front) + [c] == w + text;
    }
  }

  lemma LexOpenQuote(l: Lex, quote: char)
    requires l.mode == START && l.word.None? && (quote == '\'' || quote == '"')
    ensures LexFrom(l, [quote]) == l.(mode := Advance(START, quote), word := Some(""))
  {
    LexOne(l, quote);
    EmptyAppend<char>("");
  }

  lemma LexCloseQuote(l: Lex, quote: char)
    requires (quote == '\'' || quote == '"') && l.mode == Advance(START, quote) && l.word.Some?
    ensures LexFrom(l, [quote]) == l.(mode := START)
  {
    LexOne(l, quote);
    EmptyAppend(l.word.value);
  }

  /** A name in quotes, read between words, is that name in progress. */
  lemma LexQuotedName(alphanumeric: char -> bool, l: Lex, name: string, quote: char)
    requires IsWord(alphanumeric, name) && l.mode == START && l.word.None? && (quote == '\'' || quote == '"')
    ensures LexFrom(l, [quote] + name + [quote]) == l.(word := Some(name))
  {
    var inside := l.(mode := Advance(START, quote), word := Some(""));
    LexOpenQuote(l, quote);
    WordCharactersArePlain(alphanumeric, name, inside.mode);
    LexPlain(inside, name);
    EmptyAppend(name);
    LexAppend(l, [quote], name);
    LexAppend(l, [quote] + name, [quote]);
    LexCloseQuote(inside.(word := Some(name)), quote);
  }

  /** Read between words, the new name, bare or in quotes, is that name in progress. */
  lemma LexNewName(alphanumeric: char -> bool, l: Lex, name: string, quote: string)
    requires IsWord(alphanumeric, name) && l.mode == START && l.word.None?
    requires quote == "" || quote == "'" || quote == "\""
    ensures LexFrom(l, quote + name + quote) == l.(word := Some(name))
  {
    EmptyAppend(name);
    if quote == "" {
      WordCharactersArePlain(alphanumeric, name, START);
      LexPlain(l, name);
    } else {
      SplitLast(quote);
      LexQuotedName(alphanumeric, l, name, quote[0]);
    }
  }

  /** After a break, the rest of the text adds the same words behind any word that ended there. */
  lemma LexAfterWord(words: seq<string>, word: string, rest: string) returns (added: seq<string>)
    requires rest != [] && IsBreak(rest[0])
    ensures EndWord(LexFrom(Lex(START, Some(word), false, words), rest)).words == words + [word] + added
    ensures added == EndWord(LexFrom(LexChar(LEX_START, rest[0]), rest[1..])).words
  {
    var l := Lex(START, Some(word), false, words);
    LexCons(l, rest);
    var after := LexChar(l, rest[0]);
    assert after == LexChar(LEX_START, rest[0]).(words := words + [word]);
    LexWordsPrefix(after, rest[1..]);
    var alone := LexFrom(LexChar(LEX_START, rest[0]), rest[1..]);
    EndWordPrefix(alone, words + [word]);
    added := EndWord(alone).words;
  }

  /** Two lexers at the end of different words, before the same rest: the final lists differ in that
      word only. */
  lemma LexRest(words: seq<string>, was: string, now: string, mode: Mode, rest: string)
    requires rest == [] || (IsBreak(rest[0]) && mode == START)
    ensures var first, second := EndWord(LexFrom(Lex(mode, Some(was), false, words), rest)).words,
            EndWord(LexFrom(Lex(START, Some(now), false, words), rest)).words;
            |words| < |first| && second == first[|words| := now]
  {
    if rest != [] {
      var added := LexAfterWord(words, was, rest);
      var same := LexAfterWord(words, now, rest);
      UpdateMiddle(words, was, now, added);
    }
  }

  lemma EndWordPrefix(l: Lex, before: seq<string>)
    ensures EndWord(l.(words := before + l.words)).words == before + EndWord(l).words
  {
  }

  /** The raw spelling of a matching span around the replaced characters: nothing, or one quote on
      either side. */
  lemma MatchShape(command: string, k: nat, from: string) returns (quote: string)
    requires k < |Spans(command)| && MatchIn(command, Spans(command)[k], from).Some?
    ensures quote == "" || quote == "'" || quote == "\""
    ensures var s, m := Spans(command)[k], MatchIn(command, Spans(command)[k], from).value;
            && s.start < s.end <= |command| && s.start <= m.start <= m.end <= s.end
            && command[m.start..m.end] == from
            && command[..m.start] == command[..s.start] + quote && command[m.end..] == quote + command[s.end..]
  {
    SpanBounds(command, k);
    var s := Spans(command)[k];
    var raw := command[s.start..s.end];
    if raw == from {
      return "";
    }
    QuotedShape(command, s.start, s.end);
    quote := [raw[0]];
  }

  /** The text around and inside the first and last characters of a slice. */
  lemma QuotedShape(command: string, start: nat, end: nat)
    requires start + 2 <= end <= |command|
    ensures command[start..end][0] == command[start] && command[start..end][end - start - 1] == command[end - 1]
    ensures command[start..end][1..end - start - 1] == command[start + 1..end - 1]
    ensures command[..start + 1] == command[..start] + [command[start]]
    ensures command[end - 1..] == [command[end - 1]] + command[end..]
  {
    TakeGrows(command, start);
    DropGrows(command, end - 1);
    SliceSlice(command, start, end, 1, end - start - 1);
  }

  /** Lexing the edited text up to the end of the edited argument. */
  lemma LexEdited(alphanumeric: char -> bool, before: string, quote: string, name: string, rest: string,
      words: seq<string>)
    requires IsWord(alphanumeric, name) && (quote == "" || quote == "'" || quote == "\"")
    requires LexFrom(LEX_START, before) == Lex(START, None, false, words)
    ensures LexFrom(LEX_START, (before + quote) + name + (quote + rest))
            == LexFrom(Lex(START, Some(name), false, words), rest)
  {
    Regroup(before, quote, name, rest);
    LexAppend(LEX_START, before, quote + name + quote);
    LexNewName(alphanumeric, Lex(START, None, false, words), name, quote);
    LexAppend(LEX_START, before + (quote + name + quote), rest);
  }

  lemma LexSplit(command: string, end: nat)
    requires end <= |command|
    ensures LexFrom(LEX_START, command) == LexFrom(LexFrom(LEX_START, command[..end]), command[end..])
  {
    assert command == command[..end] + command[end..];
    LexAppend(LEX_START, command[..end], command[end..]);
  }

  lemma ReplacedWords(alphanumeric: char -> bool, command: string, k: nat, from: string, name: string)
    requires IsWord(alphanumeric, name) && k < |Spans(command)| && MatchIn(command, Spans(command)[k], from).Some?
    ensures var m := MatchIn(command, Spans(command)[k], from).value;
            && m.start <= m.end <= |command| && k < |LexWords(command)|
            && LexWords(command[..m.start] + name + command[m.end..]) == LexWords(command)[k := name]
  {
    var quote := MatchShape(command, k, from);
    SpanFacts(command, k);
    var s := Spans(command)[k];
    ReplacedSpan(alphanumeric, command, s, k, LexWords(command), quote, name);
  }

  lemma ReplacedSpan(alphanumeric: char -> bool, command: string, s: Span, k: nat, words: seq<string>, quote: string,
      name: string)
    requires IsWord(alphanumeric, name) && (quote == "" || quote == "'" || quote == "\"")
    requires SpanOk(command, s, k, words) && words == LexWords(command)
    ensures LexWords((command[..s.start] + quote) + name + (quote + command[s.end..])) == words[k := name]
  {
    var rest := command[s.end..];
    LexEdited(alphanumeric, command[..s.start], quote, name, rest, words[..k]);
    LexSplit(command, s.end);
    var d := DecodeFrom(DECODE_START, command[s.start..s.end]);
    LexRest(words[..k], d.value, name, d.mode, rest);
  }

  lemma Regroup(a: string, q: string, n: string, r: string)
    ensures (a + q) + n + (q + r) == (a + (q + n + q)) + r
  {
  }

  // ---------------------------------------------------------------- control markers

  const MARKERS: seq<string> := ["&&", "||", ";", "|", "&", ">", "<", "$(", "`"]

  ghost predicate MarkerAt(text: string, i: nat, marker: string) {
    i + |marker| <= |text| && text[i..i + |marker|] == marker
  }

  ghost predicate Contains(text: string, marker: string) {
    exists i: nat :: MarkerAt(text, i, marker)
  }

  /** syntax_markers: the control markers a command contains. */
  ghost function SyntaxMarkers(command: string): set<string> {
    set m | m in MARKERS && Contains(command, m)
  }

  lemma MarkersAreNotWords(alphanumeric: char -> bool, marker: string)
    requires marker in MARKERS
    ensures marker != [] && forall i | 0 <= i < |marker| :: !IsWordCharacter(alphanumeric, marker[i])
  {
  }

  lemma InFirst(a: string, b: string, c: string, i: nat, j: nat)
    requires i <= j <= |a|
    ensures (a + b + c)[i..j] == a[i..j]
  {
  }

  lemma InLast(a: string, b: string, c: string, i: nat, j: nat)
    requires i <= j <= |c|
    ensures (a + b + c)[|a| + |b| + i..|a| + |b| + j] == c[i..j]
  {
  }

  /** A marker in the edited text lies wholly before or wholly after the new name. */
  lemma NoNewMarker(alphanumeric: char -> bool, before: string, name: string, from: string, after: string,
      marker: string)
    requires IsWord(alphanumeric, name) && marker in MARKERS && Contains(before + name + after, marker)
    ensures Contains(before + from + after, marker)
  {
    MarkersAreNotWords(alphanumeric, marker);
    var text, was := before + name + after, before + from + after;
    var n := |marker|;
    var i: nat :| MarkerAt(text, i, marker);
    MarkerAvoidsName(alphanumeric, before, name, after, marker, i);
    if i + n <= |before| {
      InFirst(before, name, after, i, i + n);
      InFirst(before, from, after, i, i + n);
      assert MarkerAt(was, i, marker);
    } else {
      var at := i - |before| - |name|;
      var j := |before| + |from| + at;
      InLast(before, name, after, at, at + n);
      InLast(before, from, after, at, at + n);
      assert MarkerAt(was, j, marker);
    }
  }

  lemma MarkerAvoidsName(alphanumeric: char -> bool, before: string, name: string, after: string, marker: string,
      i: nat)
    requires IsWord(alphanumeric, name) && marker in MARKERS && MarkerAt(before + name + after, i, marker)
    ensures i + |marker| <= |before| || i >= |before| + |name|
  {
    MarkersAreNotWords(alphanumeric, marker);
    var text := before + name + after;
    assert forall j | 0 <= j < |marker| :: text[i + j] == text[i..i + |marker|][j] == marker[j];
    assert forall j | 0 <= j < |name| :: text[|before| + j] == name[j];
    var at := if i < |before| then |before| else i;
    assert at - i < |marker| ==> text[i + (at - i)] == marker[at - i];
    assert at - |before| < |name| ==> text[|before| + (at - |before|)] == name[at - |before|];
  }

  // ---------------------------------------------------------------- the result

  lemma MarkersKept(alphanumeric: char -> bool, command: string, m: Span, name: string)
    requires IsWord(alphanumeric, name) && m.start <= m.end <= |command|
    ensures SyntaxMarkers(command[..m.start] + name + command[m.end..]) <= SyntaxMarkers(command)
  {
    var before, from, after := command[..m.start], command[m.start..m.end], command[m.end..];
    assert command == before + from + after;
    forall marker | marker in SyntaxMarkers(before + name + after) ensures marker in SyntaxMarkers(command) {
      NoNewMarker(alphanumeric, before, name, from, after, marker);
    }
  }

  /** A correction is returned exactly when both names are usable and one argument only spells the old
      one; it is the command with those characters replaced. */
  lemma ReplaceExactly(alphanumeric: char -> bool, command: string, from: string, name: string)
    ensures ReplaceShellWord(alphanumeric, command, from, name).Some? <==>
            && from != [] && from != name && IsWord(alphanumeric, name)
            && exists k: nat :: OnlyMatchIs(Spelling(command, from), Spans(command), k)
    ensures forall k: nat | OnlyMatchIs(Spelling(command, from), Spans(command), k)
            && ReplaceShellWord(alphanumeric, command, from, name).Some? ::
              var m := MatchIn(command, Spans(command)[k], from).value;
              && m.start <= m.end <= |command|
              && ReplaceShellWord(alphanumeric, command, from, name)
                 == Some(command[..m.start] + name + command[m.end..])
  {
    var test, spans := Spelling(command, from), Spans(command);
    forall k: nat | OnlyMatchIs(test, spans, k)
      ensures Matches(test, spans, |spans|) == [(k, MatchIn(command, spans[k], from).value)]
      ensures var m := MatchIn(command, spans[k], from).value; m.start <= m.end <= |command|
    {
      OnlyMatch(test, spans, |spans|, k);
      var quote := MatchShape(command, k, from);
    }
    if |Matches(test, spans, |spans|)| == 1 {
      OneMatchIsOnly(test, spans);
    }
  }

  /** The characters of an argument spell the name, bare or in one pair of either quotes. */
  predicate Spells(raw: string, name: string) {
    raw == name || raw == "'" + name + "'" || raw == "\"" + name + "\""
  }

  /** The raw text of argument `k` spells the name, and that of no other argument does. */
  ghost predicate OnlySpelledAt(command: string, name: string, k: nat) {
    && k < |Spans(command)| && Spells(Slice(command, Spans(command)[k]), name)
    && forall j | 0 <= j < |Spans(command)| && j != k :: !Spells(Slice(command, Spans(command)[j]), name)
  }

  lemma MatchSpells(command: string, span: Span, name: string)
    ensures MatchIn(command, span, name).Some? <==> Spells(Slice(command, span), name)
  {
    var raw := Slice(command, span);
    if |raw| >= 2 && raw[0] == raw[|raw| - 1] {
      assert raw == [raw[0]] + raw[1..|raw| - 1] + [raw[0]];
    }
    assert ("'" + name + "'")[1..|name| + 1] == name && ("\"" + name + "\"")[1..|name| + 1] == name;
  }

  /** When a correction is returned, in terms of the text: both names are usable, and exactly one argument is
      written as the old name, bare or quoted. */
  lemma ReplacedIff(alphanumeric: char -> bool, command: string, from: string, name: string)
    ensures ReplaceShellWord(alphanumeric, command, from, name).Some? <==>
            && from != "" && name != "" && from != name
            && (forall i | 0 <= i < |name| :: IsWordCharacter(alphanumeric, name[i]))
            && exists k: nat :: OnlySpelledAt(command, from, k)
  {
    ReplaceExactly(alphanumeric, command, from, name);
    forall k: nat
      ensures OnlySpelledAt(command, from, k) <==> OnlyMatchIs(Spelling(command, from), Spans(command), k)
    {
      SpelledIsMatch(command, from, k);
    }
  }

  lemma SpelledIsMatch(command: string, from: string, k: nat)
    ensures OnlySpelledAt(command, from, k) <==> OnlyMatchIs(Spelling(command, from), Spans(command), k)
  {
    forall j | 0 <= j < |Spans(command)|
      ensures Spelling(command, from)(Spans(command)[j]).Some? <==> Spells(Slice(command, Spans(command)[j]), from)
    {
      MatchSpells(command, Spans(command)[j], from);
    }
  }

  lemma OneMatchIsOnly(test: Span -> Option<Span>, spans: seq<Span>)
    requires |Matches(test, spans, |spans|)| == 1
    ensures OnlyMatchIs(test, spans, Matches(test, spans, |spans|)[0].0)
  {
    var matches := Matches(test, spans, |spans|);
    assert matches[0] in matches;
    forall j | 0 <= j < |spans| && j != matches[0].0 ensures test(spans[j]).None? {
      if test(spans[j]).Some? {
        MatchesComplete(test, spans, |spans|, j);
      }
    }
  }

  /** What is returned: the argument list changes in exactly one entry, to the new name; the characters
      outside that argument are untouched; no shell control marker is added. */
  lemma ReplaceChangesOneWord(alphanumeric: char -> bool, command: string, from: string, name: string, k: nat)
    requires ReplaceShellWord(alphanumeric, command, from, name).Some?
             && OnlyMatchIs(Spelling(command, from), Spans(command), k)
    ensures var result := ReplaceShellWord(alphanumeric, command, from, name).value;
            var m := MatchIn(command, Spans(command)[k], from).value;
            && m.start <= m.end <= |command| && command[m.start..m.end] == from
            && result == command[..m.start] + name + command[m.end..]
            && ShellWords(result) == ShellWords(command)[k := name]
            && SyntaxMarkers(result) <= SyntaxMarkers(command)
  {
    ReplaceExactly(alphanumeric, command, from, name);
    var quote := MatchShape(command, k, from);
    var m := MatchIn(command, Spans(command)[k], from).value;
    ReplacedWords(alphanumeric, command, k, from, name);
    MarkersKept(alphanumeric, command, m, name);
    ShellWordsIsLex(command);
    ShellWordsIsLex(command[..m.start] + name + command[m.end..]);
  }

  lemma {:induction false} MatchesComplete(test: Span -> Option<Span>, spans: seq<Span>, n: nat, j: nat)
    requires j < n <= |spans| && test(spans[j]).Some?
    ensures exists m | m in Matches(test, spans, n) :: m.0 == j
  {
    var all := Matches(test, spans, n);
    if j == n - 1 {
      assert all[|all| - 1].0 == j;
    } else {
      MatchesComplete(test, spans, n - 1, j);
      var m :| m in Matches(test, spans, n - 1) && m.0 == j;
      assert m in all;
    }
  }

  lemma {:induction false} OnlyMatch(test: Span -> Option<Span>, spans: seq<Span>, n: nat, k: nat)
    requires n <= |spans| && OnlyMatchIs(test, spans, k)
    ensures Matches(test, spans, n) == if k < n then [(k, test(spans[k]).value)] else []
  {
    if n > 0 {
      OnlyMatch(test, spans, n - 1, k);
    }
  }
}
