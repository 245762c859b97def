/** The lexical core of command correction: one quoting state shared by every scanner, the argument
    spans, the decoder, and a direct lexer that the two are proved to compose to. Text is a sequence
    of characters. */
module ShellLexer {
  import opened Outcomes
  import opened Sequences
  import opened Whitespace

  datatype Quote = Unquoted | Single | Double

  /** Where a scanner stands between two characters. */
  datatype Mode = Mode(quote: Quote, escaped: bool)

  const START := Mode(Unquoted, false)

  /** How one character moves every scanner: quotes open and close, a backslash outside single quotes
      takes the next character literally. */
  function Advance(m: Mode, c: char): Mode {
    if m.escaped then Mode(m.quote, false)
    else if Closes(m.quote, c) then START
    else if m.quote == Single then m
    else if c == '\\' then Mode(m.quote, true)
    else if m.quote == Unquoted && c == '\'' then Mode(Single, false)
    else if m.quote == Unquoted && c == '"' then Mode(Double, false)
    else m
  }

  predicate Closes(q: Quote, c: char) {
    (q == Single && c == '\'') || (q == Double && c == '"')
  }

  function ModeAfter(m: Mode, text: string): Mode {
    if text == [] then m else Advance(ModeAfter(m, text[..|text| - 1]), text[|text| - 1])
  }

  predicate IsRedirection(c: char) {
    c == '<' || c == '>'
  }

  predicate IsControl(c: char) {
    c == '|' || c == ';' || c == '&' || c == '(' || c == ')'
  }

  /** Ends an argument when neither quoted nor escaped. */
  predicate IsBreak(c: char) {
    IsAsciiWhitespace(c) || IsControl(c) || IsRedirection(c)
  }

  // ---------------------------------------------------------------- argument spans

  datatype Span = Span(start: nat, end: nat)

  datatype Scan = Scan(mode: Mode, start: Option<nat>, redirection: bool, spans: seq<Span>)

  const SCAN_START := Scan(START, None, false, [])

  /** One turn of shell_word_spans at index `i`. */
  function ScanChar(s: Scan, i: nat, c: char): Scan {
    if s.mode == START && IsBreak(c) then
      var ended := EndSpan(s, i);
      if IsRedirection(c) then ended.(redirection := true) else ended
    else s.(mode := Advance(s.mode, c), start := if s.start.Some? then s.start else Some(i))
  }

  /** Close the span in progress at `i`; the operand of a redirection is not an argument. */
  function EndSpan(s: Scan, i: nat): Scan {
    if s.start.None? then s
    else s.(start := None, redirection := false,
            spans := if s.redirection then s.spans else s.spans + [Span(s.start.value, i)])
  }

  function ScanFrom(text: string): Scan {
    if text == [] then SCAN_START
    else ScanChar(ScanFrom(text[..|text| - 1]), |text| - 1, text[|text| - 1])
  }

  function Spans(text: string): seq<Span> {
    EndSpan(ScanFrom(text), |text|).spans
  }

  // ---------------------------------------------------------------- decoding one word

  datatype Decoding = Decoding(mode: Mode, value: string)

  const DECODE_START := Decoding(START, "")

  /** One character of shell_word_value; a backslash waits for the character after it. */
  function DecodeChar(d: Decoding, c: char): Decoding {
    Decoding(Advance(d.mode, c), d.value + Pushed(d.mode, c))
  }

  /** The characters that `c` adds to the decoded value in this mode. */
  function Pushed(m: Mode, c: char): string {
    if m.escaped then
      if m.quote == Unquoted || c == '$' || c == '`' || c == '"' || c == '\\' then [c] else ['\\', c]
    else if Closes(m.quote, c) then []
    else if m.quote == Single then [c]
    else if c == '\\' then []
    else if m.quote == Unquoted && (c == '\'' || c == '"') then []
    else [c]
  }

  function DecodeFrom(d: Decoding, word: string): Decoding {
    if word == [] then d else DecodeChar(DecodeFrom(d, word[..|word| - 1]), word[|word| - 1])
  }

  /** A backslash with nothing after it stands for itself. */
  function DecodeEnd(d: Decoding): string {
    if d.mode.escaped then d.value + "\\" else d.value
  }

  function WordValue(word: string): string {
    DecodeEnd(DecodeFrom(DECODE_START, word))
  }

  function Slice(text: string, s: Span): string {
    if s.start <= s.end <= |text| then text[s.start..s.end] else ""
  }

  /** shell_words: the decoded argument spans. */
  function ShellWords(text: string): (ws: seq<string>)
    ensures |ws| == |Spans(text)|
  {
    var spans := Spans(text);
    seq(|spans|, i requires 0 <= i < |spans| => WordValue(Slice(text, spans[i])))
  }

  // ---------------------------------------------------------------- lexing directly

  /** Scanning and decoding in one pass: the decoded word in progress, and the words before it. */
  datatype Lex = Lex(mode: Mode, word: Option<string>, redirection: bool, words: seq<string>)

  const LEX_START := Lex(START, None, false, [])

  function LexChar(l: Lex, c: char): Lex {
    if l.mode == START && IsBreak(c) then
      var ended := EndWord(l);
      if IsRedirection(c) then ended.(redirection := true) else ended
    else l.(mode := Advance(l.mode, c), word := Some((if l.word.Some? then l.word.value else "") + Pushed(l.mode, c)))
  }

  function EndWord(l: Lex): Lex {
    if l.word.None? then l
    else l.(word := None, redirection := false,
            words := if l.redirection then l.words else l.words + [DecodeEnd(Decoding(l.mode, l.word.value))])
  }

  function LexFrom(l: Lex, text: string): Lex {
    if text == [] then l else LexChar(LexFrom(l, text[..|text| - 1]), text[|text| - 1])
  }

  function LexWords(text: string): seq<string> {
    EndWord(LexFrom(LEX_START, text)).words
  }

  // ---------------------------------------------------------------- composition

  lemma {:induction false} ModeAppend(m: Mode, a: string, b: string)
    ensures ModeAfter(m, a + b) == ModeAfter(ModeAfter(m, a), b)
  {
    if b == [] {
      assert a + b == a;
    } else {
      assert (a + b)[..|a + b| - 1] == a + b[..|b| - 1];
      ModeAppend(m, a, b[..|b| - 1]);
    }
  }

  lemma LexOne(l: Lex, c: char)
    ensures LexFrom(l, [c]) == LexChar(l, c)
  {
    assert [c][..0] == [];
  }

  lemma {:induction false} LexAppend(l: Lex, a: string, b: string)
    ensures LexFrom(l, a + b) == LexFrom(LexFrom(l, a), b)
  {
    if b == [] {
      assert a + b == a;
    } else {
      assert (a + b)[..|a + b| - 1] == a + b[..|b| - 1];
      LexAppend(l, a, b[..|b| - 1]);
    }
  }

  lemma LexCons(l: Lex, text: string)
    requires text != []
    ensures LexFrom(l, text) == LexFrom(LexChar(l, text[0]), text[1..])
  {
    assert text == text[..1] + text[1..];
    LexAppend(l, text[..1], text[1..]);
    assert text[..1][..0] == [];
  }

  lemma {:induction false} LexMode(l: Lex, text: string)
    ensures LexFrom(l, text).mode == ModeAfter(l.mode, text)
  {
    if text != [] {
      LexMode(l, text[..|text| - 1]);
    }
  }

  /** Words already finished play no part in what follows. */
  lemma {:induction false} LexWordsPrefix(l: Lex, text: string)
    ensures var alone := LexFrom(l.(words := []), text);
            LexFrom(l, text) == alone.(words := l.words + alone.words)
  {
    if text != [] {
      LexWordsPrefix(l, text[..|text| - 1]);
    } 
  }

  // ---------------------------------------------------------------- spans and decoder agree

  /** What one finished span is: the lexer stood between words where it starts, the characters in it
      decode to word `k`, and it ends outside quotes at a break or at the end of the text. */
  ghost predicate SpanOk(text: string, s: Span, k: nat, words: seq<string>) {
    && s.start < s.end <= |text| && k < |words|
    && LexFrom(LEX_START, text[..s.start]) == Lex(START, None, false, words[..k])
    && (var d := DecodeFrom(DECODE_START, text[s.start..s.end]);
        && LexFrom(LEX_START, text[..s.end]) == Lex(d.mode, Some(d.value), false, words[..k])
        && DecodeEnd(d) == words[k]
        && (s.end < |text| ==> d.mode == START && IsBreak(text[s.end])))
  }

  /** The scanner and the lexer after the same text. */
  ghost predicate Agree(text: string, s: Scan, l: Lex) {
    && s.mode == l.mode && s.redirection == l.redirection
    && (s.start.Some? <==> l.word.Some?)
    && (s.start.None? ==> s.mode == START)
    && (s.start.Some? ==>
          && s.start.value < |text|
          && LexFrom(LEX_START, text[..s.start.value]) == Lex(START, None, l.redirection, l.words)
          && DecodeFrom(DECODE_START, text[s.start.value..]) == Decoding(l.mode, l.word.value))
    && |s.spans| == |l.words|
    && forall k | 0 <= k < |s.spans| :: SpanOk(text, s.spans[k], k, l.words) && s.spans[k].end < |text|
  }

  lemma SpanOkGrows(text: string, s: Span, k: nat, words: seq<string>, c: char, more: seq<string>)
    requires SpanOk(text, s, k, words) && s.end < |text|
    ensures SpanOk(text + [c], s, k, words + more)
  {
    var text' := text + [c];
    assert text'[..s.start] == text[..s.start] && text'[s.start..s.end] == text[s.start..s.end]
        && text'[..s.end] == text[..s.end];
    assert (words + more)[..k] == words[..k];
  }

  lemma AgreeInWord(text: string, s: Scan, l: Lex, c: char)
    requires Agree(text, s, l) && l == LexFrom(LEX_START, text)
    requires !(s.mode == START && IsBreak(c))
    ensures Agree(text + [c], ScanChar(s, |text|, c), LexChar(l, c))
  {
    var text' := text + [c];
    forall k | 0 <= k < |s.spans| ensures SpanOk(text', s.spans[k], k, l.words) {
      SpanOkGrows(text, s.spans[k], k, l.words, c, []);
      EmptyAppend(l.words);
    }
    if s.start.Some? {
      TakeExtended(text, [c], s.start.value);
      DecodeOneMore(text[s.start.value..], c);
    } else {
      Cancel(text, [c]);
      DecodeOneMore("", c);
    }
  }

  lemma DecodeOneMore(word: string, c: char)
    ensures DecodeFrom(DECODE_START, word + [c]) == DecodeChar(DecodeFrom(DECODE_START, word), c)
    ensures word == "" ==> word + [c] == [c]
  {
    TakeSnoc(word, c);
  }

  /** Ending the word in progress at the end of the text, if it counts, adds one more sound span. */
  lemma LastSpanOk(text: string, s: Scan, l: Lex)
    requires Agree(text, s, l) && l == LexFrom(LEX_START, text) && s.start.Some? && !s.redirection
    ensures SpanOk(text, Span(s.start.value, |text|), |l.words|, EndWord(l).words)
  {
    var from := s.start.value;
    assert text[from..|text|] == text[from..] && text[..|text|] == text;
    assert EndWord(l).words[..|l.words|] == l.words;
  }

  lemma AgreeEnd(text: string, s: Scan, l: Lex)
    requires Agree(text, s, l) && l == LexFrom(LEX_START, text)
    ensures var s', l' := EndSpan(s, |text|), EndWord(l);
            && |s'.spans| == |l'.words|
            && forall k | 0 <= k < |s'.spans| :: SpanOk(text, s'.spans[k], k, l'.words)
  {
    var s', l' := EndSpan(s, |text|), EndWord(l);
    forall k | 0 <= k < |s'.spans| ensures SpanOk(text, s'.spans[k], k, l'.words) {
      if k < |s.spans| {
        assert SpanOk(text, s.spans[k], k, l.words);
        assert l'.words[..k] == l.words[..k];
      } else {
        LastSpanOk(text, s, l);
      }
    }
  }

  /** The word a break ends becomes a finished span. */
  lemma NewSpanOk(text: string, s: Scan, l: Lex, c: char)
    requires Agree(text, s, l) && l == LexFrom(LEX_START, text)
    requires s.mode == START && IsBreak(c) && s.start.Some? && !s.redirection
    ensures SpanOk(text + [c], Span(s.start.value, |text|), |l.words|, EndWord(l).words)
  {
    var text', from := text + [c], s.start.value;
    assert text'[..from] == text[..from] && text'[from..|text|] == text[from..] && text'[..|text|] == text;
    assert EndWord(l).words[..|l.words|] == l.words;
  }

  lemma AgreeAtBreak(text: string, s: Scan, l: Lex, c: char)
    requires Agree(text, s, l) && l == LexFrom(LEX_START, text) && s.mode == START && IsBreak(c)
    ensures Agree(text + [c], ScanChar(s, |text|, c), LexChar(l, c))
  {
    var s', l' := EndSpan(s, |text|), EndWord(l);
    forall k | 0 <= k < |s'.spans| ensures SpanOk(text + [c], s'.spans[k], k, l'.words)
        && s'.spans[k].end < |text| + 1 {
      if k < |s.spans| {
        SpanOkGrows(text, s.spans[k], k, l.words, c, l'.words[|l.words|..]);
        assert l.words + l'.words[|l.words|..] == l'.words;
      } else {
        NewSpanOk(text, s, l, c);
      }
    }
  }

  lemma AgreeSnoc(text: string, s: Scan, l: Lex, c: char)
    requires Agree(text, s, l) && l == LexFrom(LEX_START, text)
    ensures Agree(text + [c], ScanChar(s, |text|, c), LexChar(l, c))
  {
    if s.mode == START && IsBreak(c) {
      AgreeAtBreak(text, s, l, c);
    } else {
      AgreeInWord(text, s, l, c);
    }
  }

  lemma {:induction false} ScanAgrees(text: string)
    ensures Agree(text, ScanFrom(text), LexFrom(LEX_START, text))
  {
    if text != [] {
      var front, c := text[..|text| - 1], text[|text| - 1];
      ScanAgrees(front);
      AgreeSnoc(front, ScanFrom(front), LexFrom(LEX_START, front), c);
      SplitLast(text);
    }
  }

  /** Finding the spans and decoding each of them is the same as lexing in one pass. */
  lemma ShellWordsIsLex(text: string)
    ensures ShellWords(text) == LexWords(text)
  {
    ScanAgrees(text);
    AgreeEnd(text, ScanFrom(text), LexFrom(LEX_START, text));
    var spans := Spans(text);
    forall k | 0 <= k < |spans| ensures ShellWords(text)[k] == LexWords(text)[k] {
      assert Slice(text, spans[k]) == text[spans[k].start..spans[k].end];
    }
  }

  /** Everything known of span `k` of a text. */
  lemma SpanFacts(text: string, k: nat)
    requires k < |Spans(text)|
    ensures |LexWords(text)| == |Spans(text)| && SpanOk(text, Spans(text)[k], k, LexWords(text))
  {
    ScanAgrees(text);
    AgreeEnd(text, ScanFrom(text), LexFrom(LEX_START, text));
  }

  lemma SpanBounds(text: string, k: nat)
    requires k < |Spans(text)|
    ensures Spans(text)[k].start < Spans(text)[k].end <= |text|
  {
    SpanFacts(text, k);
  }

  /** Scanner and decoder agree on the quote state wherever a span ends: a span that ends before the
      end of the text decodes to an unquoted, unescaped state and is followed by a break; a last one
      leaves the decoder in the state the scanner is in. */
  lemma SpanEndsAgree(text: string, k: nat)
    requires k < |Spans(text)|
    ensures var s := Spans(text)[k];
            && s.start < s.end <= |text|
            && (s.end < |text| ==> ModeAfter(START, text[s.start..s.end]) == START && IsBreak(text[s.end]))
            && ModeAfter(START, text[..s.start]) == START
            && ModeAfter(START, text[s.start..s.end]) == ModeAfter(START, text[..s.end])
  {
    SpanFacts(text, k);
    var s := Spans(text)[k];
    ModesOfSplit(text, s.start, s.end);
  }

  lemma ModesOfSplit(text: string, a: nat, b: nat)
    requires a <= b <= |text| && LexFrom(LEX_START, text[..a]).mode == START
    ensures ModeAfter(START, text[..a]) == START
    ensures ModeAfter(START, text[a..b]) == ModeAfter(START, text[..b]) == DecodeFrom(DECODE_START, text[a..b]).mode
  {
    DecodeMode(DECODE_START, text[a..b]);
    LexMode(LEX_START, text[..a]);
    SplitTake(text, a, b);
    ModeAppend(START, text[..a], text[a..b]);
  }

  lemma {:induction false} DecodeMode(d: Decoding, word: string)
    ensures DecodeFrom(d, word).mode == ModeAfter(d.mode, word)
  {
    if word != [] {
      DecodeMode(d, word[..|word| - 1]);
    }
  }
}
