/** Every way of writing an argument list lexes back to it: bare, in single or double quotes, with
    backslashes, in any mixture, with any separators, and with redirections in between (sections 2.2 and
    2.7 of the Shell Command Language, POSIX.1-2017). */
module ShellPrinting {
  import opened Outcomes
  import opened Sequences
  import opened ShellLexer
  import opened ShellReplace

  /** A part of a word in one of the four styles. */
  datatype Piece = Bare(text: string) | SingleQuoted(text: string) | DoubleQuoted(text: string) | Escaped(text: string)

  const SEPARATORS := " \t\n\U{C}\r|;&()"

  /** What each style can hold: bare text has no quotes, backslashes, separators or redirections, and text
      in single quotes has no single quote. Only quotes can hold nothing. */
  predicate Writable(piece: Piece) {
    match piece
    case Bare(text) => text != "" && forall i | 0 <= i < |text| :: text[i] !in SEPARATORS + "<>'\"\\"
    case SingleQuoted(text) => '\'' !in text
    case DoubleQuoted(_) => true
    case Escaped(text) => text != ""
  }

  /** Each character after a backslash, or only those that the test selects. */
  function Backslashed(text: string, test: char -> bool): string {
    if text == "" then ""
    else
      var c := text[|text| - 1];
      Backslashed(text[..|text| - 1], test) + if test(c) then ['\\', c] else [c]
  }

  /** The characters that a backslash escapes inside double quotes. */
  function Special(): char -> bool {
    c => c == '$' || c == '`' || c == '"' || c == '\\'
  }

  function Everything(): char -> bool {
    c => true
  }

  function PrintPiece(piece: Piece): string {
    match piece
    case Bare(text) => text
    case SingleQuoted(text) => "'" + text + "'"
    case DoubleQuoted(text) => "\"" + Backslashed(text, Special()) + "\""
    case Escaped(text) => Backslashed(text, Everything())
  }

  function PrintWord(pieces: seq<Piece>): string {
    if pieces == [] then "" else PrintWord(pieces[..|pieces| - 1]) + PrintPiece(pieces[|pieces| - 1])
  }

  /** What the word stands for. */
  function WordText(pieces: seq<Piece>): string {
    if pieces == [] then "" else WordText(pieces[..|pieces| - 1]) + pieces[|pieces| - 1].text
  }

  predicate IsPrintedWord(pieces: seq<Piece>) {
    pieces != [] && forall i | 0 <= i < |pieces| :: Writable(pieces[i])
  }

  /** An argument after separators, or a redirection with its operand. */
  datatype Item =
    | Argument(gap: string, word: seq<Piece>)
    | Redirection(gap: string, op: char, inner: string, word: seq<Piece>)

  predicate IsGap(gap: string) {
    forall i | 0 <= i < |gap| :: gap[i] in SEPARATORS
  }

  /** Only the first argument of a line needs no separator before it. */
  predicate IsItem(item: Item, first: bool) {
    && IsGap(item.gap) && IsPrintedWord(item.word)
    && if item.Argument? then first || item.gap != "" else item.op in "<>" && IsGap(item.inner)
  }

  predicate IsLine(items: seq<Item>) {
    forall i | 0 <= i < |items| :: IsItem(items[i], i == 0)
  }

  function PrintItem(item: Item): string {
    match item
    case Argument(gap, word) => gap + PrintWord(word)
    case Redirection(gap, op, inner, word) => (gap + [op] + inner) + PrintWord(word)
  }

  function PrintLine(items: seq<Item>): string {
    if items == [] then "" else PrintLine(items[..|items| - 1]) + PrintItem(items[|items| - 1])
  }

  /** The arguments of the line; what a redirection names is none. */
  function Arguments(items: seq<Item>): seq<string> {
    if items == [] then []
    else
      var last := items[|items| - 1];
      Arguments(items[..|items| - 1]) + if last.Argument? then [WordText(last.word)] else []
  }

  // ---- one piece ----

  function Grown(l: Lex, text: string): Lex {
    l.(word := Some((if l.word.Some? then l.word.value else "") + text))
  }

  lemma GrownTwice(l: Lex, a: string, b: string)
    ensures Grown(Grown(l, a), b) == Grown(l, a + b)
  {
    Associate(if l.word.Some? then l.word.value else "", a, b);
  }

  lemma LexPlainText(l: Lex, text: string)
    requires l.word.Some? && forall i | 0 <= i < |text| :: IsPlain(l.mode, text[i])
    ensures LexFrom(l, text) == Grown(l, text)
  {
    if text == "" {
      EmptyAppend(l.word.value);
    } else {
      LexPlain(l, text);
    }
  }

  /** One character, escaped or not, outside or inside double quotes. */
  lemma LexOneEscaped(l: Lex, c: char, test: char -> bool)
    requires l.mode == START || l.mode == Mode(Double, false)
    requires l.mode == START ==> test(c)
    requires l.mode == Mode(Double, false) ==> (test(c) <==> Special()(c))
    ensures LexFrom(l, if test(c) then ['\\', c] else [c]) == Grown(l, [c])
  {
    if test(c) {
      LexOne(l, '\\');
      LexAppend(l, ['\\'], [c]);
      assert ['\\'] + [c] == ['\\', c];
      var after := LexChar(l, '\\');
      EmptyAppend(if l.word.Some? then l.word.value else "");
      assert after.mode == Mode(l.mode.quote, true) && after.word == Grown(l, "").word;
      LexOne(after, c);
    } else {
      LexOne(l, c);
    }
  }

  lemma {:induction false} LexBackslashed(l: Lex, text: string, test: char -> bool)
    requires text != "" || l.word.Some?
    requires l.mode == START || l.mode == Mode(Double, false)
    requires l.mode == START ==> forall c :: test(c)
    requires l.mode == Mode(Double, false) ==> forall c :: test(c) <==> Special()(c)
    ensures LexFrom(l, Backslashed(text, test)) == Grown(l, text)
  {
    if text == "" {
      EmptyAppend(l.word.value);
    } else {
      var front, c := text[..|text| - 1], text[|text| - 1];
      var printed := if test(c) then ['\\', c] else [c];
      SplitLast(text);
      LexAppend(l, Backslashed(front, test), printed);
      if front == "" {
        LexOneEscaped(l, c, test);
      } else {
        LexBackslashed(l, front, test);
        LexOneEscaped(Grown(l, front), c, test);
        GrownTwice(l, front, [c]);
      }
    }
  }

  /** Text between a pair of quotes, given what the lexer makes of its inside. */
  lemma LexBetween(l: Lex, quote: char, inside: string, text: string)
    requires l.mode == START && (quote == '\'' || quote == '"')
    requires LexFrom(Grown(l, "").(mode := Advance(START, quote)), inside)
             == Grown(Grown(l, "").(mode := Advance(START, quote)), text)
    ensures LexFrom(l, [quote] + inside + [quote]) == Grown(l, text)
  {
    var open := Grown(l, "").(mode := Advance(START, quote));
    LexOne(l, quote);
    LexAppend(l, [quote], inside);
    LexAppend(l, [quote] + inside, [quote]);
    LexCloseQuote(Grown(open, text), quote);
    EmptyAppend(text);
    GrownTwice(l, "", text);
  }

  lemma LexPiece(l: Lex, piece: Piece)
    requires l.mode == START && Writable(piece)
    ensures LexFrom(l, PrintPiece(piece)) == Grown(l, piece.text)
  {
    match piece
    case Bare(text) => LexPlain(l, text);
    case SingleQuoted(text) =>
      LexPlainText(Grown(l, "").(mode := Mode(Single, false)), text);
      LexBetween(l, '\'', text, text);
    case DoubleQuoted(text) =>
      LexBackslashed(Grown(l, "").(mode := Mode(Double, false)), text, Special());
      LexBetween(l, '"', Backslashed(text, Special()), text);
    case Escaped(text) => LexBackslashed(l, text, Everything());
  }

  lemma {:induction false} LexWord(l: Lex, pieces: seq<Piece>)
    requires l.mode == START && IsPrintedWord(pieces)
    ensures LexFrom(l, PrintWord(pieces)) == Grown(l, WordText(pieces))
  {
    var front, last := pieces[..|pieces| - 1], pieces[|pieces| - 1];
    LexAppend(l, PrintWord(front), PrintPiece(last));
    if front == [] {
      LexPiece(l, last);
      EmptyAppend(last.text);
    } else {
      LexWord(l, front);
      LexPiece(Grown(l, WordText(front)), last);
      GrownTwice(l, WordText(front), last.text);
    }
  }

  // ---- the line ----

  /** Separators end the word before them, and are otherwise ignored. */
  lemma {:induction false} LexGap(l: Lex, gap: string)
    requires l.mode == START && IsGap(gap)
    ensures LexFrom(l, gap) == if gap == "" then l else EndWord(l)
  {
    if gap != "" {
      LexGap(l, gap[..|gap| - 1]);
    }
  }

  /** The lexer at the end of an argument, or of an operand. */
  function Ended(words: seq<string>, text: string, operand: bool): Lex {
    Lex(START, Some(text), operand, words)
  }

  lemma LexArgument(l: Lex, gap: string, word: seq<Piece>)
    requires l.mode == START && IsGap(gap) && IsPrintedWord(word) && (gap == "" ==> l == LEX_START)
    ensures LexFrom(l, gap + PrintWord(word)) == Ended(EndWord(l).words, WordText(word), EndWord(l).redirection)
  {
    LexGap(l, gap);
    LexAppend(l, gap, PrintWord(word));
    LexWord(EndWord(l), word);
    EmptyAppend(WordText(word));
  }

  lemma LexOperator(l: Lex, gap: string, op: char, inner: string)
    requires l.mode == START && IsGap(gap) && IsGap(inner) && op in "<>"
    ensures LexFrom(l, gap + [op] + inner) == EndWord(l).(redirection := true)
  {
    LexGap(l, gap);
    LexAppend(l, gap, [op]);
    LexOne(LexFrom(l, gap), op);
    LexAppend(l, gap + [op], inner);
    LexGap(EndWord(l).(redirection := true), inner);
  }

  lemma LexRedirection(l: Lex, gap: string, op: char, inner: string, word: seq<Piece>)
    requires l.mode == START && IsGap(gap) && IsGap(inner) && op in "<>" && IsPrintedWord(word)
    ensures LexFrom(l, (gap + [op] + inner) + PrintWord(word)) == Ended(EndWord(l).words, WordText(word), true)
  {
    LexOperator(l, gap, op, inner);
    LexAppend(l, gap + [op] + inner, PrintWord(word));
    LexWord(EndWord(l).(redirection := true), word);
    EmptyAppend(WordText(word));
  }

  lemma LexItem(l: Lex, item: Item)
    requires l.mode == START && IsItem(item, l == LEX_START) && (l.word.None? ==> l == LEX_START)
    ensures LexFrom(l, PrintItem(item)) == Ended(EndWord(l).words, WordText(item.word), item.Redirection?)
  {
    match item
    case Argument(gap, word) => LexArgument(l, gap, word);
    case Redirection(gap, op, inner, word) => LexRedirection(l, gap, op, inner, word);
  }

  lemma LexNextItem(words: seq<string>, text: string, operand: bool, item: Item)
    requires IsItem(item, false)
    ensures LexFrom(Ended(words, text, operand), PrintItem(item))
            == Ended(words + if operand then [] else [text], WordText(item.word), item.Redirection?)
  {
    LexItem(Ended(words, text, operand), item);
    EmptyAppend(words);
  }

  lemma ArgumentsSnoc(items: seq<Item>)
    requires items != []
    ensures var last := items[|items| - 1];
            Arguments(items)
            == Arguments(items[..|items| - 1]) + if last.Redirection? then [] else [WordText(last.word)]
  {
  }

  lemma LineFront(items: seq<Item>)
    requires items != [] && IsLine(items)
    ensures IsLine(items[..|items| - 1]) && IsItem(items[|items| - 1], |items| == 1)
  {
  }

  lemma {:induction false} LexLine(items: seq<Item>)
    requires items != [] && IsLine(items)
    ensures var front, last := items[..|items| - 1], items[|items| - 1];
            LexFrom(LEX_START, PrintLine(items)) == Ended(Arguments(front), WordText(last.word), last.Redirection?)
  {
    var front, last := items[..|items| - 1], items[|items| - 1];
    LineFront(items);
    LexAppend(LEX_START, PrintLine(front), PrintItem(last));
    if front == [] {
      LexItem(LEX_START, last);
    } else {
      var previous := front[|front| - 1];
      LexLine(front);
      LexNextItem(Arguments(front[..|front| - 1]), WordText(previous.word), previous.Redirection?, last);
      ArgumentsSnoc(front);
    }
  }

  /** The round trip: however the words of a line are written and separated, and whatever redirections and
      separators stand in between or at the end, its arguments are the texts of the words that are not
      operands of a redirection. */
  lemma LexUndoesPrinting(items: seq<Item>, trail: string)
    requires IsLine(items) && IsGap(trail)
    ensures ShellWords(PrintLine(items) + trail) == Arguments(items)
  {
    ShellWordsIsLex(PrintLine(items) + trail);
    LexAppend(LEX_START, PrintLine(items), trail);
    if items == [] {
      LexGap(LEX_START, trail);
    } else {
      LexLine(items);
      LexGap(LexFrom(LEX_START, PrintLine(items)), trail);
      EmptyAppend(Arguments(items[..|items| - 1]));
    }
  }
}
