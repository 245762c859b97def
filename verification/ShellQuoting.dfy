/** Lexing undoes single-quote printing (section 2.2.2 of the Shell Command Language, POSIX.1-2017). */
module ShellQuoting {
  import opened Outcomes
  import opened Sequences
  import opened ShellLexer

  /** The inside of a single-quoted word: a quote character is printed as '\'' . */
  function Escaped(word: string): string {
    if word == [] then []
    else
      var c := word[|word| - 1];
      Escaped(word[..|word| - 1]) + if c == '\'' then "'\\''" else [c]
  }

  function QuoteWord(word: string): string {
    "'" + Escaped(word) + "'"
  }

  /** The words, quoted and separated by single spaces. */
  function QuoteLine(words: seq<string>): string {
    if words == [] then ""
    else if |words| == 1 then QuoteWord(words[0])
    else QuoteLine(words[..|words| - 1]) + (" " + QuoteWord(words[|words| - 1]))
  }

  /** A printed quote closes, escapes and reopens. */
  lemma LexPrintedQuote(l: Lex)
    requires l.mode == Mode(Single, false) && l.word.Some?
    ensures LexFrom(l, "'\\''") == l.(word := Some(l.word.value + "'"))
  {
    var text := "'\\''";
    assert text[..3] == "'\\'" && "'\\'"[..2] == "'\\" && "'\\"[..1] == "'";
    LexOne(l, '\'');
    var l1 := LexChar(l, '\'');
    assert l1 == l.(mode := START) by { assert l.word.value + [] == l.word.value; }
    var l2 := LexChar(l1, '\\');
    assert l2 == l.(mode := Mode(Unquoted, true)) by { assert l.word.value + [] == l.word.value; }
    var l3 := LexChar(l2, '\'');
    assert l3 == l.(mode := START, word := Some(l.word.value + "'"));
    assert LexFrom(l, "'\\") == l2;
    assert LexFrom(l, "'\\'") == l3;
    var l4 := LexChar(l3, '\'');
    assert l4 == l.(word := Some(l.word.value + "'")) by { assert (l.word.value + "'") + [] == l.word.value + "'"; }
  }

  lemma {:induction false} LexEscaped(l: Lex, word: string)
    requires l.mode == Mode(Single, false) && l.word == Some("")
    ensures LexFrom(l, Escaped(word)) == l.(word := Some(word))
  {
    if word != [] {
      var front, c := word[..|word| - 1], word[|word| - 1];
      LexEscaped(l, front);
      var before := l.(word := Some(front));
      LexAppend(l, Escaped(front), if c == '\'' then "'\\''" else [c]);
      if c == '\'' {
        LexPrintedQuote(before);
      } else {
        LexOne(before, c);
      }
      SplitLast(word);
    }
  }

  /** A quoted word read between words is that word in progress. */
  lemma LexQuoteWord(l: Lex, word: string)
    requires l.mode == START && l.word.None?
    ensures LexFrom(l, QuoteWord(word)) == l.(word := Some(word))
  {
    var inside := l.(mode := Mode(Single, false), word := Some(""));
    LexOne(l, '\'');
    assert LexFrom(l, "'") == inside by { assert "" + "" == ""; }
    LexEscaped(inside, word);
    LexAppend(l, "'", Escaped(word));
    LexAppend(l, "'" + Escaped(word), "'");
    LexOne(inside.(word := Some(word)), '\'');
    assert word + [] == word;
  }

  lemma {:induction false} LexQuoteLine(words: seq<string>)
    requires words != []
    ensures LexFrom(LEX_START, QuoteLine(words)) == Lex(START, Some(words[|words| - 1]), false, words[..|words| - 1])
  {
    var last := words[|words| - 1];
    if |words| == 1 {
      LexQuoteWord(LEX_START, last);
    } else {
      var front := words[..|words| - 1];
      LexQuoteLine(front);
      LexAppend(LEX_START, QuoteLine(front), " " + QuoteWord(last));
      var l := LexFrom(LEX_START, QuoteLine(front));
      LexAppend(l, " ", QuoteWord(last));
      LexOne(l, ' ');
      SplitLast(front);
      LexQuoteWord(Lex(START, None, false, front), last);
    }
  }

  /** The round trip: for every list of strings, lexing the quoted, space-joined line gives it back. */
  lemma LexUndoesQuoting(words: seq<string>)
    ensures ShellWords(QuoteLine(words)) == words
  {
    ShellWordsIsLex(QuoteLine(words));
    if words != [] {
      LexQuoteLine(words);
      SplitLast(words);
    }
  }
}
