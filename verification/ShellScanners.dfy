/** The scanning loops as the source writes them, with an index that jumps over escaped characters. */
module ShellScanners {
  import opened Outcomes
  import opened Sequences
  import opened ShellLexer

  /** shell_word_spans. */
  method ShellWordSpans(command: string) returns (spans: seq<Span>)
    ensures spans == Spans(command)
  {
    spans := [];
    var start: Option<nat> := None;
    var quote := Unquoted;
    var redirectionOperand := false;
    var index := 0;
    ghost var scan, seen: nat := SCAN_START, 0;
    while index < |command|
      invariant index <= |command| + 1 && seen == if index <= |command| then index else |command|
      invariant scan == ScanFrom(command[..seen])
      invariant scan == Scan(Mode(quote, index > |command|), start, redirectionOperand, spans)
    {
      var c := command[index];
      ScanSnoc(command, index);
      scan, seen := ScanChar(scan, index, c), index + 1;
      if quote == Unquoted && IsBreak(c) {
        if start.Some? {
          if !redirectionOperand {
            spans := spans + [Span(start.value, index)];
          }
          start := None;
          redirectionOperand := false;
        }
        if IsRedirection(c) {
          redirectionOperand := true;
        }
        index := index + 1;
        continue;
      }
      if start.None? {
        start := Some(index);
      }
      if Closes(quote, c) {
        quote := Unquoted;
      } else if quote == Single {
      } else if c == '\\' {
        index := index + 1;
        if index < |command| {
          ScanSnoc(command, index);
          scan, seen := ScanChar(scan, index, command[index]), index + 1;
        }
      } else if quote == Unquoted && c == '\'' {
        quote := Single;
      } else if quote == Unquoted && c == '"' {
        quote := Double;
      }
      index := index + 1;
    }
    Whole(command, 0);
    if start.Some? && !redirectionOperand {
      spans := spans + [Span(start.value, |command|)];
    }
  }

  lemma ScanSnoc(text: string, i: nat)
    requires i < |text|
    ensures ScanFrom(text[..i + 1]) == ScanChar(ScanFrom(text[..i]), i, text[i])
  {
    TakeTake(text, i);
  }

  /** The characters a backslash escapes inside double quotes. */
  predicate Escapable(c: char) {
    c == '$' || c == '`' || c == '"' || c == '\\'
  }

  /** A backslash kept waiting inside double quotes stands for itself before an ordinary character. */
  lemma PendingBackslash(before: string, c: char)
    requires !Escapable(c)
    ensures DecodeChar(Decoding(Mode(Double, true), before), c) == Decoding(Mode(Double, false), before + ['\\'] + [c])
  {
    SnocPair(before, '\\', c);
  }

  /** shell_word_value, with the character iterator as an index. */
  method ShellWordValue(word: string) returns (value: string)
    ensures value == WordValue(word)
  {
    value := "";
    var quote := Unquoted;
    var next := 0;
    // A backslash inside double quotes has been pushed, and the character after it is ordinary.
    ghost var kept := false;
    ghost var before := "";
    ghost var decoding := DECODE_START;
    assert word[..0] == "";
    while next < |word|
      invariant next <= |word| && decoding == DecodeFrom(DECODE_START, word[..next])
      invariant next < |word| && !kept ==> decoding == Decoding(Mode(quote, false), value)
      invariant next < |word| && kept ==>
                  && quote == Double && !Escapable(word[next]) && value == before + ['\\']
                  && decoding == Decoding(Mode(quote, true), before)
      invariant next == |word| ==> DecodeEnd(decoding) == value
      decreases |word| - next
    {
      var character := word[next];
      DecodeSnoc(word, next);
      decoding := DecodeChar(decoding, character);
      if kept {
        PendingBackslash(before, character);
      }
      assert decoding == DecodeChar(Decoding(Mode(quote, false), value), character);
      kept := false;
      next := next + 1;
      if Closes(quote, character) {
        quote := Unquoted;
      } else if quote == Single {
        value := value + [character];
      } else if quote == Unquoted && character == '\'' {
        quote := Single;
      } else if quote == Unquoted && character == '"' {
        quote := Double;
      } else if character == '\\' {
        if quote == Unquoted || (next < |word| && Escapable(word[next])) {
          if next < |word| {
            DecodeSnoc(word, next);
            decoding := DecodeChar(decoding, word[next]);
            value := value + [word[next]];
            next := next + 1;
          } else {
            value := value + [character];
          }
        } else {
          before, kept := value, true;
          value := value + [character];
        }
        assert next < |word| && !kept ==> decoding == Decoding(Mode(quote, false), value);
        assert next == |word| ==> DecodeEnd(decoding) == value;
      } else {
        value := value + [character];
      }
    }
    Whole(word, 0);
  }

  lemma DecodeSnoc(word: string, i: nat)
    requires i < |word|
    ensures DecodeFrom(DECODE_START, word[..i + 1]) == DecodeChar(DecodeFrom(DECODE_START, word[..i]), word[i])
  {
    TakeTake(word, i);
  }

  lemma SpanValue(command: string, k: nat)
    requires k < |Spans(command)|
    ensures var s := Spans(command)[k];
            s.start <= s.end <= |command| && ShellWords(command)[k] == WordValue(command[s.start..s.end])
  {
    SpanFacts(command, k);
  }

  /** shell_words: the loop over the spans. */
  method DecodeSpans(command: string) returns (words: seq<string>)
    ensures words == ShellWords(command) == LexWords(command)
  {
    ghost var all := ShellWords(command);
    var spans := ShellWordSpans(command);
    words := [];
    for i := 0 to |spans|
      invariant words == all[..i]
    {
      SpanValue(command, i);
      var word := ShellWordValue(command[spans[i].start..spans[i].end]);
      TakeGrows(all, i);
      words := words + [word];
    }
    Whole(all, 0);
    ShellWordsIsLex(command);
  }
}
