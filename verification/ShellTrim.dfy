/** trim_command_padding: which characters it drops, that it is stable, and exactly when the argument
    list survives it. Padding is Unicode white space, but only ASCII white space separates arguments. */
module ShellTrim {
  import opened Outcomes
  import opened Whitespace
  import opened Sequences
  import opened ShellLexer

  /** White space that is neither quoted nor escaped. */
  predicate Bare(text: string, i: nat)
    requires i < |text|
  {
    IsWhitespace(text[i]) && ModeAfter(START, text[..i]) == START
  }

  /** One past the last of the first `n` characters that is not bare white space. */
  function KeepEnd(text: string, n: nat): (e: nat)
    requires n <= |text|
    ensures e <= n
  {
    if n == 0 then 0 else if Bare(text, n - 1) then KeepEnd(text, n - 1) else n
  }

  lemma {:induction false} DroppedIsBare(text: string, n: nat, i: nat)
    requires n <= |text| && KeepEnd(text, n) <= i < n
    ensures IsWhitespace(text[i]) && ModeAfter(START, text[..i]) == START
  {
    if i < n - 1 {
      DroppedIsBare(text, n - 1, i);
    }
  }

  lemma {:induction false} KeptEndsVisible(text: string, n: nat)
    requires n <= |text|
    ensures var e := KeepEnd(text, n); e > 0 ==> !Bare(text, e - 1)
  {
    if n > 0 && Bare(text, n - 1) {
      KeptEndsVisible(text, n - 1);
    }
  }

  /** What trim_command_padding returns. */
  function TrimPadding(command: string): string {
    var text := TrimStart(command);
    text[..KeepEnd(text, |text|)]
  }

  /** trim_command_padding. */
  method TrimCommandPadding(input: string) returns (trimmed: string)
    ensures trimmed == TrimPadding(input)
  {
    var command := TrimStart(input);
    var mode := START;
    var end := 0;
    for index := 0 to |command|
      invariant mode == ModeAfter(START, command[..index])
      invariant end == KeepEnd(command, index)
    {
      TakeTake(command, index);
      var character := command[index];
      if mode.escaped || mode.quote != Unquoted || !IsWhitespace(character) {
        end := index + 1;
      }
      if mode.escaped {
        mode := Mode(mode.quote, false);
        continue;
      }
      if Closes(mode.quote, character) {
        mode := START;
      } else if mode.quote == Single {
      } else if character == '\\' {
        mode := Mode(mode.quote, true);
      } else if mode.quote == Unquoted && character == '\'' {
        mode := Mode(Single, false);
      } else if mode.quote == Unquoted && character == '"' {
        mode := Mode(Double, false);
      }
    }
    Whole(command, 0);
    trimmed := command[..end];
  }

  lemma TrimStartStable(text: string)
    requires text == [] || !IsWhitespace(text[0])
    ensures TrimStart(text) == text
  {
  }

  /** What is kept of a text needs no more trimming at its end. */
  lemma KeepEndStable(text: string)
    ensures var kept := text[..KeepEnd(text, |text|)]; KeepEnd(kept, |kept|) == |kept|
  {
    var e := KeepEnd(text, |text|);
    KeptEndsVisible(text, |text|);
    if e > 0 {
      TakeTake(text, e - 1);
    }
  }

  lemma KeptStart(text: string)
    requires text != [] && !IsWhitespace(text[0])
    ensures KeepEnd(text, |text|) > 0
  {
    if KeepEnd(text, |text|) == 0 {
      DroppedIsBare(text, |text|, 0);
    }
  }

  /** Trimming what has been trimmed changes nothing. */
  lemma TrimIdempotent(command: string)
    ensures TrimPadding(TrimPadding(command)) == TrimPadding(command)
  {
    TrimStartMeaning(command);
    var text := TrimStart(command);
    var kept := text[..KeepEnd(text, |text|)];
    TrimStartStable(kept);
    KeepEndStable(text);
    Whole(kept, 0);
  }

  /** The dropped end of a text is bare white space. */
  lemma KeepEndDrops(text: string, trail: string)
    requires trail == text[KeepEnd(text, |text|)..]
    ensures forall i | 0 <= i < |trail| :: IsWhitespace(trail[i])
    ensures trail != [] ==> ModeAfter(START, text[..KeepEnd(text, |text|)]) == START
  {
    var e := KeepEnd(text, |text|);
    forall i | 0 <= i < |trail|
      ensures IsWhitespace(trail[i])
    {
      DroppedIsBare(text, |text|, e + i);
    }
    if trail != [] {
      DroppedIsBare(text, |text|, e);
    }
  }

  /** Bare white space is dropped at both ends, all of it, and nothing else; a quoted or escaped last space
      stays. */
  lemma TrimSplits(command: string) returns (lead: string, trail: string)
    ensures command == lead + TrimPadding(command) + trail
    ensures forall i | 0 <= i < |lead| :: IsWhitespace(lead[i])
    ensures forall i | 0 <= i < |trail| :: IsWhitespace(trail[i])
    ensures trail != [] ==> ModeAfter(START, TrimPadding(command)) == START
    ensures TrimPadding(command) == [] ==> trail == []
    ensures TrimPadding(command) != [] ==> !IsWhitespace(TrimPadding(command)[0])
    ensures var kept := TrimPadding(command);
            kept != [] && IsWhitespace(kept[|kept| - 1]) ==> ModeAfter(START, kept[..|kept| - 1]) != START
  {
    TrimStartMeaning(command);
    var text := TrimStart(command);
    var e := KeepEnd(text, |text|);
    lead, trail := command[..|command| - |text|], text[e..];
    SplitThree(command, text, e);
    KeepEndDrops(text, trail);
    KeptEndsVisible(text, |text|);
    if text != [] {
      KeptStart(text);
      TakeOfTake(text, e, e - 1);
    }
  }

  lemma SplitThree(command: string, text: string, e: nat)
    requires |text| <= |command| && text == command[|command| - |text|..] && e <= |text|
    ensures command == command[..|command| - |text|] + text[..e] + text[e..]
  {
    assert text == text[..e] + text[e..];
  }

  // ---------------------------------------------------------------- what trimming does to the words

  function TotalLength(words: seq<string>): nat {
    if words == [] then 0 else TotalLength(words[..|words| - 1]) + |words[|words| - 1]|
  }

  /** How many characters white space adds to the arguments: those that are not ASCII white space and
      not part of a redirection's operand. */
  function Added(redirection: bool, inWord: bool, padding: string): nat
    decreases |padding|
  {
    if padding == [] then 0
    else if IsAsciiWhitespace(padding[0]) then Added(redirection && !inWord, false, padding[1..])
    else (if redirection then 0 else 1) + Added(redirection, true, padding[1..])
  }

  /** Trailing white space after `l`: it adds `Added` characters, and nothing at all if that is zero. */
  lemma {:induction false} PaddingEffect(l: Lex, padding: string)
    requires l.mode == START && forall i | 0 <= i < |padding| :: IsWhitespace(padding[i])
    ensures var before, after := EndWord(l).words, EndWord(LexFrom(l, padding)).words;
            var added := Added(l.redirection, l.word.Some?, padding);
            && TotalLength(after) == TotalLength(before) + added
            && (added == 0 ==> after == before)
    decreases |padding|
  {
    if padding != [] {
      var c := padding[0];
      var next := LexChar(l, c);
      LexCons(l, padding);
      PaddingEffect(next, padding[1..]);
      if !IsAsciiWhitespace(c) {
        assert Pushed(START, c) == [c];
        OneMoreCharacter(l, c);
      }
    }
  }

  lemma OneMoreCharacter(l: Lex, c: char)
    requires l.mode == START && !IsBreak(c) && Pushed(START, c) == [c] && Advance(START, c) == START
    ensures var before, after := EndWord(l).words, EndWord(LexChar(l, c)).words;
            && TotalLength(after) == TotalLength(before) + (if l.redirection then 0 else 1)
            && (l.redirection ==> after == before)
  {
    var after := EndWord(LexChar(l, c)).words;
    if !l.redirection {
      assert after[..|after| - 1] == l.words;
      if l.word.Some? {
        assert EndWord(l).words[..|l.words|] == l.words;
      }
    }
  }

  /** The lexer with some leading characters already seen, `l1`, against one without, `l0`, after the
      same text: equal up to `extra` characters in the words, the last of them perhaps still pending. */
  ghost predicate Ahead(l1: Lex, l0: Lex, pending: string, extra: nat) {
    && l1.mode == l0.mode && l1.redirection == l0.redirection
    && if pending == [] then l1.word == l0.word && TotalLength(l1.words) == TotalLength(l0.words) + extra
       else && !l0.redirection
            && l1.word == Some(pending + if l0.word.Some? then l0.word.value else "")
            && TotalLength(l1.words) + |pending| == TotalLength(l0.words) + extra
  }

  lemma AheadEnd(l1: Lex, l0: Lex, pending: string, extra: nat)
    requires Ahead(l1, l0, pending, extra)
    requires pending != [] && l0.word.None? ==> !l0.mode.escaped
    ensures TotalLength(EndWord(l1).words) == TotalLength(EndWord(l0).words) + extra
  {
    var w1, w0 := EndWord(l1).words, EndWord(l0).words;
    if l1.word.Some? && !l1.redirection {
      assert w1[..|w1| - 1] == l1.words;
      if l0.word.Some? {
        assert w0[..|w0| - 1] == l0.words;
      }
    }
  }

  lemma AheadStep(l1: Lex, l0: Lex, pending: string, extra: nat, c: char) returns (pending': string)
    requires Ahead(l1, l0, pending, extra)
    requires pending != [] && l0.word.None? ==> l0.mode == START
    ensures Ahead(LexChar(l1, c), LexChar(l0, c), pending', extra)
    ensures pending' != [] ==> LexChar(l0, c).word.Some?
  {
    if l0.mode == START && IsBreak(c) {
      AheadEnd(l1, l0, pending, extra);
      pending' := [];
    } else {
      pending' := pending;
      if pending != [] {
        var w0 := if l0.word.Some? then l0.word.value else "";
        assert pending + (w0 + Pushed(l0.mode, c)) == (pending + w0) + Pushed(l0.mode, c);
      }
    }
  }

  lemma {:induction false} AheadText(l1: Lex, pending: string, extra: nat, text: string) returns (pending': string)
    requires Ahead(l1, LEX_START, pending, extra)
    ensures Ahead(LexFrom(l1, text), LexFrom(LEX_START, text), pending', extra)
    ensures text != [] && pending' != [] ==> LexFrom(LEX_START, text).word.Some?
    ensures text == [] ==> pending' == pending
  {
    if text == [] {
      pending' := pending;
    } else {
      var before := AheadText(l1, pending, extra, text[..|text| - 1]);
      pending' := AheadStep(LexFrom(l1, text[..|text| - 1]), LexFrom(LEX_START, text[..|text| - 1]), before, extra,
          text[|text| - 1]);
    }
  }

  /** Leading white space leaves the lexer ahead by the characters it adds. */
  lemma LeadEffect(lead: string) returns (pending: string)
    requires forall i | 0 <= i < |lead| :: IsWhitespace(lead[i])
    ensures Ahead(LexFrom(LEX_START, lead), LEX_START, pending, Added(false, false, lead))
    ensures Added(false, false, lead) == 0 ==> LexFrom(LEX_START, lead) == LEX_START
  {
    PaddingEffect(LEX_START, lead);
    var l := LexFrom(LEX_START, lead);
    LeadState(lead);
    pending := if l.word.Some? then l.word.value else [];
    if l.word.Some? {
      assert EndWord(l).words[..|l.words|] == l.words;
      assert pending + "" == pending;
    }
  }

  lemma {:induction false} LeadState(lead: string)
    requires forall i | 0 <= i < |lead| :: IsWhitespace(lead[i])
    ensures var l := LexFrom(LEX_START, lead);
            l.mode == START && !l.redirection && (l.word.Some? ==> l.word.value != [])
  {
    if lead != [] {
      LeadState(lead[..|lead| - 1]);
      var c := lead[|lead| - 1];
      assert IsAsciiWhitespace(c) || Pushed(START, c) == [c];
    }
  }

  /** Exactly when trimming keeps the argument list: the leading padding must be ASCII white space, and
      so must the trailing padding, except where it belongs to the operand of a redirection. */
  lemma TrimKeepsWordsExactly(command: string, lead: string, trail: string)
    requires command == lead + TrimPadding(command) + trail
    requires forall i | 0 <= i < |lead| :: IsWhitespace(lead[i])
    requires forall i | 0 <= i < |trail| :: IsWhitespace(trail[i])
    requires trail != [] ==> ModeAfter(START, TrimPadding(command)) == START
    requires TrimPadding(command) == [] ==> trail == []
    ensures var l := LexFrom(LEX_START, TrimPadding(command));
            ShellWords(TrimPadding(command)) == ShellWords(command)
            <==> Added(false, false, lead) == 0 && Added(l.redirection, l.word.Some?, trail) == 0
  {
    var kept := TrimPadding(command);
    ShellWordsIsLex(kept);
    ShellWordsIsLex(command);
    LexAppend(LEX_START, lead + kept, trail);
    LexAppend(LEX_START, lead, kept);
    var extra := Added(false, false, lead);
    var pending := LeadEffect(lead);
    var pending' := AheadText(LexFrom(LEX_START, lead), pending, extra, kept);
    var l1, l0 := LexFrom(LEX_START, lead + kept), LexFrom(LEX_START, kept);
    if kept == [] {
      assert l0 == LEX_START && trail == [];
    }
    AheadEnd(l1, l0, pending', extra);
    if trail != [] {
      LexMode(LEX_START, kept);
      PaddingEffect(l1, trail);
    }
  }

  /** Padding made of spaces, tabs and line ends never matters. */
  lemma {:induction false} AsciiPaddingAddsNothing(redirection: bool, inWord: bool, padding: string)
    requires forall i | 0 <= i < |padding| :: IsAsciiWhitespace(padding[i])
    ensures Added(redirection, inWord, padding) == 0
    decreases |padding|
  {
    if padding != [] {
      AsciiPaddingAddsNothing(redirection && !inWord, false, padding[1..]);
    }
  }

  ghost predicate OnlyAsciiWhitespace(text: string) {
    forall i | 0 <= i < |text| && IsWhitespace(text[i]) :: IsAsciiWhitespace(text[i])
  }

  /** A command whose white space is all ASCII keeps its arguments. */
  lemma TrimKeepsWords(command: string)
    requires OnlyAsciiWhitespace(command)
    ensures ShellWords(TrimPadding(command)) == ShellWords(command)
  {
    var lead, trail := TrimSplits(command);
    var kept := TrimPadding(command);
    TrimKeepsWordsExactly(command, lead, trail);
    forall i | 0 <= i < |lead| ensures IsAsciiWhitespace(lead[i]) {
      assert lead[i] == command[i];
    }
    forall i | 0 <= i < |trail| ensures IsAsciiWhitespace(trail[i]) {
      assert trail[i] == command[|lead + kept| + i];
    }
    var l := LexFrom(LEX_START, kept);
    AsciiPaddingAddsNothing(false, false, lead);
    AsciiPaddingAddsNothing(l.redirection, l.word.Some?, trail);
  }

  /** A no-break space at the end of a command is part of an argument, and trimming removes it. */
  lemma NoBreakSpaceIsLost()
    ensures TrimPadding("s\U{A0}") == "s" && ShellWords("s\U{A0}") == ["s\U{A0}"] && ShellWords("s") == ["s"]
  {
    var word, command := "s", "s\U{A0}";
    assert word[..0] == "" && command[..1] == word && command == word + "\U{A0}";
    assert !Bare(command, 0) && Bare(command, 1);
    assert KeepEnd(command, 1) == 1 && KeepEnd(command, 2) == 1;
    var l := LexFrom(LEX_START, word);
    assert Pushed(START, 's') == "s" && "" + "s" == "s" && l == LexChar(LEX_START, 's');
    assert Pushed(START, '\U{A0}') == "\U{A0}" && LexFrom(LEX_START, command) == LexChar(l, '\U{A0}');
    assert LexFrom(LEX_START, command) == Lex(START, Some("s\U{A0}"), false, []);
    ShellWordsIsLex(word);
    ShellWordsIsLex(command);
  }
}
