/** shell_stages: splitting a command at its unquoted control operators, and how the arguments of the
    whole relate to the arguments of the parts. */
module ShellStages {
  import opened Outcomes
  import opened Sequences
  import opened ShellLexer

  /** Whether the character at `i` separates stages. An `&` right after `<` or `>` never does, even when
      that character was itself escaped. */
  predicate Cuts(command: string, i: nat, allControls: bool)
    requires i < |command|
  {
    && ModeAfter(START, command[..i]) == START
    && IsControl(command[i]) && (command[i] == '|' || allControls)
    && !(command[i] == '&' && i > 0 && IsRedirection(command[i - 1]))
  }

  /** Finished stages, and where the current one starts. */
  datatype Split = Split(stages: seq<string>, start: nat)

  /** The scan over the first `n` characters. */
  function SplitAt(command: string, n: nat, allControls: bool): (s: Split)
    requires n <= |command|
    ensures s.start <= n
  {
    if n == 0 then Split([], 0)
    else
      var before := SplitAt(command, n - 1, allControls);
      if Cuts(command, n - 1, allControls) then Split(before.stages + [command[before.start..n - 1]], n) else before
  }

  function Stages(command: string, allControls: bool): seq<string> {
    var s := SplitAt(command, |command|, allControls);
    s.stages + [command[s.start..]]
  }

  /** shell_stages. */
  method ShellStages(command: string, allControls: bool) returns (stages: seq<string>)
    ensures stages == Stages(command, allControls)
  {
    stages := [];
    var start := 0;
    var quote := Unquoted;
    var index := 0;
    ghost var mode, seen: nat := START, 0;
    while index < |command|
      invariant index <= |command| + 1 && seen == if index <= |command| then index else |command|
      invariant mode == ModeAfter(START, command[..seen]) && mode == Mode(quote, index > |command|)
      invariant start <= seen && SplitAt(command, seen, allControls) == Split(stages, start)
    {
      var c := command[index];
      ModeSnoc(command, index);
      mode, seen := Advance(mode, c), index + 1;
      match quote {
        case Single =>
          if c == '\'' {
            quote := Unquoted;
          }
        case Double =>
          if c == '\\' {
            index := index + 1;
            if index < |command| {
              ModeSnoc(command, index);
              mode, seen := Advance(mode, command[index]), index + 1;
            }
          } else if c == '"' {
            quote := Unquoted;
          }
        case Unquoted =>
          if c == '\\' {
            index := index + 1;
            if index < |command| {
              ModeSnoc(command, index);
              mode, seen := Advance(mode, command[index]), index + 1;
            }
          } else if c == '\'' {
            quote := Single;
          } else if c == '"' {
            quote := Double;
          } else if IsControl(c) && (c == '|' || allControls)
              && !(c == '&' && index > 0 && IsRedirection(command[index - 1])) {
            stages := stages + [command[start..index]];
            start := index + 1;
          }
      }
      index := index + 1;
    }
    stages := stages + [command[start..]];
  }

  lemma ModeSnoc(command: string, i: nat)
    requires i < |command|
    ensures ModeAfter(START, command[..i + 1]) == Advance(ModeAfter(START, command[..i]), command[i])
  {
    assert command[..i + 1][..i] == command[..i];
  }

  // ---------------------------------------------------------------- the parts rebuild the whole

  /** The separators the split removed, in order. */
  function Separators(command: string, n: nat, allControls: bool): (seps: seq<char>)
    requires n <= |command|
    ensures |seps| == |SplitAt(command, n, allControls).stages|
  {
    if n == 0 then []
    else
      var before := Separators(command, n - 1, allControls);
      if Cuts(command, n - 1, allControls) then before + [command[n - 1]] else before
  }

  /** Stages followed by their separators. */
  function Interleave(stages: seq<string>, seps: seq<char>): string
    requires |stages| == |seps|
  {
    if stages == [] then ""
    else Interleave(stages[..|stages| - 1], seps[..|seps| - 1]) + (stages[|stages| - 1] + [seps[|seps| - 1]])
  }

  lemma {:induction false} SplitRebuilds(command: string, n: nat, allControls: bool)
    requires n <= |command|
    ensures var s := SplitAt(command, n, allControls);
            Interleave(s.stages, Separators(command, n, allControls)) == command[..s.start]
  {
    if n > 0 {
      SplitRebuilds(command, n - 1, allControls);
      var before := SplitAt(command, n - 1, allControls);
      if Cuts(command, n - 1, allControls) {
        var stages, seps := before.stages, Separators(command, n - 1, allControls);
        var last := command[before.start..n - 1];
        TakeSnoc(stages, last);
        TakeSnoc(seps, command[n - 1]);
        Associate(command[..before.start], last, [command[n - 1]]);
        PrefixParts(command, before.start, n);
      }
    }
  }

  /** Nothing is lost: the stages with the removed separators between them are the command. */
  lemma StagesRebuild(command: string, allControls: bool)
    ensures var stages, seps := Stages(command, allControls), Separators(command, |command|, allControls);
            && |stages| == |seps| + 1
            && command == Interleave(stages[..|seps|], seps) + stages[|seps|]
  {
    SplitRebuilds(command, |command|, allControls);
    var s := SplitAt(command, |command|, allControls);
    TakeSnoc(s.stages, command[s.start..]);
    SplitHere(command, s.start);
  }

  /** Every stage, the current one included, starts outside quotes. */
  lemma {:induction false} StageStartsUnquoted(command: string, n: nat, allControls: bool)
    requires n <= |command|
    ensures ModeAfter(START, command[..SplitAt(command, n, allControls).start]) == START
  {
    if n > 0 {
      StageStartsUnquoted(command, n - 1, allControls);
      if Cuts(command, n - 1, allControls) {
        ModeSnoc(command, n - 1);
      }
    }
  }

  // ---------------------------------------------------------------- nothing is left to split

  /** No control operator that should separate stages stands unquoted in the text. */
  ghost predicate Unseparated(text: string, allControls: bool) {
    forall j | 0 <= j < |text| && ModeAfter(START, text[..j]) == START :: !SeparatorAt(text, j, allControls)
  }

  /** One of `|;&()`, or of `|` alone, that is not the `&` of a redirection like `2>&1`. */
  predicate SeparatorAt(text: string, j: nat, allControls: bool)
    requires j < |text|
  {
    && text[j] in (if allControls then "|;&()" else "|")
    && !(text[j] == '&' && j > 0 && text[j - 1] in "<>")
  }

  lemma SeparatorStays(text: string, c: char, j: nat, allControls: bool)
    requires j < |text|
    ensures SeparatorAt(text + [c], j, allControls) == SeparatorAt(text, j, allControls)
    ensures (text + [c])[..j] == text[..j]
  {
  }

  /** One more character that is no separator where it stands. */
  lemma UnseparatedSnoc(text: string, c: char, allControls: bool)
    requires Unseparated(text, allControls)
    requires ModeAfter(START, text) == START ==> !SeparatorAt(text + [c], |text|, allControls)
    ensures Unseparated(text + [c], allControls)
  {
    forall j | 0 <= j < |text + [c]| && ModeAfter(START, (text + [c])[..j]) == START
      ensures !SeparatorAt(text + [c], j, allControls)
    {
      if j < |text| {
        SeparatorStays(text, c, j, allControls);
      } else {
        TakeSnoc(text, c);
      }
    }
  }

  /** A stage so far goes on with a character that does not cut. */
  lemma UnseparatedGrows(command: string, start: nat, i: nat, allControls: bool)
    requires start <= i < |command| && ModeAfter(START, command[..start]) == START
    requires start > 0 ==> !IsRedirection(command[start - 1])
    requires Unseparated(command[start..i], allControls) && !Cuts(command, i, allControls)
    ensures Unseparated(command[start..i + 1], allControls)
  {
    var text := command[start..i];
    SplitTake(command, start, i);
    ModeAppend(START, command[..start], text);
    SliceSnoc(command, start, i);
    UnseparatedSnoc(text, command[i], allControls);
  }

  lemma SliceSnoc(command: string, start: nat, i: nat)
    requires start <= i < |command|
    ensures command[start..i + 1] == command[start..i] + [command[i]]
  {
  }

  lemma {:induction false} SplitUnseparated(command: string, n: nat, allControls: bool)
    requires n <= |command|
    ensures var s := SplitAt(command, n, allControls);
            && (forall stage | stage in s.stages :: Unseparated(stage, allControls))
            && Unseparated(command[s.start..n], allControls)
            && (s.start > 0 ==> !IsRedirection(command[s.start - 1]))
  {
    if n > 0 {
      var before := SplitAt(command, n - 1, allControls);
      SplitUnseparated(command, n - 1, allControls);
      StageStartsUnquoted(command, n - 1, allControls);
      if !Cuts(command, n - 1, allControls) {
        UnseparatedGrows(command, before.start, n - 1, allControls);
      }
    }
  }

  lemma {:induction false} SeparatorsAreControls(command: string, n: nat, allControls: bool, c: char)
    requires n <= |command| && c in Separators(command, n, allControls)
    ensures c in (if allControls then "|;&()" else "|")
  {
    if !(Cuts(command, n - 1, allControls) && c == command[n - 1]) {
      SeparatorsAreControls(command, n - 1, allControls, c);
    }
  }

  /** The split is complete and cuts nowhere else: no stage holds an unquoted operator that should have
      separated it, and everything removed between the stages is such an operator. */
  lemma StagesAreComplete(command: string, allControls: bool)
    ensures forall stage | stage in Stages(command, allControls) :: Unseparated(stage, allControls)
    ensures forall c | c in Separators(command, |command|, allControls) :: c in (if allControls then "|;&()" else "|")
  {
    SplitUnseparated(command, |command|, allControls);
    Whole(command, SplitAt(command, |command|, allControls).start);
    forall c | c in Separators(command, |command|, allControls)
      ensures c in (if allControls then "|;&()" else "|")
    {
      SeparatorsAreControls(command, |command|, allControls, c);
    }
  }

  // ---------------------------------------------------------------- arguments of the whole and of the parts

  predicate IsSubsequence(a: seq<string>, b: seq<string>) {
    if a == [] then true
    else if b == [] then false
    else if a[|a| - 1] == b[|b| - 1] && IsSubsequence(a[..|a| - 1], b[..|b| - 1]) then true
    else IsSubsequence(a, b[..|b| - 1])
  }

  lemma SubsequenceBoth(a: seq<string>, b: seq<string>, w: string)
    requires IsSubsequence(a, b)
    ensures IsSubsequence(a + [w], b + [w])
  {
    assert (a + [w])[..|a|] == a && (b + [w])[..|b|] == b;
  }

  lemma SubsequenceSkip(a: seq<string>, b: seq<string>, w: string)
    requires IsSubsequence(a, b)
    ensures IsSubsequence(a, b + [w])
  {
    assert (b + [w])[..|b|] == b;
  }

  /** The arguments of all stages, one stage after the other. */
  function AllWords(stages: seq<string>): seq<string> {
    if stages == [] then [] else AllWords(stages[..|stages| - 1]) + LexWords(stages[|stages| - 1])
  }

  /** The whole command's lexer `l` beside the current stage's `m`: they differ only in a redirection
      still waiting for its operand, which the new stage has forgotten, so the whole may skip words
      that the stages list. `exact` says that no redirection has been seen. */
  ghost predicate Follows(l: Lex, m: Lex, earlier: seq<string>, exact: bool) {
    && l.mode == m.mode && l.word == m.word
    && (m.redirection ==> l.redirection)
    && (l.word.None? ==> l.mode == START)
    && IsSubsequence(l.words, earlier + m.words)
    && (exact ==> !l.redirection && l.words == earlier + m.words)
  }

  lemma FollowsEnd(l: Lex, m: Lex, earlier: seq<string>, exact: bool)
    requires Follows(l, m, earlier, exact)
    ensures var l', m' := EndWord(l), EndWord(m);
            && l'.mode == m'.mode && l'.word == m'.word == None
            && (m'.redirection ==> l'.redirection)
            && IsSubsequence(l'.words, earlier + m'.words)
            && (exact ==> !l'.redirection && l'.words == earlier + m'.words)
  {
    if l.word.Some? {
      var w := DecodeEnd(Decoding(l.mode, l.word.value));
      assert earlier + (m.words + [w]) == (earlier + m.words) + [w];
      SubsequenceBoth(l.words, earlier + m.words, w);
      SubsequenceSkip(l.words, earlier + m.words, w);
    }
  }

  lemma FollowsChar(l: Lex, m: Lex, earlier: seq<string>, exact: bool, c: char)
    requires Follows(l, m, earlier, exact)
    ensures Follows(LexChar(l, c), LexChar(m, c), earlier, exact && !(l.mode == START && IsRedirection(c)))
  {
    FollowsEnd(l, m, earlier, exact);
  }

  lemma StartFollows(l: Lex, all: seq<string>, exact: bool)
    requires l.mode == START && l.word.None? && IsSubsequence(l.words, all)
    requires exact ==> !l.redirection && l.words == all
    ensures Follows(l, LEX_START, all, exact)
  {
    EmptyAppend(all);
  }

  /** Cutting at a control operator: the stage's arguments are complete, and the next starts afresh. */
  lemma FollowsCut(l: Lex, m: Lex, earlier: seq<string>, exact: bool, c: char)
    requires Follows(l, m, earlier, exact) && l.mode == START && IsControl(c)
    ensures Follows(LexChar(l, c), LEX_START, earlier + EndWord(m).words, exact)
  {
    FollowsEnd(l, m, earlier, exact);
    StartFollows(EndWord(l), earlier + EndWord(m).words, exact);
  }

  /** No redirection operator stands outside quotes in the first `n` characters. */
  ghost predicate NoRedirection(command: string, n: nat)
    requires n <= |command|
  {
    forall i | 0 <= i < n :: !(ModeAfter(START, command[..i]) == START && IsRedirection(command[i]))
  }

  lemma {:induction false} StagesFollow(command: string, n: nat, allControls: bool)
    requires n <= |command|
    ensures var s := SplitAt(command, n, allControls);
            Follows(LexFrom(LEX_START, command[..n]), LexFrom(LEX_START, command[s.start..n]), AllWords(s.stages),
                NoRedirection(command, n))
  {
    if n == 0 {
      assert command[..0] == "" && command[0..0] == "";
      assert [] + LEX_START.words == [];
    } else {
      StagesFollow(command, n - 1, allControls);
      StagesFollowStep(command, n - 1, allControls);
    }
  }

  /** A cut: the stage so far is finished, and the next one is still empty. */
  lemma SplitCut(command: string, i: nat, allControls: bool)
    requires i < |command| && Cuts(command, i, allControls)
    ensures var s, t := SplitAt(command, i, allControls), SplitAt(command, i + 1, allControls);
            && t.start == i + 1 && command[i + 1..i + 1] == ""
            && AllWords(t.stages) == AllWords(s.stages) + LexWords(command[s.start..i])
  {
    var s := SplitAt(command, i, allControls);
    AllWordsSnoc(s.stages, command[s.start..i]);
  }

  lemma StagesFollowStep(command: string, i: nat, allControls: bool)
    requires i < |command|
    requires var s := SplitAt(command, i, allControls);
             Follows(LexFrom(LEX_START, command[..i]), LexFrom(LEX_START, command[s.start..i]), AllWords(s.stages),
                 NoRedirection(command, i))
    ensures var s := SplitAt(command, i + 1, allControls);
            Follows(LexFrom(LEX_START, command[..i + 1]), LexFrom(LEX_START, command[s.start..i + 1]),
                AllWords(s.stages), NoRedirection(command, i + 1))
  {
    var s := SplitAt(command, i, allControls);
    var l, m := LexFrom(LEX_START, command[..i]), LexFrom(LEX_START, command[s.start..i]);
    LexMode(LEX_START, command[..i]);
    LexNextWhole(command, i);
    NoRedirectionSnoc(command, i);
    if Cuts(command, i, allControls) {
      FollowsCut(l, m, AllWords(s.stages), NoRedirection(command, i), command[i]);
      SplitCut(command, i, allControls);
    } else {
      LexNext(LEX_START, command, s.start, i);
      FollowsChar(l, m, AllWords(s.stages), NoRedirection(command, i), command[i]);
    }
  }

  lemma NoRedirectionSnoc(command: string, i: nat)
    requires i < |command|
    ensures NoRedirection(command, i + 1) == (NoRedirection(command, i)
            && !(ModeAfter(START, command[..i]) == START && IsRedirection(command[i])))
  {
  }

  lemma LexNextWhole(command: string, i: nat)
    requires i < |command|
    ensures LexFrom(LEX_START, command[..i + 1]) == LexChar(LexFrom(LEX_START, command[..i]), command[i])
  {
    assert command[..i + 1][..i] == command[..i];
  }

  lemma AllWordsSnoc(stages: seq<string>, last: string)
    ensures AllWords(stages + [last]) == AllWords(stages) + LexWords(last)
  {
    TakeSnoc(stages, last);
  }

  lemma LexNext(l: Lex, command: string, from: nat, i: nat)
    requires from <= i < |command|
    ensures LexFrom(l, command[from..i + 1]) == LexChar(LexFrom(l, command[from..i]), command[i])
  {
    SliceSlice(command, from, i + 1, 0, i - from);
  }

  /** The arguments of a command are found, in order, among the arguments of its stages; when it has no
      unquoted redirection they are exactly the stages' arguments one after the other. */
  lemma StageWords(command: string, allControls: bool)
    ensures IsSubsequence(LexWords(command), AllWords(Stages(command, allControls)))
    ensures NoRedirection(command, |command|) ==> LexWords(command) == AllWords(Stages(command, allControls))
  {
    StagesFollow(command, |command|, allControls);
    var s := SplitAt(command, |command|, allControls);
    var n := |command|;
    Whole(command, s.start);
    FollowsEnd(LexFrom(LEX_START, command), LexFrom(LEX_START, command[s.start..]), AllWords(s.stages),
        NoRedirection(command, n));
    TakeSnoc(s.stages, command[s.start..]);
  }

  lemma LexRedirectionExample()
    ensures LexWords(">|x") == []
  {
    assert ">|x"[..2] == ">|" && ">|"[..1] == ">" && ">"[..0] == "";
    assert LexFrom(LEX_START, ">") == Lex(START, None, true, []);
    assert LexFrom(LEX_START, ">|") == Lex(START, None, true, []);
  }

  lemma SplitRedirectionExample()
    ensures Stages(">|x", true) == [">", "x"]
  {
    var command := ">|x";
    assert command[..0] == "" && command[..1] == ">" && command[..2] == ">|" && ">|"[..1] == ">" && ">"[..0] == "";
    assert !Cuts(command, 0, true) && Cuts(command, 1, true) && !Cuts(command, 2, true);
    assert SplitAt(command, 1, true) == Split([], 0);
    assert SplitAt(command, 2, true) == Split([command[0..1]], 2);
    assert SplitAt(command, 3, true) == Split([command[0..1]], 2);
  }

  lemma StageWordsExample()
    ensures AllWords([">", "x"]) == ["x"]
  {
    assert [">", "x"] == [">"] + ["x"] && [">"] == [] + [">"];
    assert ">"[..0] == "" && "x"[..0] == "";
    assert LexFrom(LEX_START, ">") == Lex(START, None, true, []);
    assert Pushed(START, 'x') == "x" && "" + "x" == "x";
    assert LexFrom(LEX_START, "x") == Lex(START, Some("x"), false, []);
    AllWordsSnoc([">"], "x");
    AllWordsSnoc([], ">");
  }

  /** With a redirection the two can differ: one left without its operand by a pipe takes the next word. */
  lemma RedirectionSkipsWord()
    ensures LexWords(">|x") == [] && AllWords(Stages(">|x", true)) == ["x"]
  {
    LexRedirectionExample();
    SplitRedirectionExample();
    StageWordsExample();
  }
}
