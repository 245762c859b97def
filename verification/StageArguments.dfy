/** Exactly when a command's arguments are the arguments of its stages, one stage after the other. The
    whole command's lexer may still owe an operand to a redirection when a stage begins; the stage's own
    lexer knows nothing of it. */
module StageArguments {
  import opened Outcomes
  import opened Sequences
  import opened ShellLexer
  import opened ShellStages

  /** The lexer at the start of a stage, with or without an operand owed. */
  function Entered(owed: bool): Lex {
    Lex(START, None, owed, [])
  }

  /** What the whole command's lexer makes of one stage. */
  function StageFrom(owed: bool, stage: string): Lex {
    EndWord(LexFrom(Entered(owed), stage))
  }

  /** Whether a redirection is still without its operand after these stages. */
  function OwedAfter(stages: seq<string>): bool {
    stages != [] && StageFrom(OwedAfter(stages[..|stages| - 1]), stages[|stages| - 1]).redirection
  }

  /** The arguments of the whole command, stage by stage. */
  function WholeWords(stages: seq<string>): seq<string> {
    if stages == [] then []
    else
      var front := stages[..|stages| - 1];
      WholeWords(front) + StageFrom(OwedAfter(front), stages[|stages| - 1]).words
  }

  /** The first thing in the stage, after white space and control operators, is not a redirection. */
  predicate BeginsWithArgument(stage: string) {
    if stage == [] || IsRedirection(stage[0]) then false
    else if IsBreak(stage[0]) then BeginsWithArgument(stage[1..])
    else true
  }

  /** Stage `k` is entered with an operand owed, and begins with an argument: the whole command takes that
      argument for the operand. */
  predicate TakenAsOperand(stages: seq<string>, k: nat)
    requires k < |stages|
  {
    OwedAfter(stages[..k]) && BeginsWithArgument(stages[k])
  }

  // ---- the whole command, stage by stage ----

  function Behind(words: seq<string>, l: Lex): Lex {
    l.(words := words + l.words)
  }

  lemma BehindEnd(words: seq<string>, l: Lex)
    ensures EndWord(Behind(words, l)) == Behind(words, EndWord(l))
  {
    if l.word.Some? && !l.redirection {
      Associate(words, l.words, [DecodeEnd(Decoding(l.mode, l.word.value))]);
    }
  }

  lemma BehindChar(words: seq<string>, l: Lex, c: char)
    ensures LexChar(Behind(words, l), c) == Behind(words, LexChar(l, c))
  {
    BehindEnd(words, l);
  }

  lemma WholeWordsSnoc(stages: seq<string>, last: string)
    ensures WholeWords(stages + [last]) == WholeWords(stages) + StageFrom(OwedAfter(stages), last).words
    ensures OwedAfter(stages + [last]) == StageFrom(OwedAfter(stages), last).redirection
  {
    TakeSnoc(stages, last);
  }

  lemma BehindCut(words: seq<string>, l: Lex, c: char)
    requires l.mode == START && IsControl(c)
    ensures LexChar(Behind(words, l), c) == Behind(words + EndWord(l).words, Entered(EndWord(l).redirection))
  {
    BehindEnd(words, l);
    EmptyAppend(words + EndWord(l).words);
  }

  /** What the lexer knows after `n` characters: the arguments of the finished stages, and its state in
      the current one. */
  ghost predicate SplitLexed(command: string, n: nat, allControls: bool)
    requires n <= |command|
  {
    var s := SplitAt(command, n, allControls);
    LexFrom(LEX_START, command[..n]) == Behind(WholeWords(s.stages),
        LexFrom(Entered(OwedAfter(s.stages)), command[s.start..n]))
  }

  lemma SplitLexedStep(command: string, i: nat, allControls: bool)
    requires i < |command| && SplitLexed(command, i, allControls)
    ensures SplitLexed(command, i + 1, allControls)
  {
    var s := SplitAt(command, i, allControls);
    var words, m := WholeWords(s.stages), LexFrom(Entered(OwedAfter(s.stages)), command[s.start..i]);
    LexNextWhole(command, i);
    LexMode(LEX_START, command[..i]);
    if Cuts(command, i, allControls) {
      BehindCut(words, m, command[i]);
      WholeWordsSnoc(s.stages, command[s.start..i]);
      assert command[i + 1..i + 1] == "";
    } else {
      BehindChar(words, m, command[i]);
      LexNext(Entered(OwedAfter(s.stages)), command, s.start, i);
    }
  }

  lemma {:induction false} SplitIsLexed(command: string, n: nat, allControls: bool)
    requires n <= |command|
    ensures SplitLexed(command, n, allControls)
  {
    if n == 0 {
      assert command[..0] == "" && command[0..0] == "";
      EmptyAppend<string>([]);
    } else {
      SplitIsLexed(command, n - 1, allControls);
      SplitLexedStep(command, n - 1, allControls);
    }
  }

  /** The whole command's arguments, read off its stages with the owed operand carried along. */
  lemma WholeIsStages(command: string, allControls: bool)
    ensures LexWords(command) == WholeWords(Stages(command, allControls))
  {
    var n := |command|;
    var s := SplitAt(command, n, allControls);
    SplitIsLexed(command, n, allControls);
    Whole(command, s.start);
    BehindEnd(WholeWords(s.stages), LexFrom(Entered(OwedAfter(s.stages)), command[s.start..]));
    WholeWordsSnoc(s.stages, command[s.start..]);
  }

  // ---- one stage with and without an operand owed ----

  /** In the stage's first argument, which one lexer takes for an operand. */
  predicate InFirst(owing: Lex, free: Lex) {
    && owing.mode == free.mode && owing.word == free.word && owing.word.Some?
    && owing.redirection && !free.redirection && owing.words == free.words == []
  }

  /** Past it: the lexers agree again, and one has that argument more. */
  predicate PastFirst(owing: Lex, free: Lex) {
    && owing.mode == free.mode && owing.word == free.word && owing.redirection == free.redirection
    && free.words != [] && owing.words == free.words[1..]
  }

  lemma FirstEnds(owing: Lex, free: Lex)
    requires InFirst(owing, free) || PastFirst(owing, free)
    ensures PastFirst(EndWord(owing), EndWord(free))
  {
  }

  lemma FirstChar(owing: Lex, free: Lex, c: char)
    requires InFirst(owing, free) || PastFirst(owing, free)
    ensures var o, f := LexChar(owing, c), LexChar(free, c); InFirst(o, f) || PastFirst(o, f)
  {
    FirstEnds(owing, free);
  }

  lemma {:induction false} FirstFrom(owing: Lex, free: Lex, text: string)
    requires InFirst(owing, free) || PastFirst(owing, free)
    ensures var o, f := LexFrom(owing, text), LexFrom(free, text); InFirst(o, f) || PastFirst(o, f)
  {
    if text != [] {
      FirstFrom(owing, free, text[..|text| - 1]);
      FirstChar(LexFrom(owing, text[..|text| - 1]), LexFrom(free, text[..|text| - 1]), text[|text| - 1]);
    }
  }

  lemma {:induction false} OwedStage(stage: string)
    ensures if BeginsWithArgument(stage)
            then LexWords(stage) != [] && StageFrom(true, stage).words == LexWords(stage)[1..]
            else StageFrom(true, stage).words == LexWords(stage)
  {
    if stage != [] {
      var c, rest := stage[0], stage[1..];
      LexCons(Entered(true), stage);
      LexCons(Entered(false), stage);
      if IsRedirection(c) {
      } else if IsBreak(c) {
        OwedStage(rest);
      } else {
        var owing, free := LexChar(Entered(true), c), LexChar(Entered(false), c);
        FirstFrom(owing, free, rest);
        FirstEnds(LexFrom(owing, rest), LexFrom(free, rest));
      }
    }
  }

  // ---- when the two lists are the same ----

  lemma TakenInPrefix(stages: seq<string>, k: nat)
    requires k < |stages| - 1
    ensures TakenAsOperand(stages[..|stages| - 1], k) <==> TakenAsOperand(stages, k)
  {
    TakeOfTake(stages, |stages| - 1, k);
  }

  /** Some stage loses its first argument to a redirection of an earlier one. */
  ghost predicate SomeTaken(stages: seq<string>) {
    exists k | 0 <= k < |stages| :: TakenAsOperand(stages, k)
  }

  lemma SomeTakenSnoc(stages: seq<string>)
    requires stages != []
    ensures SomeTaken(stages) <==> SomeTaken(stages[..|stages| - 1]) || TakenAsOperand(stages, |stages| - 1)
  {
    var front := stages[..|stages| - 1];
    forall k | 0 <= k < |front|
      ensures TakenAsOperand(front, k) <==> TakenAsOperand(stages, k)
    {
      TakenInPrefix(stages, k);
    }
  }

  /** Every argument taken for an operand is one the stages have more. */
  lemma {:induction false} WholeCompared(stages: seq<string>)
    ensures |WholeWords(stages)| <= |AllWords(stages)|
    ensures if SomeTaken(stages) then |WholeWords(stages)| < |AllWords(stages)|
            else WholeWords(stages) == AllWords(stages)
  {
    if stages != [] {
      WholeCompared(stages[..|stages| - 1]);
      SomeTakenSnoc(stages);
      OwedStage(stages[|stages| - 1]);
    }
  }

  /** A command's arguments are its stages' arguments exactly when no stage that is entered with an
      operand still owed begins with an argument. */
  lemma StageWordsIff(command: string, allControls: bool)
    ensures LexWords(command) == AllWords(Stages(command, allControls))
            <==> forall k | 0 <= k < |Stages(command, allControls)| :: !TakenAsOperand(Stages(command, allControls), k)
  {
    WholeIsStages(command, allControls);
    WholeCompared(Stages(command, allControls));
  }
}
