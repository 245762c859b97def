/** validate_candidate, the one gate every correction passes, and the proposal card that accepts a
    draft: what the gate lets through it lets through again unchanged. */
module CandidateGate {
  import opened Outcomes
  import opened Utf8
  import opened Whitespace
  import opened ShellLexer
  import opened ShellTrim
  import opened ShellReplace

  const MAX_CORRECTION_COMMAND_BYTES: nat := 16 * 1024
  const MAX_REVIEW_INPUT_BYTES: nat := 256 * 1024
  const PRIVILEGE_DISPATCHERS: set<string> := {"doas", "gosu", "pkexec", "run0", "runuser", "su", "su-exec", "sudo",
      "sudoedit"}
  const REMOTE_PROGRAMS: set<string> := {"ssh", "mosh", "scp", "sftp"}
  const NETWORK_TO_INTERPRETER := "piping network content into an interpreter"

  datatype ReviewInputError = EmptyInput | TooLarge | ControlCharacter | VisualSpoof

  datatype CorrectionRejection =
    | CommandTooLarge
    | CommandUnsafe(error: ReviewInputError)
    | CommandUnchanged
    | AddsControlSyntax
    | AddsPrivilegeEscalation
    | AddsRemoteExecution
    | AddsPipeToInterpreter

  /** The tables and classifiers the gate consults, none of which this model looks into. */
  datatype Policy = Policy(
    invisible: char -> bool,
    programs: string -> set<string>,
    interpreters: string -> set<string>,
    danger: string -> Option<string>)
  {
    /** The shared invisible-character rule covers every white space beyond ASCII. */
    ghost predicate Lawful() {
      forall c: char | IsWhitespace(c) && c as int >= 0xA0 :: invisible(c)
    }
  }

  /** `char::is_control`. */
  predicate IsControlCharacter(c: char) {
    (c as int) < 0x20 || 0x7F <= c as int < 0xA0
  }

  /** review_input::validate. */
  function Review(policy: Policy, text: string): Result<string, ReviewInputError> {
    if Utf8Len(text) > MAX_REVIEW_INPUT_BYTES then Err(TooLarge)
    else if IsBlank(text) then Err(EmptyInput)
    else if exists i | 0 <= i < |text| :: IsControlCharacter(text[i]) then Err(ControlCharacter)
    else if exists i | 0 <= i < |text| :: policy.invisible(text[i]) then Err(VisualSpoof)
    else Ok(text)
  }

  predicate AddsPipe(policy: Policy, original: string, candidate: string) {
    || !(policy.interpreters(candidate) <= policy.interpreters(original))
    || (policy.danger(candidate) == Some(NETWORK_TO_INTERPRETER)
        && policy.danger(original) != Some(NETWORK_TO_INTERPRETER))
  }

  /** Some listed program that the candidate would run and the original would not. */
  predicate AddsProgram(policy: Policy, listed: set<string>, original: string, candidate: string) {
    exists name | name in listed :: name in policy.programs(candidate) && name !in policy.programs(original)
  }

  /** The rules that compare the trimmed candidate with the original. */
  ghost function Compare(policy: Policy, original: string, trimmed: string): Result<string, CorrectionRejection> {
    if trimmed == TrimPadding(original) then Err(CommandUnchanged)
    else if !(SyntaxMarkers(trimmed) <= SyntaxMarkers(original)) then Err(AddsControlSyntax)
    else if AddsProgram(policy, PRIVILEGE_DISPATCHERS, original, trimmed) then Err(AddsPrivilegeEscalation)
    else if AddsProgram(policy, REMOTE_PROGRAMS, original, trimmed) then Err(AddsRemoteExecution)
    else if AddsPipe(policy, original, trimmed) then Err(AddsPipeToInterpreter)
    else Ok(trimmed)
  }

  /** The end of validate_candidate, after the checks it shares with validate_edited_command. */
  ghost function Decide(policy: Policy, original: string, edited: Result<string, CorrectionRejection>)
    : Result<string, CorrectionRejection>
  {
    match edited
    case Err(rejection) => Err(rejection)
    case Ok(trimmed) => Compare(policy, original, trimmed)
  }

  /** validate_candidate. */
  ghost function ValidateCandidate(policy: Policy, original: string, candidate: string)
    : Result<string, CorrectionRejection>
  {
    Decide(policy, original, ValidateEdited(policy, candidate))
  }

  /** validate_edited_command, which is also how validate_candidate begins. */
  function ValidateEdited(policy: Policy, draft: string): Result<string, CorrectionRejection> {
    if Utf8Len(draft) > MAX_CORRECTION_COMMAND_BYTES then Err(CommandTooLarge)
    else
      match Review(policy, draft)
      case Err(error) => Err(CommandUnsafe(error))
      case Ok(reviewed) => Ok(TrimPadding(reviewed))
  }

  /** verified_run_allowed, with the evidence reduced to whether it is verified. */
  predicate VerifiedRunAllowed(policy: Policy, verified: bool, proposed: string, current: string) {
    verified && current == proposed && policy.danger(current).None?
  }

  datatype Accepted = Accepted(command: string, runDirectly: bool)

  /** The editable card: a validated command, its evidence, and the draft. */
  class CorrectionProposal {
    const policy: Policy
    const command: string
    const verified: bool
    var draft: string

    constructor (policy: Policy, command: string, verified: bool)
      ensures this.policy == policy && this.command == command && this.verified == verified && draft == command
    {
      this.policy := policy;
      this.command := command;
      this.verified := verified;
      this.draft := command;
    }

    /** What the card labels its primary action with. */
    function RunAllowed(): bool
      reads this
    {
      match ValidateEdited(policy, draft)
      case Err(_) => false
      case Ok(text) => VerifiedRunAllowed(policy, verified, command, text)
    }

    /** What submitting the card does: the label never disagrees, and only the proposed command itself,
        apart from padding, is run directly. */
    method Accept() returns (result: Result<Accepted, CorrectionRejection>)
      ensures result == match ValidateEdited(policy, draft)
                        case Err(e) => Err(e)
                        case Ok(text) => Ok(Accepted(text, VerifiedRunAllowed(policy, verified, command, text)))
      ensures RunAllowed() <==> result.Ok? && result.value.runDirectly
      ensures result.Ok? ==>
                (result.value.runDirectly <==>
                   verified && result.value.command == command && policy.danger(command).None?)
    {
      match ValidateEdited(policy, draft) {
        case Err(e) => result := Err(e);
        case Ok(text) => result := Ok(Accepted(text, VerifiedRunAllowed(policy, verified, command, text)));
      }
    }
  }

  // ---------------------------------------------------------------- what the gate guarantees

  /** A part of a reviewed text that is not blank is reviewable too. */
  lemma ReviewPart(policy: Policy, lead: string, text: string, trail: string)
    requires Review(policy, lead + text + trail).Ok? && !IsBlank(text)
    ensures Review(policy, text) == Ok(text) && Utf8Len(text) <= Utf8Len(lead + text + trail)
  {
    var whole := lead + text + trail;
    Utf8LenAppend(lead + text, trail);
    Utf8LenAppend(lead, text);
    forall i | 0 <= i < |text| ensures !IsControlCharacter(text[i]) && !policy.invisible(text[i]) {
      assert text[i] == whole[|lead| + i];
    }
  }

  lemma TrimmedIsNotBlank(text: string)
    requires !IsBlank(text)
    ensures !IsBlank(TrimPadding(text))
  {
    var lead, trail := TrimSplits(text);
    assert TrimPadding(text) == [] ==> lead + TrimPadding(text) + trail == lead;
  }

  lemma ReviewedIsTheText(policy: Policy, text: string)
    requires Review(policy, text).Ok?
    ensures Review(policy, text) == Ok(text) && !IsBlank(text)
  {
  }

  /** A reviewed text survives trimming: what is left is still reviewable, and no longer. */
  lemma ReviewClosedUnderTrim(policy: Policy, text: string)
    requires Review(policy, text).Ok?
    ensures Utf8Len(TrimPadding(text)) <= Utf8Len(text) && Review(policy, TrimPadding(text)) == Ok(TrimPadding(text))
  {
    ReviewedIsTheText(policy, text);
    TrimmedIsNotBlank(text);
    var lead, trail := TrimSplits(text);
    ReviewPart(policy, lead, TrimPadding(text), trail);
  }

  /** Text that passes review has no white space but the plain space. */
  lemma ReviewedWhitespace(policy: Policy, text: string)
    requires policy.Lawful() && Review(policy, text).Ok?
    ensures OnlyAsciiWhitespace(text)
  {
    forall i | 0 <= i < |text| && IsWhitespace(text[i]) ensures IsAsciiWhitespace(text[i]) {
      assert !IsControlCharacter(text[i]) && !policy.invisible(text[i]);
    }
  }

  /** An accepted draft is accepted again as it is. */
  lemma EditedRevalidates(policy: Policy, draft: string)
    requires ValidateEdited(policy, draft).Ok?
    ensures var command := ValidateEdited(policy, draft).value; ValidateEdited(policy, command) == Ok(command)
  {
    ReviewedIsTheText(policy, draft);
    ReviewClosedUnderTrim(policy, draft);
    TrimIdempotent(draft);
  }

  /** The gate is stable: an accepted command, proposed again against the same original, is accepted as
      it is; so is the unedited draft of its card. */
  lemma AcceptedRevalidates(policy: Policy, original: string, candidate: string)
    requires ValidateCandidate(policy, original, candidate).Ok?
    ensures var command := ValidateCandidate(policy, original, candidate).value;
            && ValidateCandidate(policy, original, command) == Ok(command)
            && ValidateEdited(policy, command) == Ok(command)
  {
    EditedRevalidates(policy, candidate);
    DecideKeeps(policy, original, ValidateEdited(policy, candidate));
  }

  lemma DecideKeeps(policy: Policy, original: string, edited: Result<string, CorrectionRejection>)
    requires Decide(policy, original, edited).Ok?
    ensures Decide(policy, original, edited) == edited
  {
  }

  /** The gate drops padding only: the accepted command has the arguments of the candidate. */
  lemma AcceptedKeepsWords(policy: Policy, original: string, candidate: string)
    requires policy.Lawful() && ValidateCandidate(policy, original, candidate).Ok?
    ensures ShellWords(ValidateCandidate(policy, original, candidate).value) == ShellWords(candidate)
  {
    ReviewedIsTheText(policy, candidate);
    ReviewedWhitespace(policy, candidate);
    TrimKeepsWords(candidate);
    DecideKeeps(policy, original, ValidateEdited(policy, candidate));
  }

  /** Text that review_input::validate passes: something to see, no control, nothing invisible. */
  ghost predicate Reviewable(policy: Policy, text: string) {
    && (exists i :: 0 <= i < |text| && !IsWhitespace(text[i]))
    && (forall i | 0 <= i < |text| :: !IsControlCharacter(text[i]) && !policy.invisible(text[i]))
  }

  lemma EditedAcceptedIff(policy: Policy, draft: string)
    ensures ValidateEdited(policy, draft) == Ok(TrimPadding(draft))
            <==> Utf8Len(draft) <= MAX_CORRECTION_COMMAND_BYTES && Reviewable(policy, draft)
    ensures ValidateEdited(policy, draft).Ok? ==> ValidateEdited(policy, draft).value == TrimPadding(draft)
  {
    if Review(policy, draft).Ok? {
      ReviewedIsTheText(policy, draft);
    }
  }

  /** What the gate lets through, in terms of the candidate `t` without its padding: a change that adds no
      control syntax, runs no privilege or remote program and feeds no interpreter that the original does
      not, and pipes network content into an interpreter only if the original did. Whatever meets these
      rules is accepted, as `t`. */
  lemma AcceptedIff(policy: Policy, original: string, candidate: string)
    ensures var t := TrimPadding(candidate);
            ValidateCandidate(policy, original, candidate) == Ok(t)
            <==>
              && Utf8Len(candidate) <= MAX_CORRECTION_COMMAND_BYTES && Reviewable(policy, candidate)
              && t != TrimPadding(original)
              && SyntaxMarkers(t) <= SyntaxMarkers(original)
              && policy.programs(t) * (PRIVILEGE_DISPATCHERS + REMOTE_PROGRAMS) <= policy.programs(original)
              && policy.interpreters(t) <= policy.interpreters(original)
              && (policy.danger(t) == Some(NETWORK_TO_INTERPRETER) ==>
                    policy.danger(original) == Some(NETWORK_TO_INTERPRETER))
    ensures ValidateCandidate(policy, original, candidate).Ok? ==>
              ValidateCandidate(policy, original, candidate).value == TrimPadding(candidate)
  {
    EditedAcceptedIff(policy, candidate);
    AddsListedIff(policy, original, TrimPadding(candidate));
    CompareIff(policy, original, TrimPadding(candidate));
  }

  lemma AddsListedIff(policy: Policy, original: string, t: string)
    ensures (&& !AddsProgram(policy, PRIVILEGE_DISPATCHERS, original, t)
             && !AddsProgram(policy, REMOTE_PROGRAMS, original, t))
            <==> policy.programs(t) * (PRIVILEGE_DISPATCHERS + REMOTE_PROGRAMS) <= policy.programs(original)
  {
    if policy.programs(t) * (PRIVILEGE_DISPATCHERS + REMOTE_PROGRAMS) <= policy.programs(original) {
      forall name | name in PRIVILEGE_DISPATCHERS + REMOTE_PROGRAMS && name in policy.programs(t)
        ensures name in policy.programs(original)
      {
        assert name in policy.programs(t) * (PRIVILEGE_DISPATCHERS + REMOTE_PROGRAMS);
      }
    }
  }

  lemma CompareIff(policy: Policy, original: string, t: string)
    ensures Compare(policy, original, t) == Ok(t)
            <==>
              && t != TrimPadding(original)
              && SyntaxMarkers(t) <= SyntaxMarkers(original)
              && !AddsProgram(policy, PRIVILEGE_DISPATCHERS, original, t)
              && !AddsProgram(policy, REMOTE_PROGRAMS, original, t)
              && policy.interpreters(t) <= policy.interpreters(original)
              && (policy.danger(t) == Some(NETWORK_TO_INTERPRETER) ==>
                    policy.danger(original) == Some(NETWORK_TO_INTERPRETER))
  {
  }

  /** A rejection names a rule that the candidate breaks. */
  lemma RejectionIsHonest(policy: Policy, original: string, candidate: string)
    requires ValidateCandidate(policy, original, candidate).Err?
    ensures var t := TrimPadding(candidate);
            match ValidateCandidate(policy, original, candidate).error
            case CommandTooLarge => Utf8Len(candidate) > MAX_CORRECTION_COMMAND_BYTES
            case CommandUnsafe(_) => !Reviewable(policy, candidate)
            case CommandUnchanged => t == TrimPadding(original)
            case AddsControlSyntax => exists marker | marker in SyntaxMarkers(t) :: marker !in SyntaxMarkers(original)
            case AddsPrivilegeEscalation =>
              exists name | name in PRIVILEGE_DISPATCHERS * policy.programs(t) :: name !in policy.programs(original)
            case AddsRemoteExecution =>
              exists name | name in REMOTE_PROGRAMS * policy.programs(t) :: name !in policy.programs(original)
            case AddsPipeToInterpreter =>
              || (exists name | name in policy.interpreters(t) :: name !in policy.interpreters(original))
              || policy.danger(t) == Some(NETWORK_TO_INTERPRETER)
  {
    var t := TrimPadding(candidate);
    EditedAcceptedIff(policy, candidate);
    EditedRejections(policy, candidate);
    match ValidateCandidate(policy, original, candidate).error {
      case AddsPrivilegeEscalation => assert AddsProgram(policy, PRIVILEGE_DISPATCHERS, original, t);
      case AddsRemoteExecution => assert AddsProgram(policy, REMOTE_PROGRAMS, original, t);
      case _ =>
    }
  }

  lemma ContainsInPart(lead: string, text: string, trail: string, marker: string)
    requires Contains(text, marker)
    ensures Contains(lead + text + trail, marker)
  {
    var i: nat :| MarkerAt(text, i, marker);
    var whole := lead + text + trail;
    assert whole[|lead| + i..|lead| + i + |marker|] == text[i..i + |marker|];
    assert MarkerAt(whole, |lead| + i, marker);
  }

  lemma TrimmedMarkers(text: string)
    ensures SyntaxMarkers(TrimPadding(text)) <= SyntaxMarkers(text)
  {
    var lead, trail := TrimSplits(text);
    forall marker | marker in SyntaxMarkers(TrimPadding(text)) ensures marker in SyntaxMarkers(text) {
      ContainsInPart(lead, TrimPadding(text), trail, marker);
    }
  }

  /** A deterministic one-word correction is never refused for adding control syntax. */
  lemma ReplacementPassesMarkerRule(policy: Policy, alphanumeric: char -> bool, command: string, from: string,
      name: string)
    requires ReplaceShellWord(alphanumeric, command, from, name).Some?
    ensures var corrected := ReplaceShellWord(alphanumeric, command, from, name).value;
            ValidateCandidate(policy, command, corrected) != Err(AddsControlSyntax)
  {
    var result := ReplaceShellWord(alphanumeric, command, from, name).value;
    ReplacementMarkers(alphanumeric, command, from, name);
    TrimmedMarkers(result);
    GateMarkers(policy, command, result);
  }

  lemma ReplacementMarkers(alphanumeric: char -> bool, command: string, from: string, name: string)
    requires ReplaceShellWord(alphanumeric, command, from, name).Some?
    ensures SyntaxMarkers(ReplaceShellWord(alphanumeric, command, from, name).value) <= SyntaxMarkers(command)
  {
    ReplaceExactly(alphanumeric, command, from, name);
    var k: nat :| OnlyMatchIs(Spelling(command, from), Spans(command), k);
    ReplaceChangesOneWord(alphanumeric, command, from, name, k);
  }

  lemma GateMarkers(policy: Policy, original: string, candidate: string)
    requires SyntaxMarkers(TrimPadding(candidate)) <= SyntaxMarkers(original)
    ensures ValidateCandidate(policy, original, candidate) != Err(AddsControlSyntax)
  {
    EditedRejections(policy, candidate);
    DecideMarkers(policy, original, ValidateEdited(policy, candidate));
  }

  lemma EditedRejections(policy: Policy, draft: string)
    ensures match ValidateEdited(policy, draft)
            case Err(rejection) => rejection.CommandTooLarge? || rejection.CommandUnsafe?
            case Ok(command) => command == TrimPadding(draft)
  {
  }

  lemma DecideMarkers(policy: Policy, original: string, edited: Result<string, CorrectionRejection>)
    requires edited.Err? ==> !edited.error.AddsControlSyntax?
    requires edited.Ok? ==> SyntaxMarkers(edited.value) <= SyntaxMarkers(original)
    ensures Decide(policy, original, edited) != Err(AddsControlSyntax)
  {
  }
}
