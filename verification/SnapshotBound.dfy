/** Bounding a live agent snapshot before it is stored: the oldest turns go, a proposal together with
    its observation, until the JSON of the transcript fits, counting bytes incrementally. */
module SnapshotBound {
  import opened Outcomes
  import opened Utf8
  import opened Whitespace

  const MAX_STORED_TRANSCRIPT_ENTRIES: nat := 128
  const MAX_STORED_TRANSCRIPT_BYTES: nat := 128 * 1024
  const MAX_OBSERVATION_BYTES: nat := 4 * 1024
  const MAX_MESSAGE_BYTES: nat := 16 * 1024
  const MAX_THOUGHT_BYTES: nat := 4 * 1024
  const MAX_AGENT_SNAPSHOT_JSON_BYTES: nat := 256 * 1024
  const U64_MAX: nat := 0xffff_ffff_ffff_ffff

  type u32 = x: nat | x <= 0xffff_ffff
  type u64 = x: nat | x <= U64_MAX

  /** `rest` stands for the fields the bound does not look at. */
  datatype Turn =
    | User(message: string)
    | AssistantSay(message: string)
    | AssistantThought(thought: string)
    | AssistantProposed(id: u64, rest: string)
    | Observation(proposalId: u64, outputSample: string, rest: string)
    | ProtocolError(message: string)

  datatype Header = Header(version: u32, state: nat, turnsUsed: u32, maxTurns: u32, nextProposalId: u64)

  datatype Snapshot = Snapshot(header: Header, transcript: seq<Turn>, truncated: bool)

  datatype SnapshotError =
    | EntryLimit | ByteLimit | TextBounds | ObservationBounds | StaleProposalId
    | UnitTooLarge | TooLarge | Rejected

  type Json = seq<bv8>

  /** The JSON of a turn and of the state field, and whether jagent's own decoder takes a document. */
  datatype Wire = Wire(turn: Turn -> Json, state: nat -> Json, accepts: Snapshot -> bool)

  // ---- encoded sizes ----

  const OPEN: bv8 := 0x5b
  const COMMA: bv8 := 0x2c
  const CLOSE: bv8 := 0x5d

  function Joined(ts: seq<Turn>, turn: Turn -> Json): Json {
    if ts == [] then [] else if |ts| == 1 then turn(ts[0]) else turn(ts[0]) + [COMMA] + Joined(ts[1..], turn)
  }

  /** The JSON array of a transcript. */
  function EncodeTurns(ts: seq<Turn>, turn: Turn -> Json): Json {
    [OPEN] + Joined(ts, turn) + [CLOSE]
  }

  /** Dropping the first of several turns drops its bytes and one comma. */
  lemma EncodedWithoutFirst(ts: seq<Turn>, k: nat, turn: Turn -> Json)
    requires k + 1 < |ts|
    ensures |EncodeTurns(ts[k..], turn)| == |turn(ts[k])| + 1 + |EncodeTurns(ts[k + 1..], turn)|
  {
    assert ts[k..][1..] == ts[k + 1..];
  }

  lemma {:induction false} EncodedShrinks(ts: seq<Turn>, j: nat, k: nat, turn: Turn -> Json)
    requires j <= k < |ts|
    ensures |EncodeTurns(ts[k..], turn)| <= |EncodeTurns(ts[j..], turn)|
    decreases k - j
  {
    if j < k {
      EncodedWithoutFirst(ts, j, turn);
      EncodedShrinks(ts, j + 1, k, turn);
    }
  }

  function Digits(n: nat): nat {
    if n < 10 then 1 else 1 + Digits(n / 10)
  }

  /** The braces, keys, colons and commas of the seven-field document. */
  const FRAME_BYTES: nat := 106

  /** The size of the whole document. */
  function DocumentSize(s: Snapshot, wire: Wire): nat {
    FRAME_BYTES + Digits(s.header.version) + |EncodeTurns(s.transcript, wire.turn)| + (if s.truncated then 4 else 5)
    + |wire.state(s.header.state)|
    + Digits(s.header.turnsUsed) + Digits(s.header.maxTurns) + Digits(s.header.nextProposalId)
  }

  function Ascii(text: string): (j: Json)
    ensures |j| == |text|
  {
    seq(|text|, i requires 0 <= i < |text| => (text[i] as int % 0x80) as bv8)
  }

  function DecimalJson(n: nat): Json {
    (if n < 10 then [] else DecimalJson(n / 10)) + [(0x30 + n % 10) as bv8]
  }

  /** The document that is stored, with the fields in the order of the wire struct. */
  function EncodeDocument(s: Snapshot, wire: Wire): Json {
    Ascii("{\"version\":") + DecimalJson(s.header.version)
    + Ascii(",\"transcript\":") + EncodeTurns(s.transcript, wire.turn)
    + Ascii(",\"transcript_truncated\":") + Ascii(if s.truncated then "true" else "false")
    + Ascii(",\"state\":") + wire.state(s.header.state)
    + Ascii(",\"turns_used\":") + DecimalJson(s.header.turnsUsed)
    + Ascii(",\"max_turns\":") + DecimalJson(s.header.maxTurns)
    + Ascii(",\"next_proposal_id\":") + DecimalJson(s.header.nextProposalId) + Ascii("}")
  }

  lemma {:induction false} DecimalLength(n: nat)
    ensures |DecimalJson(n)| == Digits(n)
  {
    if n >= 10 {
      DecimalLength(n / 10);
    }
  }

  /** The size that is compared with the limit is the length of that document. */
  lemma DocumentSizeIsExact(s: Snapshot, wire: Wire)
    ensures DocumentSize(s, wire) == |EncodeDocument(s, wire)|
  {
    DecimalLength(s.header.version);
    DecimalLength(s.header.turnsUsed);
    DecimalLength(s.header.maxTurns);
    DecimalLength(s.header.nextProposalId);
  }

  // ---- retention units ----

  /** A proposal directly followed by its own observation. */
  predicate PairAt(ts: seq<Turn>, k: int) {
    0 <= k && k + 1 < |ts| && ts[k].AssistantProposed? && ts[k + 1].Observation? && ts[k].id == ts[k + 1].proposalId
  }

  /** Cutting before turn `k` separates no pair. */
  predicate Aligned(ts: seq<Turn>, k: nat) {
    k <= |ts| && !PairAt(ts, k - 1)
  }

  /** Where the last unit begins. */
  function LastUnit(ts: seq<Turn>): nat
    requires ts != []
  {
    if PairAt(ts, |ts| - 2) then |ts| - 2 else |ts| - 1
  }

  predicate Fits(ts: seq<Turn>, k: nat, turn: Turn -> Json)
    requires k <= |ts|
  {
    |EncodeTurns(ts[k..], turn)| <= MAX_STORED_TRANSCRIPT_BYTES
  }

  /** The longest non-empty suffix that fits and starts at a unit. */
  ghost predicate LongestSuffix(ts: seq<Turn>, first: nat, turn: Turn -> Json) {
    && first < |ts| && Aligned(ts, first) && Fits(ts, first, turn)
    && forall k | 0 <= k < first && Aligned(ts, k) :: !Fits(ts, k, turn)
  }

  // ---- validate_snapshot ----

  /** What the family's ceilings say about one turn. */
  function TurnFault(turn: Turn): Option<SnapshotError> {
    match turn
    case User(message) => TextFault(message, MAX_MESSAGE_BYTES, true)
    case AssistantSay(message) => TextFault(message, MAX_MESSAGE_BYTES, true)
    case AssistantThought(thought) => TextFault(thought, MAX_THOUGHT_BYTES, true)
    case AssistantProposed(_, _) => None
    case Observation(_, outputSample, _) => if Utf8Len(outputSample) > MAX_OBSERVATION_BYTES
        then Some(ObservationBounds) else None
    case ProtocolError(message) => TextFault(message, MAX_MESSAGE_BYTES, false)
  }

  /** What they say about one text. */
  function TextFault(value: string, maxBytes: nat, requireNonempty: bool): Option<SnapshotError> {
    if Utf8Len(value) > maxBytes || (requireNonempty && Trim(value) == "") then Some(TextBounds) else None
  }

  /** Something in the text can be seen. */
  ghost predicate Visible(text: string) {
    exists i :: 0 <= i < |text| && !IsWhitespace(text[i])
  }

  /** The ceilings, kind by kind: messages of 16 KiB and thoughts of 4 KiB with something to see in them, protocol
      errors of 16 KiB, output samples of 4 KiB, and no limit on a proposal's own text. */
  lemma TurnLimits(turn: Turn)
    ensures TurnFault(turn).None? <==>
            match turn
            case User(message) => Utf8Len(message) <= 16384 && Visible(message)
            case AssistantSay(message) => Utf8Len(message) <= 16384 && Visible(message)
            case AssistantThought(thought) => Utf8Len(thought) <= 4096 && Visible(thought)
            case AssistantProposed(_, _) => true
            case Observation(_, outputSample, _) => Utf8Len(outputSample) <= 4096
            case ProtocolError(message) => Utf8Len(message) <= 16384
    ensures TurnFault(turn).Some? ==>
              TurnFault(turn).value == if turn.Observation? then ObservationBounds else TextBounds
  {
    match turn
    case User(message) => TrimIsEmptyIff(message);
    case AssistantSay(message) => TrimIsEmptyIff(message);
    case AssistantThought(thought) => TrimIsEmptyIff(thought);
    case _ =>
  }

  ghost predicate TurnsOk(ts: seq<Turn>) {
    forall k | 0 <= k < |ts| :: TurnFault(ts[k]).None?
  }

  ghost predicate IdsOk(s: Snapshot) {
    && 0 < s.header.nextProposalId < U64_MAX
    && forall k | 0 <= k < |s.transcript| && s.transcript[k].AssistantProposed? ::
       s.transcript[k].id < s.header.nextProposalId
  }

  /** What validate_snapshot promises of a snapshot it lets through. */
  ghost predicate Storable(s: Snapshot, turn: Turn -> Json) {
    && |s.transcript| <= MAX_STORED_TRANSCRIPT_ENTRIES
    && |EncodeTurns(s.transcript, turn)| <= MAX_STORED_TRANSCRIPT_BYTES
    && TurnsOk(s.transcript)
    && IdsOk(s)
  }

  /** The first refusal, in the order the checks are made. */
  ghost predicate Refused(s: Snapshot, turn: Turn -> Json, e: SnapshotError) {
    var ts := s.transcript;
    if |ts| > MAX_STORED_TRANSCRIPT_ENTRIES then e == EntryLimit
    else if |EncodeTurns(ts, turn)| > MAX_STORED_TRANSCRIPT_BYTES then e == ByteLimit
    else if TurnsOk(ts) then !IdsOk(s) && e == StaleProposalId
    else exists k | 0 <= k < |ts| :: TurnsOk(ts[..k]) && TurnFault(ts[k]) == Some(e)
  }

  /** The checks on one turn. */
  method ValidateTurn(turn: Turn) returns (fault: Option<SnapshotError>)
    ensures fault == TurnFault(turn)
  {
    match turn {
      case User(message) => fault := ValidateText(message, MAX_MESSAGE_BYTES, true);
      case AssistantSay(message) => fault := ValidateText(message, MAX_MESSAGE_BYTES, true);
      case AssistantThought(thought) => fault := ValidateText(thought, MAX_THOUGHT_BYTES, true);
      case AssistantProposed(_, _) => fault := None;
      case Observation(_, outputSample, _) =>
        fault := if Utf8Len(outputSample) > MAX_OBSERVATION_BYTES then Some(ObservationBounds) else None;
      case ProtocolError(message) => fault := ValidateText(message, MAX_MESSAGE_BYTES, false);
    }
  }

  /** validate_snapshot_text. */
  method ValidateText(value: string, maxBytes: nat, requireNonempty: bool) returns (fault: Option<SnapshotError>)
    ensures fault == TextFault(value, maxBytes, requireNonempty)
  {
    if Utf8Len(value) > maxBytes || (requireNonempty && Trim(value) == "") {
      return Some(TextBounds);
    }
    return None;
  }

  /** validate_snapshot. */
  method ValidateSnapshot(s: Snapshot, wire: Wire) returns (r: Result<(), SnapshotError>)
    ensures r.Ok? <==> Storable(s, wire.turn)
    ensures r.Err? ==> Refused(s, wire.turn, r.error)
  {
    var ts := s.transcript;
    if |ts| > MAX_STORED_TRANSCRIPT_ENTRIES {
      return Err(EntryLimit);
    }
    if |EncodeTurns(ts, wire.turn)| > MAX_STORED_TRANSCRIPT_BYTES {
      return Err(ByteLimit);
    }
    var highest: nat := 0;
    for i := 0 to |ts|
      invariant TurnsOk(ts[..i])
      invariant forall k | 0 <= k < i && ts[k].AssistantProposed? :: ts[k].id <= highest
      invariant highest == 0 || exists k | 0 <= k < i && ts[k].AssistantProposed? :: ts[k].id == highest
    {
      var fault := ValidateTurn(ts[i]);
      if fault.Some? {
        return Err(fault.value);
      }
      assert ts[..i + 1] == ts[..i] + [ts[i]];
      if ts[i].AssistantProposed? && ts[i].id > highest {
        highest := ts[i].id;
      }
    }
    assert ts[..|ts|] == ts;
    if s.header.nextProposalId == 0 || s.header.nextProposalId == U64_MAX || s.header.nextProposalId <= highest {
      return Err(StaleProposalId);
    }
    return Ok(());
  }

  // ---- bound_live_snapshot ----

  /** The stored document after cutting before turn `first`. */
  function Suffix(s: Snapshot, first: nat): Snapshot
    requires first <= |s.transcript|
  {
    Snapshot(s.header, s.transcript[first..], true)
  }

  /** How many turns the oldest unit from `first` on has. */
  function UnitLength(ts: seq<Turn>, first: nat): (n: nat) {
    if PairAt(ts, first) then 2 else 1
  }

  /** Past a unit the next cut is aligned again, and no cut inside a unit is. */
  lemma UnitStep(ts: seq<Turn>, first: nat)
    requires first < |ts| && Aligned(ts, first)
    ensures first + UnitLength(ts, first) <= |ts| && Aligned(ts, first + UnitLength(ts, first))
    ensures forall k | first < k < first + UnitLength(ts, first) :: !Aligned(ts, k)
  {
  }

  /** Find the cut, keeping the byte count of the retained slice. */
  method CutOldest(ts: seq<Turn>, wire: Wire) returns (r: Result<nat, SnapshotError>)
    requires !Fits(ts, 0, wire.turn)
    ensures ts != []
    ensures r.Err? <==> !Fits(ts, LastUnit(ts), wire.turn)
    ensures r.Err? ==> r.error == UnitTooLarge
    ensures r.Ok? ==> LongestSuffix(ts, r.value, wire.turn)
  {
    assert ts[0..] == ts;
    var encodedBytes := |EncodeTurns(ts, wire.turn)|;
    var first := 0;
    while encodedBytes > MAX_STORED_TRANSCRIPT_BYTES
      invariant first < |ts| && Aligned(ts, first)
      invariant encodedBytes == |EncodeTurns(ts[first..], wire.turn)|
      invariant forall k | 0 <= k < first && Aligned(ts, k) :: !Fits(ts, k, wire.turn)
      decreases |ts| - first
    {
      var removeCount := 1;
      if |ts| - first >= 2 && ts[first].AssistantProposed? && ts[first + 1].Observation?
         && ts[first].id == ts[first + 1].proposalId {
        removeCount := 2;
      }
      UnitStep(ts, first);
      assert removeCount == UnitLength(ts, first);
      if |ts| - first <= removeCount {
        assert first == LastUnit(ts);
        return Err(UnitTooLarge);
      }
      var start := first;
      while first < start + removeCount
        invariant start <= first <= start + removeCount < |ts|
        invariant encodedBytes == |EncodeTurns(ts[first..], wire.turn)|
      {
        EncodedWithoutFirst(ts, first, wire.turn);
        encodedBytes := encodedBytes - (|wire.turn(ts[first])| + 1);
        first := first + 1;
      }
    }
    EncodedShrinks(ts, first, LastUnit(ts), wire.turn);
    return Ok(first);
  }

  /** What becomes of the suffix once it is cut. */
  ghost predicate Stored(suffix: Snapshot, wire: Wire, r: Result<Snapshot, SnapshotError>) {
    if DocumentSize(suffix, wire) > MAX_AGENT_SNAPSHOT_JSON_BYTES then r == Err(TooLarge)
    else if !wire.accepts(suffix) then r == Err(Rejected)
    else if Storable(suffix, wire.turn) then r == Ok(suffix)
    else r.Err? && Refused(suffix, wire.turn, r.error)
  }

  /** bound_live_snapshot. */
  method BoundLiveSnapshot(s: Snapshot, wire: Wire) returns (r: Result<Snapshot, SnapshotError>)
    ensures Fits(s.transcript, 0, wire.turn) ==> r == Ok(s)
    ensures !Fits(s.transcript, 0, wire.turn) ==>
              && s.transcript != []
              && if Fits(s.transcript, LastUnit(s.transcript), wire.turn)
                 then exists first :: LongestSuffix(s.transcript, first, wire.turn) && Stored(Suffix(s, first), wire, r)
                 else r == Err(UnitTooLarge)
  {
    assert s.transcript[0..] == s.transcript;
    if |EncodeTurns(s.transcript, wire.turn)| <= MAX_STORED_TRANSCRIPT_BYTES {
      return Ok(s);
    }
    var cut := CutOldest(s.transcript, wire);
    if cut.Err? {
      return Err(cut.error);
    }
    var first := cut.value;
    assert LongestSuffix(s.transcript, first, wire.turn);
    var suffix := Snapshot(s.header, s.transcript[first..], true);
    if DocumentSize(suffix, wire) > MAX_AGENT_SNAPSHOT_JSON_BYTES {
      return Err(TooLarge);
    }
    if !wire.accepts(suffix) {
      return Err(Rejected);
    }
    var valid := ValidateSnapshot(suffix, wire);
    return if valid.Ok? then Ok(suffix) else Err(valid.error);
  }

  // ---- what that means for the stored document ----

  /** There is one cut to find, and it is found unless the last unit alone is too large. */
  lemma {:induction false} LongestSuffixFound(ts: seq<Turn>, from: nat, turn: Turn -> Json) returns (first: nat)
    requires ts != [] && from <= LastUnit(ts) && Aligned(ts, from) && Fits(ts, LastUnit(ts), turn)
    requires forall k | 0 <= k < from && Aligned(ts, k) :: !Fits(ts, k, turn)
    ensures LongestSuffix(ts, first, turn)
    decreases |ts| - from
  {
    if Fits(ts, from, turn) {
      first := from;
    } else {
      UnitStep(ts, from);
      first := LongestSuffixFound(ts, from + UnitLength(ts, from), turn);
    }
  }

  lemma LongestSuffixIff(ts: seq<Turn>, turn: Turn -> Json)
    requires ts != []
    ensures (exists first :: LongestSuffix(ts, first, turn)) <==> Fits(ts, LastUnit(ts), turn)
    ensures forall i, j | LongestSuffix(ts, i, turn) && LongestSuffix(ts, j, turn) :: i == j
  {
    if Fits(ts, LastUnit(ts), turn) {
      var first := LongestSuffixFound(ts, 0, turn);
    }
    if first :| LongestSuffix(ts, first, turn) {
      EncodedShrinks(ts, first, LastUnit(ts), turn);
    }
  }

  /** A proposal and its observation are kept together or dropped together, and the last turn stays. */
  lemma SuffixKeepsUnits(s: Snapshot, first: nat, turn: Turn -> Json, k: nat)
    requires LongestSuffix(s.transcript, first, turn) && k + 1 < |s.transcript|
    requires s.transcript[k].AssistantProposed? && s.transcript[k + 1].Observation?
             && s.transcript[k].id == s.transcript[k + 1].proposalId
    ensures k < first <==> k + 1 < first
    ensures k >= first ==> PairAt(Suffix(s, first).transcript, k - first)
    ensures Suffix(s, first).transcript[|s.transcript| - first - 1] == s.transcript[|s.transcript| - 1]
    ensures Suffix(s, first).header == s.header && Suffix(s, first).truncated
  {
  }

  /** If the live snapshot met the per-turn and id rules, the suffix passes validate_snapshot exactly
      when it has at most 128 turns. */
  lemma SuffixIsStorable(s: Snapshot, first: nat, turn: Turn -> Json)
    requires LongestSuffix(s.transcript, first, turn) && TurnsOk(s.transcript) && IdsOk(s)
    ensures Storable(Suffix(s, first), turn) <==> |s.transcript| - first <= MAX_STORED_TRANSCRIPT_ENTRIES
  {
    var kept := Suffix(s, first).transcript;
    forall k | 0 <= k < |kept|
      ensures kept[k] == s.transcript[first + k]
    {
    }
  }

  function PowerOfTen(k: nat): nat {
    if k == 0 then 1 else 10 * PowerOfTen(k - 1)
  }

  lemma {:induction false} DigitsBound(n: nat, k: nat)
    requires k > 0 && n < PowerOfTen(k)
    ensures Digits(n) <= k
  {
    if n >= 10 {
      DigitsBound(n / 10, k - 1);
    }
  }

  lemma DigitsOfWords(a: u32, b: u64)
    ensures Digits(a) <= 10 && Digits(b) <= 20
  {
    assert PowerOfTen(5) == 100_000;
    assert PowerOfTen(10) == 10_000_000_000;
    assert PowerOfTen(15) == 1_000_000_000_000_000;
    assert PowerOfTen(20) == 100_000_000_000_000_000_000;
    DigitsBound(a, 10);
    DigitsBound(b, 20);
  }

  /** The document check cannot fail once the transcript fits, unless the state field alone is huge. */
  lemma DocumentFits(s: Snapshot, first: nat, wire: Wire)
    requires LongestSuffix(s.transcript, first, wire.turn)
    ensures DocumentSize(Suffix(s, first), wire) <= MAX_STORED_TRANSCRIPT_BYTES + 160 + |wire.state(s.header.state)|
  {
    DigitsOfWords(s.header.version, s.header.nextProposalId);
    DigitsOfWords(s.header.turnsUsed, s.header.nextProposalId);
    DigitsOfWords(s.header.maxTurns, s.header.nextProposalId);
  }

  /** For a live snapshot within the entry, per-turn and id rules, with an ordinary state field, a
      decoder that takes back what was encoded leaves one way to fail: the last unit is too large by
      itself. Everything else ends in a storable snapshot with the same header and last turn. */
  lemma OnlyTheLastUnitFails(s: Snapshot, wire: Wire, first: nat, r: Result<Snapshot, SnapshotError>)
    requires LongestSuffix(s.transcript, first, wire.turn) && Stored(Suffix(s, first), wire, r)
    requires TurnsOk(s.transcript) && IdsOk(s) && |s.transcript| <= MAX_STORED_TRANSCRIPT_ENTRIES
    requires |wire.state(s.header.state)| <= 1024 && wire.accepts(Suffix(s, first))
    ensures r == Ok(Suffix(s, first)) && Storable(Suffix(s, first), wire.turn)
  {
    SuffixIsStorable(s, first, wire.turn);
    DocumentFits(s, first, wire);
  }
}
