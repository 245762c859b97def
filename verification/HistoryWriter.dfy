/** The background writer: appends run one at a time in the order they were queued, and each flush
    answers for the appends queued since the flush before it. First the writer's loop by itself, then
    the whole system of the bounded queue, the writer and any number of flushing callers. */
module HistoryWriter {
  import opened Outcomes
  import opened Sequences

  const WRITER_QUEUE_CAPACITY: nat := 256

  type Error = nat

  /** What the writer receives, with what its surroundings do: how the append ends, or whether the
      flush's caller is still waiting when the answer is sent. */
  datatype Message = Append(failure: Option<Error>) | Flush(waiting: bool)

  /** What the writer did with one message. */
  datatype Event = Ran(failure: Option<Error>) | Acknowledged(answer: Option<Error>, delivered: bool)

  /** Where the flush generation that message `i` belongs to begins: after the last flush before it. */
  function GenerationStart(messages: seq<Message>, i: nat): (start: nat)
    requires i <= |messages|
    ensures start <= i
    ensures start > 0 ==> messages[start - 1].Flush?
    ensures forall k | start <= k < i :: messages[k].Append?
  {
    if i == 0 || messages[i - 1].Flush? then i else GenerationStart(messages, i - 1)
  }

  /** The first failure among the messages from `start` up to `end`. */
  function FirstFailure(messages: seq<Message>, start: nat, end: nat): Option<Error>
    requires start <= end <= |messages|
  {
    if start == end then None
    else
      var earlier := FirstFailure(messages, start, end - 1);
      if earlier.Some? then earlier
      else if messages[end - 1].Append? then messages[end - 1].failure else None
  }

  /** What the writer must do with message `i`. */
  ghost predicate Answered(messages: seq<Message>, i: nat, e: Event)
    requires i < |messages|
  {
    match messages[i]
    case Append(failure) => e == Ran(failure)
    case Flush(waiting) => e == Acknowledged(FirstFailure(messages, GenerationStart(messages, i), i), waiting)
  }

  /** run_history_writer, over the messages it receives until the queue closes. */
  method RunHistoryWriter(messages: seq<Message>) returns (events: seq<Event>)
    ensures |events| == |messages|
    ensures forall i | 0 <= i < |messages| :: Answered(messages, i, events[i])
  {
    var pendingError: Option<Error> := None;
    events := [];
    for i := 0 to |messages|
      invariant |events| == i
      invariant pendingError == FirstFailure(messages, GenerationStart(messages, i), i)
      invariant forall k | 0 <= k < i :: Answered(messages, k, events[k])
    {
      match messages[i] {
        case Append(failure) =>
          if failure.Some? && pendingError.None? {
            pendingError := failure;
          }
          events := events + [Ran(failure)];
        case Flush(waiting) =>
          var answer := pendingError;
          pendingError := None;
          // Sending to a caller that has stopped waiting fails and is ignored; the error is gone.
          events := events + [Acknowledged(answer, waiting)];
      }
    }
  }

  /** The first failure, spelled out: some append in the range failed so and none before it failed. */
  lemma {:induction false} FirstFailureMeaning(messages: seq<Message>, start: nat, end: nat)
    requires start <= end <= |messages|
    ensures var f := FirstFailure(messages, start, end);
            if f.None? then forall k | start <= k < end && messages[k].Append? :: messages[k].failure.None?
            else exists k | start <= k < end && messages[k].Append? ::
                   messages[k].failure == f && forall j | start <= j < k && messages[j].Append? ::
                       messages[j].failure.None?
  {
    if start < end {
      FirstFailureMeaning(messages, start, end - 1);
    }
  }

  /** Append `k` is the first to fail since the flush before it. */
  ghost predicate LeadsGeneration(messages: seq<Message>, k: nat)
    requires k < |messages|
  {
    messages[k].Append? && messages[k].failure.Some? && FirstFailure(messages, GenerationStart(messages, k), k).None?
  }

  /** Flush `i` is the next flush after message `k`. */
  ghost predicate NextFlush(messages: seq<Message>, k: nat, i: nat)
    requires k < |messages| && i < |messages|
  {
    k < i && messages[i].Flush? && forall j | k <= j < i :: messages[j].Append?
  }

  lemma {:induction false} SameGeneration(messages: seq<Message>, k: nat, i: nat)
    requires k <= i <= |messages| && forall j | k <= j < i :: messages[j].Append?
    ensures GenerationStart(messages, i) == GenerationStart(messages, k)
    decreases i
  {
    if k < i {
      SameGeneration(messages, k, i - 1);
    }
  }

  lemma {:induction false} FailureStays(messages: seq<Message>, start: nat, mid: nat, end: nat)
    requires start <= mid <= end <= |messages| && FirstFailure(messages, start, mid).Some?
    ensures FirstFailure(messages, start, end) == FirstFailure(messages, start, mid)
    decreases end
  {
    if mid < end {
      FailureStays(messages, start, mid, end - 1);
    }
  }

  lemma LeaderFails(messages: seq<Message>, k: nat)
    requires k < |messages| && LeadsGeneration(messages, k)
    ensures FirstFailure(messages, GenerationStart(messages, k), k + 1) == messages[k].failure
  {
  }

  /** Flush `i` answers for the generation that message `k` is in. */
  ghost predicate AnswersFor(messages: seq<Message>, i: nat, k: nat)
    requires i < |messages|
  {
    messages[i].Flush? && GenerationStart(messages, i) <= k < i
  }

  /** A generation's first failure is the answer of the next flush, and that flush's generation is the
      only one the append belongs to. */
  lemma FailureGoesToOneFlush(messages: seq<Message>, k: nat, i: nat)
    requires k < |messages| && i < |messages| && LeadsGeneration(messages, k) && messages[i].Flush?
    ensures NextFlush(messages, k, i) ==> FirstFailure(messages, GenerationStart(messages, i), i) == messages[k].failure
    ensures AnswersFor(messages, i, k) <==> NextFlush(messages, k, i)
  {
    if NextFlush(messages, k, i) {
      SameGeneration(messages, k, i);
      LeaderFails(messages, k);
      FailureStays(messages, GenerationStart(messages, k), k + 1, i);
    }
  }

  /** When an error is learned: some flush that answers for the append hands its error to a caller
      exactly when the next flush after it finds its caller still waiting. */
  lemma ErrorLearnedIff(messages: seq<Message>, events: seq<Event>, k: nat)
    requires |events| == |messages| && forall i | 0 <= i < |messages| :: Answered(messages, i, events[i])
    requires k < |messages| && LeadsGeneration(messages, k)
    ensures (exists i: nat | i < |messages| && AnswersFor(messages, i, k) ::
               events[i] == Acknowledged(messages[k].failure, true))
            <==> exists i: nat | i < |messages| :: NextFlush(messages, k, i) && messages[i].waiting
  {
    forall i: nat | i < |messages| && messages[i].Flush?
      ensures AnswersFor(messages, i, k) <==> NextFlush(messages, k, i)
      ensures NextFlush(messages, k, i) ==> events[i] == Acknowledged(messages[k].failure, messages[i].waiting)
    {
      FailureGoesToOneFlush(messages, k, i);
      assert Answered(messages, i, events[i]);
    }
  }

  // ---------------------------------------------------------------- the whole system

  type Caller = nat

  datatype Request = AppendRequest | FlushRequest(caller: Caller)

  /** One flush_pending call. `begun` is how many messages had been accepted when it began: retrying to
      queue its message, waiting for the answer to message `index`, or returned. */
  datatype Call =
    | Sending(begun: nat)
    | Receiving(begun: nat, index: nat)
    | Returned(begun: nat, index: nat, answer: Option<Error>)
    | TimedOut(begun: nat, queued: Option<nat>)

  /** The writer thread: at recv, inside append, or blocked handing an answer to a rendezvous channel. */
  datatype Activity = Waiting | Appending | Handing(answer: Option<Error>)

  /** Every message ever accepted, what the writer has finished, and what it is doing. */
  datatype System = System(
    accepted: seq<Request>,
    events: seq<Event>,
    activity: Activity,
    pendingError: Option<Error>,
    calls: map<Caller, Call>)

  datatype Step =
    | Enqueue
    | BeginFlush(caller: Caller)
    | TrySendFlush(caller: Caller)
    | TimeOut(caller: Caller)
    | Receive
    | FinishAppend(failure: Option<Error>)
    | Rendezvous
    | SendFails

  const IDLE := System([], [], Waiting, None, map[])

  /** How many messages the writer has taken off the queue. */
  function Received(s: System): nat {
    |s.events| + if s.activity.Waiting? then 0 else 1
  }

  predicate Room(s: System) {
    |s.accepted| < Received(s) + WRITER_QUEUE_CAPACITY
  }

  /** The message the writer is at. */
  function Current(s: System): Option<Request> {
    if |s.events| < |s.accepted| then Some(s.accepted[|s.events|]) else None
  }

  /** The caller whose message the writer is answering, and where its call stands. */
  function CurrentCall(s: System): Option<Call> {
    if s.activity.Handing? && Current(s).Some? && Current(s).value.FlushRequest? && Current(s).value.caller in s.calls
    then Some(s.calls[Current(s).value.caller]) else None
  }

  function Finish(s: System, e: Event): System {
    s.(events := s.events + [e], activity := Waiting)
  }

  /** What the queueing side does: try_send refuses when the queue is full, and a flusher retries. */
  function NextCaller(s: System, step: Step): Option<System>
    requires step.Enqueue? || step.BeginFlush? || step.TrySendFlush? || step.TimeOut?
  {
    match step
    case Enqueue =>
      Some(if Room(s) then s.(accepted := s.accepted + [AppendRequest]) else s)
    case BeginFlush(c) =>
      if c in s.calls then None else Some(s.(calls := s.calls[c := Sending(|s.accepted|)]))
    case TrySendFlush(c) =>
      if c !in s.calls || !s.calls[c].Sending? then None
      else if !Room(s) then Some(s)
      else Some(s.(accepted := s.accepted + [FlushRequest(c)],
                   calls := s.calls[c := Receiving(s.calls[c].begun, |s.accepted|)]))
    case TimeOut(c) =>
      if c !in s.calls then None
      else
        match s.calls[c]
        case Sending(begun) => Some(s.(calls := s.calls[c := TimedOut(begun, None)]))
        case Receiving(begun, index) => Some(s.(calls := s.calls[c := TimedOut(begun, Some(index))]))
        case _ => None
  }

  /** What the writer does. Handing over an answer waits until the caller takes it or has gone. */
  function NextWriter(s: System, step: Step): Option<System>
    requires !(step.Enqueue? || step.BeginFlush? || step.TrySendFlush? || step.TimeOut?)
  {
    match step
    case Receive =>
      if !s.activity.Waiting? || Current(s).None? then None
      else if Current(s).value.AppendRequest? then Some(s.(activity := Appending))
      else Some(s.(activity := Handing(s.pendingError), pendingError := None))
    case FinishAppend(failure) =>
      if !s.activity.Appending? then None
      else Some(Finish(s, Ran(failure)).(pendingError := if s.pendingError.Some? then s.pendingError else failure))
    case Rendezvous =>
      var call := CurrentCall(s);
      if call.None? || !call.value.Receiving? then None
      else
        var answer := s.activity.answer;
        Some(Finish(s, Acknowledged(answer, true)).(
          calls := s.calls[Current(s).value.caller := Returned(call.value.begun, call.value.index, answer)]))
    case SendFails =>
      var call := CurrentCall(s);
      if call.None? || !call.value.TimedOut? then None
      else Some(Finish(s, Acknowledged(s.activity.answer, false)))
  }

  function Next(s: System, step: Step): Option<System> {
    if step.Enqueue? || step.BeginFlush? || step.TrySendFlush? || step.TimeOut? then NextCaller(s, step)
    else NextWriter(s, step)
  }

  function Run(steps: seq<Step>): Option<System> {
    if steps == [] then Some(IDLE)
    else
      match Run(steps[..|steps| - 1])
      case None => None
      case Some(s) => Next(s, steps[|steps| - 1])
  }

  /** What the writer's loop has received so far, as seen from its events. */
  function Performed(events: seq<Event>): (messages: seq<Message>)
    ensures |messages| == |events|
  {
    seq(|events|, i requires 0 <= i < |events| =>
      match events[i] case Ran(failure) => Append(failure) case Acknowledged(_, delivered) => Flush(delivered))
  }

  // ---------------------------------------------------------------- what every step keeps

  /** What the next flush would answer. */
  function Owed(events: seq<Event>): Option<Error> {
    FirstFailure(Performed(events), GenerationStart(Performed(events), |events|), |events|)
  }

  /** The events are what the writer's loop does with the messages they stand for. */
  ghost predicate AllAnswered(events: seq<Event>) {
    forall i {:trigger Answered(Performed(events), i, events[i])} | 0 <= i < |events| ::
      Answered(Performed(events), i, events[i])
  }

  ghost predicate EventsOk(s: System) {
    && |s.events| <= |s.accepted|
    && (forall i | 0 <= i < |s.events| :: s.events[i].Ran? <==> s.accepted[i].AppendRequest?)
    && AllAnswered(s.events)
  }

  predicate WriterOk(s: System) {
    match s.activity
    case Waiting => s.pendingError == Owed(s.events)
    case Appending => Current(s) == Some(AppendRequest) && s.pendingError == Owed(s.events)
    case Handing(answer) =>
      Current(s).Some? && Current(s).value.FlushRequest? && s.pendingError == None && answer == Owed(s.events)
  }

  predicate CallOk(s: System, c: Caller, call: Call) {
    match call
    case Sending(begun) => begun <= |s.accepted|
    case Receiving(begun, index) =>
      begun <= index < |s.accepted| && s.accepted[index] == FlushRequest(c) && |s.events| <= index
    case Returned(begun, index, answer) =>
      && begun <= index < |s.accepted| && s.accepted[index] == FlushRequest(c)
      && index < |s.events| && s.events[index] == Acknowledged(answer, true)
    case TimedOut(begun, index) =>
      index.Some? ==>
        && begun <= index.value < |s.accepted| && s.accepted[index.value] == FlushRequest(c)
        && (index.value < |s.events| ==> s.events[index.value].Acknowledged? && !s.events[index.value].delivered)
  }

  /** The message a call has queued. */
  function Queued(call: Call): Option<nat> {
    match call
    case Sending(_) => None
    case Receiving(_, index) => Some(index)
    case Returned(_, index, _) => Some(index)
    case TimedOut(_, index) => index
  }

  predicate CallsOk(s: System) {
    && (forall c | c in s.calls :: CallOk(s, c, s.calls[c]))
    && (forall i | 0 <= i < |s.accepted| && s.accepted[i].FlushRequest? ::
          s.accepted[i].caller in s.calls && Queued(s.calls[s.accepted[i].caller]) == Some(i))
  }

  ghost predicate Inv(s: System) {
    && Received(s) <= |s.accepted| <= Received(s) + WRITER_QUEUE_CAPACITY
    && EventsOk(s) && WriterOk(s) && CallsOk(s)
  }

  /** An earlier part of a message list tells where its generations begin and what failed in them. */
  lemma {:induction false} GenerationOfPrefix(messages: seq<Message>, more: seq<Message>, i: nat)
    requires i <= |messages| && messages <= more
    ensures GenerationStart(more, i) == GenerationStart(messages, i)
  {
    if i > 0 && messages[i - 1].Append? {
      GenerationOfPrefix(messages, more, i - 1);
    }
  }

  lemma {:induction false} FailureOfPrefix(messages: seq<Message>, more: seq<Message>, start: nat, end: nat)
    requires start <= end <= |messages| && messages <= more
    ensures FirstFailure(more, start, end) == FirstFailure(messages, start, end)
  {
    if start < end {
      FailureOfPrefix(messages, more, start, end - 1);
    }
  }

  lemma PerformedGrows(events: seq<Event>, e: Event)
    ensures Performed(events) <= Performed(events + [e])
  {
  }

  /** What is owed at a message depends on the messages before it only. */
  lemma OwedInPrefix(messages: seq<Message>, more: seq<Message>, i: nat)
    requires i <= |messages| && messages <= more
    ensures FirstFailure(more, GenerationStart(more, i), i) == FirstFailure(messages, GenerationStart(messages, i), i)
  {
    GenerationOfPrefix(messages, more, i);
    FailureOfPrefix(messages, more, GenerationStart(messages, i), i);
  }

  lemma AnswerStands(messages: seq<Message>, more: seq<Message>, i: nat, e: Event)
    requires i < |messages| && messages <= more && Answered(messages, i, e)
    ensures Answered(more, i, e)
  {
    OwedInPrefix(messages, more, i);
  }

  /** What is owed after one more message. */
  lemma OwedSnoc(messages: seq<Message>, n: nat)
    requires n < |messages|
    ensures var owed := FirstFailure(messages, GenerationStart(messages, n), n);
            FirstFailure(messages, GenerationStart(messages, n + 1), n + 1)
            == if messages[n].Flush? then None else if owed.Some? then owed else messages[n].failure
  {
  }

  lemma OwedGrows(events: seq<Event>, e: Event)
    ensures Owed(events + [e]) == if e.Acknowledged? then None else if Owed(events).Some? then Owed(events)
            else e.failure
  {
    PerformedGrows(events, e);
    OwedInPrefix(Performed(events), Performed(events + [e]), |events|);
    OwedSnoc(Performed(events + [e]), |events|);
  }

  /** One more event: earlier answers stand, and the new one is right if it is what was owed. */
  lemma AnsweredGrows(events: seq<Event>, e: Event)
    requires AllAnswered(events) && (e.Acknowledged? ==> e.answer == Owed(events))
    ensures AllAnswered(events + [e])
  {
    var before, after := Performed(events), Performed(events + [e]);
    PerformedGrows(events, e);
    OwedInPrefix(before, after, |events|);
    forall i | 0 <= i < |events + [e]|
      ensures Answered(after, i, (events + [e])[i])
    {
      if i < |events| {
        assert Answered(before, i, events[i]);
        AnswerStands(before, after, i, events[i]);
      }
    }
  }

  /** What the writer has done does not depend on what is queued behind it. */
  lemma WriterFrame(s: System, after: System)
    requires EventsOk(s) && WriterOk(s)
    requires after.events == s.events && after.activity == s.activity && after.pendingError == s.pendingError
    requires s.accepted <= after.accepted
    ensures EventsOk(after) && WriterOk(after)
  {
    assert Current(s).Some? ==> Current(after) == Current(s);
  }

  /** A call stays as it was while messages are queued and other calls change. */
  lemma CallFrame(s: System, after: System, c: Caller, call: Call)
    requires CallOk(s, c, call) && after.events == s.events && s.accepted <= after.accepted
             && |s.events| <= |s.accepted|
    ensures CallOk(after, c, call)
  {
  }

  lemma EnqueueKeepsCalls(s: System)
    requires Inv(s)
    ensures CallsOk(NextCaller(s, Enqueue).value)
  {
    var after := NextCaller(s, Enqueue).value;
    forall c | c in after.calls
      ensures CallOk(after, c, after.calls[c])
    {
      CallFrame(s, after, c, s.calls[c]);
    }
  }

  lemma BeginKeepsCalls(s: System, c: Caller)
    requires Inv(s) && c !in s.calls
    ensures CallsOk(NextCaller(s, BeginFlush(c)).value)
  {
    var after := NextCaller(s, BeginFlush(c)).value;
    forall d | d in after.calls
      ensures CallOk(after, d, after.calls[d])
    {
      if d != c {
        CallFrame(s, after, d, s.calls[d]);
      }
    }
  }

  lemma SentCalls(s: System, after: System, c: Caller)
    requires Inv(s) && c in s.calls && s.calls[c].Sending? && Room(s) && after == NextCaller(s, TrySendFlush(c)).value
    ensures forall d | d in after.calls :: CallOk(after, d, after.calls[d])
  {
    assert CallOk(s, c, s.calls[c]);
    forall d | d in after.calls
      ensures CallOk(after, d, after.calls[d])
    {
      if d != c {
        CallFrame(s, after, d, s.calls[d]);
      }
    }
  }

  lemma SentMessage(s: System, after: System, c: Caller, i: nat)
    requires CallsOk(s) && c in s.calls && s.calls[c].Sending? && Room(s)
             && after == NextCaller(s, TrySendFlush(c)).value
    requires i < |after.accepted| && after.accepted[i].FlushRequest?
    ensures after.accepted[i].caller in after.calls && Queued(after.calls[after.accepted[i].caller]) == Some(i)
  {
    if i < |s.accepted| {
      assert s.accepted[i] == after.accepted[i] && Queued(s.calls[s.accepted[i].caller]) == Some(i);
    }
  }

  lemma TrySendKeepsCalls(s: System, c: Caller)
    requires Inv(s) && c in s.calls && s.calls[c].Sending?
    ensures CallsOk(NextCaller(s, TrySendFlush(c)).value)
  {
    if Room(s) {
      var after := NextCaller(s, TrySendFlush(c)).value;
      SentCalls(s, after, c);
      forall i | 0 <= i < |after.accepted| && after.accepted[i].FlushRequest?
        ensures after.accepted[i].caller in after.calls && Queued(after.calls[after.accepted[i].caller]) == Some(i)
      {
        SentMessage(s, after, c, i);
      }
    }
  }

  lemma TimeOutKeepsCalls(s: System, c: Caller)
    requires Inv(s) && NextCaller(s, TimeOut(c)).Some?
    ensures CallsOk(NextCaller(s, TimeOut(c)).value)
  {
    var after := NextCaller(s, TimeOut(c)).value;
    assert CallOk(s, c, s.calls[c]) && after.calls == s.calls[c := after.calls[c]];
    assert CallOk(after, c, after.calls[c]) && Queued(after.calls[c]) == Queued(s.calls[c]);
    forall d | d in after.calls
      ensures CallOk(after, d, after.calls[d])
    {
      if d != c {
        CallFrame(s, after, d, s.calls[d]);
      }
    }
  }

  lemma CallerStepKeepsInv(s: System, step: Step)
    requires Inv(s) && (step.Enqueue? || step.BeginFlush? || step.TrySendFlush? || step.TimeOut?)
    requires NextCaller(s, step).Some?
    ensures Inv(NextCaller(s, step).value)
  {
    WriterFrame(s, NextCaller(s, step).value);
    match step
    case Enqueue => EnqueueKeepsCalls(s);
    case BeginFlush(c) => BeginKeepsCalls(s, c);
    case TrySendFlush(c) => TrySendKeepsCalls(s, c);
    case TimeOut(c) => TimeOutKeepsCalls(s, c);
  }

  lemma ReceiveKeepsInv(s: System)
    requires Inv(s) && NextWriter(s, Receive).Some?
    ensures Inv(NextWriter(s, Receive).value)
  {
    var after := NextWriter(s, Receive).value;
    forall c | c in after.calls
      ensures CallOk(after, c, after.calls[c])
    {
      CallFrame(s, after, c, s.calls[c]);
    }
  }

  /** Finishing a message leaves a call alone unless the message is its own. */
  lemma FinishedCall(s: System, after: System, c: Caller, call: Call)
    requires CallOk(s, c, call) && |s.events| < |s.accepted| && s.accepted[|s.events|] != FlushRequest(c)
    requires after.accepted == s.accepted && |after.events| == |s.events| + 1 && s.events <= after.events
    ensures CallOk(after, c, call)
  {
  }

  /** The writer's own part of finishing an append. */
  lemma AppendKeepsWriter(s: System, after: System, failure: Option<Error>)
    requires EventsOk(s) && WriterOk(s) && s.activity.Appending?
    requires after.accepted == s.accepted && after.events == s.events + [Ran(failure)] && after.activity == Waiting
    requires after.pendingError == if s.pendingError.Some? then s.pendingError else failure
    ensures EventsOk(after) && WriterOk(after)
  {
    OwedGrows(s.events, Ran(failure));
    AnsweredGrows(s.events, Ran(failure));
  }

  lemma AppendKeepsInv(s: System, failure: Option<Error>)
    requires Inv(s) && NextWriter(s, FinishAppend(failure)).Some?
    ensures Inv(NextWriter(s, FinishAppend(failure)).value)
  {
    var after := NextWriter(s, FinishAppend(failure)).value;
    AppendKeepsWriter(s, after, failure);
    forall c | c in after.calls
      ensures CallOk(after, c, after.calls[c])
    {
      FinishedCall(s, after, c, s.calls[c]);
    }
  }

  /** An answered flush leaves every other call where it was. */
  lemma AnswerKeepsCalls(s: System, after: System, c: Caller)
    requires CallsOk(s) && |s.events| < |s.accepted| && s.accepted[|s.events|] == FlushRequest(c)
    requires after.accepted == s.accepted && |after.events| == |s.events| + 1 && s.events <= after.events
    requires after.calls.Keys == s.calls.Keys && forall d | d in s.calls && d != c :: after.calls[d] == s.calls[d]
    requires CallOk(after, c, after.calls[c]) && Queued(after.calls[c]) == Queued(s.calls[c])
    ensures CallsOk(after)
  {
    forall d | d in after.calls
      ensures CallOk(after, d, after.calls[d])
    {
      if d != c {
        FinishedCall(s, after, d, s.calls[d]);
      }
    }
  }

  /** The writer's own part of answering a flush. */
  lemma AnswerKeepsWriter(s: System, after: System, c: Caller, delivered: bool)
    requires EventsOk(s) && WriterOk(s) && s.activity.Handing? && Current(s) == Some(FlushRequest(c))
    requires after.accepted == s.accepted && after.events == s.events + [Acknowledged(s.activity.answer, delivered)]
    requires after.activity == Waiting && after.pendingError == s.pendingError
    ensures EventsOk(after) && WriterOk(after)
  {
    OwedGrows(s.events, Acknowledged(s.activity.answer, delivered));
    AnsweredGrows(s.events, Acknowledged(s.activity.answer, delivered));
  }

  lemma RendezvousKeepsInv(s: System)
    requires Inv(s) && NextWriter(s, Rendezvous).Some?
    ensures Inv(NextWriter(s, Rendezvous).value)
  {
    var after := NextWriter(s, Rendezvous).value;
    var c := Current(s).value.caller;
    assert CallOk(s, c, s.calls[c]) && Queued(s.calls[c]) == Some(|s.events|);
    AnswerKeepsWriter(s, after, c, true);
    AnswerKeepsCalls(s, after, c);
  }

  lemma SendFailsKeepsInv(s: System)
    requires Inv(s) && NextWriter(s, SendFails).Some?
    ensures Inv(NextWriter(s, SendFails).value)
  {
    var after := NextWriter(s, SendFails).value;
    var c := Current(s).value.caller;
    assert CallOk(s, c, s.calls[c]) && Queued(s.calls[c]) == Some(|s.events|);
    AnswerKeepsWriter(s, after, c, false);
    AnswerKeepsCalls(s, after, c);
  }

  lemma {:induction false} RunKeepsInv(steps: seq<Step>)
    requires Run(steps).Some?
    ensures Inv(Run(steps).value)
  {
    if steps != [] {
      RunKeepsInv(steps[..|steps| - 1]);
      var s, step := Run(steps[..|steps| - 1]).value, steps[|steps| - 1];
      match step {
        case Receive => ReceiveKeepsInv(s);
        case FinishAppend(failure) => AppendKeepsInv(s, failure);
        case Rendezvous => RendezvousKeepsInv(s);
        case SendFails => SendFailsKeepsInv(s);
        case _ => CallerStepKeepsInv(s, step);
      }
    }
  }

  // ---------------------------------------------------------------- what every run guarantees

  /** At every moment the writer has done what its loop does with the messages it has finished, in the
      order they were accepted, and the backlog is bounded. */
  lemma WriterRefinesLoop(steps: seq<Step>)
    requires Run(steps).Some?
    ensures var s := Run(steps).value;
            && AllAnswered(s.events)
            && |s.events| <= |s.accepted| <= |s.events| + 1 + WRITER_QUEUE_CAPACITY
            && (forall i | 0 <= i < |s.events| :: s.events[i].Ran? <==> s.accepted[i].AppendRequest?)
  {
    RunKeepsInv(steps);
  }

  lemma CallRemembers(s: System, step: Step, c: Caller)
    requires c in s.calls && Next(s, step).Some?
    ensures var after := Next(s, step).value;
            c in after.calls && after.calls[c].begun == s.calls[c].begun && s.accepted <= after.accepted
  {
  }

  /** What a call remembers is how many messages had been accepted when it began, and none of them is
      ever withdrawn. */
  lemma {:induction false} BegunIsWhenItBegan(steps: seq<Step>, m: nat, c: Caller)
    requires m < |steps| && steps[m] == BeginFlush(c) && Run(steps).Some?
    ensures Run(steps[..m]).Some? && c in Run(steps).value.calls
    ensures Run(steps).value.calls[c].begun == |Run(steps[..m]).value.accepted|
    ensures Run(steps[..m]).value.accepted <= Run(steps).value.accepted
    decreases |steps|
  {
    var front := steps[..|steps| - 1];
    if m < |front| {
      TakeOfTake(steps, |front|, m);
      BegunIsWhenItBegan(front, m, c);
      CallRemembers(Run(front).value, steps[|front|], c);
    }
  }

  /** When a flush that began at step `m` has returned, every append accepted before it began has run,
      and its answer is the first failure among the appends since the flush before it. */
  lemma FlushCoversEarlier(steps: seq<Step>, m: nat, c: Caller)
    requires m < |steps| && steps[m] == BeginFlush(c) && Run(steps).Some?
    requires c in Run(steps).value.calls && Run(steps).value.calls[c].Returned?
    ensures Run(steps[..m]).Some?
    ensures var s, earlier := Run(steps).value, Run(steps[..m]).value.accepted;
            var index, messages := s.calls[c].index, Performed(s.events);
            && |earlier| <= index < |s.events| <= |s.accepted| && s.accepted[index] == FlushRequest(c)
            && earlier <= s.accepted
            && (forall j | 0 <= j < |earlier| && earlier[j].AppendRequest? :: s.events[j].Ran?)
            && s.calls[c].answer == FirstFailure(messages, GenerationStart(messages, index), index)
  {
    RunKeepsInv(steps);
    BegunIsWhenItBegan(steps, m, c);
    var s := Run(steps).value;
    assert CallOk(s, c, s.calls[c]);
    assert Answered(Performed(s.events), s.calls[c].index, s.events[s.calls[c].index]);
  }

  /** Who learns of a generation's first failure: the caller of the next flush, exactly if its call
      returned; exactly if that call timed out while its message was queued, nobody does. */
  lemma NextCallerLearnsIff(steps: seq<Step>, k: nat, i: nat)
    requires Run(steps).Some?
    requires var messages := Performed(Run(steps).value.events);
             k < |messages| && i < |messages| && LeadsGeneration(messages, k) && NextFlush(messages, k, i)
    ensures var s := Run(steps).value;
            && i < |s.accepted| && s.accepted[i].FlushRequest? && s.accepted[i].caller in s.calls
            && var failure, call := Performed(s.events)[k].failure, s.calls[s.accepted[i].caller];
               && (s.events[i] == Acknowledged(failure, true) <==> exists begun :: call == Returned(begun, i, failure))
               && (s.events[i] == Acknowledged(failure, false) <==> call.TimedOut?)
               && (s.events[i] == Acknowledged(failure, true) || s.events[i] == Acknowledged(failure, false))
  {
    RunKeepsInv(steps);
    var s := Run(steps).value;
    var messages := Performed(s.events);
    assert messages[i].Flush? && s.events[i].Acknowledged?;
    var c := s.accepted[i].caller;
    assert CallOk(s, c, s.calls[c]);
    assert Answered(messages, i, s.events[i]);
    FailureGoesToOneFlush(messages, k, i);
    if s.calls[c].Returned? {
      assert s.calls[c] == Returned(s.calls[c].begun, i, messages[k].failure);
    }
  }

  /** No other call is ever given that error: an answer comes from the caller's own generation. */
  lemma OthersLearnOtherErrors(steps: seq<Step>, k: nat, c: Caller)
    requires Run(steps).Some?
    requires k < |Run(steps).value.events| && LeadsGeneration(Performed(Run(steps).value.events), k)
    requires c in Run(steps).value.calls && Run(steps).value.calls[c].Returned?
    ensures var s := Run(steps).value;
            var messages, call := Performed(s.events), s.calls[c];
            call.index < |messages| && (AnswersFor(messages, call.index, k) <==> NextFlush(messages, k, call.index))
  {
    RunKeepsInv(steps);
    var s := Run(steps).value;
    assert CallOk(s, c, s.calls[c]);
    FailureGoesToOneFlush(Performed(s.events), k, s.calls[c].index);
  }

  /** The failing case itself: a flush that timed out has consumed the error, and the next one, which
      waits, is told that all is well. */
  lemma TimedOutFlushLosesError(events: seq<Event>)
    requires var messages := [Append(Some(7)), Flush(false), Flush(true)];
             |events| == 3 && forall i | 0 <= i < 3 :: Answered(messages, i, events[i])
    ensures events[1] == Acknowledged(Some(7), false) && events[2] == Acknowledged(None, true)
  {
    var messages := [Append(Some(7)), Flush(false), Flush(true)];
    assert FirstFailure(messages, 0, 1) == Some(7) by {
      assert FirstFailure(messages, 0, 0) == None;
    }
    assert Answered(messages, 1, events[1]) && Answered(messages, 2, events[2]);
    assert GenerationStart(messages, 0) == 0;
  }

  // ---------------------------------------------------------------- nothing gets stuck

  predicate IsWriterStep(step: Step) {
    step.Receive? || step.FinishAppend? || step.Rendezvous? || step.SendFails?
  }

  /** How far the writer is from having finished the first `n` messages. */
  function Distance(s: System, n: nat): int {
    2 * (n - |s.events|) + if s.activity.Waiting? then 1 else 0
  }

  /** What the writer can do next; an append it is at succeeds. */
  function WriterMove(s: System): Step {
    match s.activity
    case Waiting => Receive
    case Appending => FinishAppend(None)
    case Handing(_) => if CurrentCall(s).Some? && CurrentCall(s).value.Receiving? then Rendezvous else SendFails
  }

  lemma WriterMoves(s: System)
    requires Inv(s) && |s.events| < |s.accepted|
    ensures IsWriterStep(WriterMove(s)) && Next(s, WriterMove(s)).Some?
    ensures var after := Next(s, WriterMove(s)).value;
            && after.accepted == s.accepted && Distance(after, 0) < Distance(s, 0)
            && (s.activity.Waiting? ==> after.events == s.events && after.calls == s.calls)
            && after.calls.Keys == s.calls.Keys
            && (forall c | c in s.calls && s.accepted[|s.events|] != FlushRequest(c) :: after.calls[c] == s.calls[c])
            && (forall c | c in s.calls && s.calls[c].Sending? :: after.calls[c] == s.calls[c])
  {
    if s.activity.Handing? {
      var c := Current(s).value.caller;
      assert CallOk(s, c, s.calls[c]) && Queued(s.calls[c]) == Some(|s.events|);
    }
  }

  /** The run goes on to this state without a call timing out: by the writer's steps, and those of caller `c`
      where one is named. */
  ghost predicate GoesOn(steps: seq<Step>, all: seq<Step>, c: Option<Caller>, end: System) {
    && steps <= all && Run(all) == Some(end)
    && forall m | |steps| <= m < |all| ::
         IsWriterStep(all[m]) || (c.Some? && (all[m] == BeginFlush(c.value) || all[m] == TrySendFlush(c.value)))
  }

  lemma OneMore(steps: seq<Step>, all: seq<Step>, c: Option<Caller>, s: System, step: Step) returns (more: seq<Step>)
    requires GoesOn(steps, all, c, s) && Next(s, step).Some?
    requires IsWriterStep(step) || (c.Some? && (step == BeginFlush(c.value) || step == TrySendFlush(c.value)))
    ensures GoesOn(steps, more, c, Next(s, step).value)
  {
    TakeSnoc(all, step);
    more := all + [step];
  }

  /** By itself the writer can work off everything that is queued. */
  lemma {:induction false} WriterDrains(steps: seq<Step>, all0: seq<Step>, c: Option<Caller>, s: System)
    returns (all: seq<Step>, end: System)
    requires GoesOn(steps, all0, c, s)
    ensures GoesOn(steps, all, c, end) && end.accepted == s.accepted && |end.events| == |s.accepted|
    ensures end.calls.Keys == s.calls.Keys
    ensures forall d | d in s.calls && s.calls[d].Sending? :: end.calls[d] == s.calls[d]
    decreases Distance(s, |s.accepted|) + 2
  {
    RunKeepsInv(all0);
    if |s.events| == |s.accepted| {
      all, end := all0, s;
    } else {
      WriterMoves(s);
      all := OneMore(steps, all0, c, s, WriterMove(s));
      all, end := WriterDrains(steps, all, c, Next(s, WriterMove(s)).value);
    }
  }

  /** A call whose message is queued can get its answer. */
  lemma {:induction false} QueuedFlushReturns(steps: seq<Step>, all0: seq<Step>, c: Caller, s: System)
    returns (all: seq<Step>, end: System)
    requires GoesOn(steps, all0, Some(c), s) && c in s.calls && s.calls[c].Receiving?
    ensures GoesOn(steps, all, Some(c), end) && c in end.calls && end.calls[c].Returned?
    decreases Distance(s, s.calls[c].index)
  {
    RunKeepsInv(all0);
    assert CallOk(s, c, s.calls[c]);
    WriterMoves(s);
    all := OneMore(steps, all0, Some(c), s, WriterMove(s));
    end := Next(s, WriterMove(s)).value;
    if end.calls[c] == s.calls[c] {
      RunKeepsInv(all);
      assert CallOk(end, c, end.calls[c]);
      all, end := QueuedFlushReturns(steps, all, c, end);
    }
  }

  /** No deadlock: from every reachable state a new flush can begin, queue its message and return without
      anyone timing out, whatever is queued before it and whoever has given up waiting. */
  lemma FlushCanReturn(steps: seq<Step>, c: Caller) returns (all: seq<Step>, end: System)
    requires Run(steps).Some? && c !in Run(steps).value.calls
    ensures GoesOn(steps, all, Some(c), end) && c in end.calls && end.calls[c].Returned?
  {
    end := Run(steps).value;
    all := OneMore(steps, steps, Some(c), end, BeginFlush(c));
    all, end := WriterDrains(steps, all, Some(c), Next(end, BeginFlush(c)).value);
    RunKeepsInv(all);
    all := OneMore(steps, all, Some(c), end, TrySendFlush(c));
    end := Next(end, TrySendFlush(c)).value;
    all, end := QueuedFlushReturns(steps, all, c, end);
  }

  lemma {:induction false} EnqueueMany(steps: seq<Step>, n: nat)
    requires Run(steps).Some?
    ensures var s, filled := Run(steps).value, Run(steps + seq(n, _ => Enqueue));
            && filled.Some? && filled.value.events == s.events && filled.value.activity == s.activity
            && s.accepted <= filled.value.accepted
            && |filled.value.accepted| == |s.accepted| + if n < Space(s) then n else Space(s)
  {
    var more := seq(n, _ => Enqueue);
    if n == 0 {
      EmptyAppend(steps);
    } else {
      assert steps + more == (steps + seq(n - 1, _ => Enqueue)) + [Enqueue];
      TakeSnoc(steps + seq(n - 1, _ => Enqueue), Enqueue);
      EnqueueMany(steps, n - 1);
    }
  }

  /** How many more messages the queue has room for. */
  function Space(s: System): nat {
    if Room(s) then Received(s) + WRITER_QUEUE_CAPACITY - |s.accepted| else 0
  }

  /** From every reachable state, of any number of appends queued at once exactly those are accepted that
      leave at most 256 behind the message the writer is at, or has finished. */
  lemma BacklogFills(steps: seq<Step>, n: nat)
    requires Run(steps).Some?
    ensures var s := Run(steps).value;
            var waiting := |s.accepted| - |s.events| - if s.activity.Waiting? then 0 else 1;
            && 0 <= waiting <= WRITER_QUEUE_CAPACITY
            && Run(steps + seq(n, _ => Enqueue)).Some?
            && |Run(steps + seq(n, _ => Enqueue)).value.accepted|
               == |s.accepted| + if waiting + n <= WRITER_QUEUE_CAPACITY then n else WRITER_QUEUE_CAPACITY - waiting
  {
    RunKeepsInv(steps);
    EnqueueMany(steps, n);
  }
}
