/** The epoch of correction requests on one surface: a wrapping generation number and at most one
    request in flight on it. */
module RequestEpoch {
  import opened Outcomes
  import opened Sequences

  const GENERATIONS: nat := 0x1_0000_0000_0000_0000

  type Generation = g: nat | g < GENERATIONS

  datatype Active<T> = Active(generation: Generation, token: T)

  datatype Epoch<T> = Epoch(generation: Generation, active: Option<Active<T>>)

  datatype Call<T> =
    | Advance
    | Start(generation: Generation, token: T)
    | Finish(generation: Generation)
    | Cancel(generation: Generation)
    | Retire(generation: Generation)
    | Drop

  /** Where a call leaves the epoch, whether it succeeded, and the tokens it cancelled and finished. */
  datatype Outcome<T> = Outcome(epoch: Epoch<T>, ok: bool, cancelled: set<T>, finished: set<T>)

  function Bump(g: Generation): Generation {
    (g + 1) % GENERATIONS
  }

  /** The token in flight, if any. */
  function Live<T(==)>(e: Epoch<T>): set<T> {
    if e.active.Some? then {e.active.value.token} else {}
  }

  /** A request is in flight on exactly this generation. */
  predicate InFlight<T>(e: Epoch<T>, g: Generation) {
    e.generation == g && e.active.Some? && e.active.value.generation == g
  }

  function Step<T(==)>(e: Epoch<T>, call: Call<T>): Outcome<T> {
    match call
    case Advance => Outcome(Epoch(Bump(e.generation), None), true, Live(e), {})
    case Start(g, token) =>
      if e.generation != g then Outcome(e, false, {token}, {})
      else Outcome(Epoch(g, Some(Active(g, token))), true, Live(e), {})
    case Finish(g) =>
      if InFlight(e, g) then Outcome(e.(active := None), true, {}, Live(e)) else Outcome(e, false, {}, {})
    case Cancel(g) =>
      if InFlight(e, g) then Outcome(e.(active := None), true, Live(e), {}) else Outcome(e, false, {}, {})
    case Retire(g) =>
      if e.generation != g then Outcome(e, false, {}, {})
      else Outcome(Epoch(Bump(g), None), true, Live(e), {})
    case Drop => Outcome(e.(active := None), true, Live(e), {})
  }

  /** AiCancellationToken: a flag shared with the worker. */
  class Token {
    var cancelled: bool

    method CancelToken()
      modifies this
      ensures cancelled
    {
      cancelled := true;
    }
  }

  class CorrectionRequestState {
    var generation: Generation
    var active: Option<Active<Token>>

    constructor ()
      ensures Value() == Epoch(0, None)
    {
      generation := 0;
      active := None;
    }

    ghost function Value(): Epoch<Token>
      reads this
    {
      Epoch(generation, active)
    }

    /** cancel_active. */
    method CancelActive()
      modifies this, Live(Value())
      ensures generation == old(generation) && active == None
      ensures forall t | t in old(Live(Value())) :: t.cancelled
    {
      if active.Some? {
        var token := active.value.token;
        active := None;
        token.CancelToken();
      }
    }

    method Advance() returns (minted: Generation)
      modifies this, Live(Value())
      ensures Value() == Step(old(Value()), Call.Advance).epoch && minted == generation
      ensures forall t | t in Step(old(Value()), Call.Advance).cancelled :: t.cancelled
    {
      CancelActive();
      generation := (generation + 1) % GENERATIONS;
      return generation;
    }

    method Start(g: Generation, token: Token) returns (adopted: bool)
      modifies this, token, Live(Value())
      ensures Value() == Step(old(Value()), Call.Start(g, token)).epoch
      ensures adopted == Step(old(Value()), Call.Start(g, token)).ok
      ensures forall t | t in old(Live(Value())) + {token} ::
                if t in Step(old(Value()), Call.Start(g, token)).cancelled then t.cancelled
                    else t.cancelled == old(t.cancelled)
    {
      if generation != g {
        token.CancelToken();
        return false;
      }
      CancelActive();
      active := Some(Active(g, token));
      return true;
    }

    method IsGeneration(g: Generation) returns (yes: bool)
      ensures yes == (generation == g)
    {
      return generation == g;
    }

    method IsCurrent(g: Generation) returns (yes: bool)
      ensures yes == InFlight(Value(), g)
    {
      yes := IsGeneration(g);
      if yes {
        yes := active.Some? && active.value.generation == g;
      }
    }

    method Finish(g: Generation) returns (finished: bool)
      modifies this
      ensures Value() == Step(old(Value()), Call.Finish(g)).epoch
      ensures finished == Step(old(Value()), Call.Finish(g)).ok
    {
      if generation != g {
        return false;
      }
      if active.Some? && active.value.generation == g {
        active := None;
        return true;
      }
      return false;
    }

    method Cancel(g: Generation) returns (cancelled: bool)
      modifies this, Live(Value())
      ensures Value() == Step(old(Value()), Call.Cancel(g)).epoch
      ensures cancelled == Step(old(Value()), Call.Cancel(g)).ok
      ensures forall t | t in old(Live(Value())) ::
                if t in Step(old(Value()), Call.Cancel(g)).cancelled then t.cancelled
                    else t.cancelled == old(t.cancelled)
    {
      if generation != g {
        return false;
      }
      if active.Some? && active.value.generation == g {
        CancelActive();
        return true;
      }
      return false;
    }

    method Retire(g: Generation) returns (retired: bool)
      modifies this, Live(Value())
      ensures Value() == Step(old(Value()), Call.Retire(g)).epoch
      ensures retired == Step(old(Value()), Call.Retire(g)).ok
      ensures forall t | t in old(Live(Value())) ::
                if t in Step(old(Value()), Call.Retire(g)).cancelled then t.cancelled
                    else t.cancelled == old(t.cancelled)
    {
      if generation != g {
        return false;
      }
      CancelActive();
      generation := (g + 1) % GENERATIONS;
      return true;
    }

    /** The end of the surface. */
    method Drop()
      modifies this, Live(Value())
      ensures Value() == Step(old(Value()), Call.Drop).epoch
      ensures forall t | t in Step(old(Value()), Call.Drop).cancelled :: t.cancelled
    {
      CancelActive();
    }
  }

  // ---- whole runs ----

  function Run<T(==)>(e: Epoch<T>, calls: seq<Call<T>>): Epoch<T> {
    if calls == [] then e else Step(Run(e, calls[..|calls| - 1]), calls[|calls| - 1]).epoch
  }

  /** The tokens given to `start`, and those cancelled or finished by some call. */
  function Started<T(==)>(calls: seq<Call<T>>): set<T> {
    set k | 0 <= k < |calls| && calls[k].Start? :: calls[k].token
  }

  function Cancelled<T(==)>(e: Epoch<T>, calls: seq<Call<T>>): set<T> {
    if calls == [] then {}
    else Cancelled(e, calls[..|calls| - 1]) + Step(Run(e, calls[..|calls| - 1]), calls[|calls| - 1]).cancelled
  }

  function Finished<T(==)>(e: Epoch<T>, calls: seq<Call<T>>): set<T> {
    if calls == [] then {}
    else Finished(e, calls[..|calls| - 1]) + Step(Run(e, calls[..|calls| - 1]), calls[|calls| - 1]).finished
  }

  /** How often the generation moved on. */
  function Bumps<T(==)>(e: Epoch<T>, calls: seq<Call<T>>): nat {
    if calls == [] then 0
    else
      var before := Run(e, calls[..|calls| - 1]);
      var call := calls[|calls| - 1];
      Bumps(e, calls[..|calls| - 1]) + if call.Advance? || (call.Retire? && Step(before, call).ok) then 1 else 0
  }

  /** What is in flight carries the current generation. */
  predicate Fresh<T>(e: Epoch<T>) {
    e.active.Some? ==> e.active.value.generation == e.generation
  }

  lemma {:induction false} LiveIsFresh<T>(e: Epoch<T>, calls: seq<Call<T>>)
    requires Fresh(e)
    ensures Fresh(Run(e, calls))
  {
    if calls != [] {
      LiveIsFresh(e, calls[..|calls| - 1]);
    }
  }

  lemma StartedSnoc<T>(calls: seq<Call<T>>)
    requires calls != []
    ensures var call := calls[|calls| - 1];
            Started(calls) == Started(calls[..|calls| - 1]) + if call.Start? then {call.token} else {}
  {
    var init := calls[..|calls| - 1];
    forall t | t in Started(calls)
      ensures t in Started(init) || (calls[|calls| - 1].Start? && t == calls[|calls| - 1].token)
    {
      var k :| 0 <= k < |calls| && calls[k].Start? && calls[k].token == t;
      if k < |init| {
        assert init[k] == calls[k];
      }
    }
    forall t | t in Started(init)
      ensures t in Started(calls)
    {
      var k :| 0 <= k < |init| && init[k].Start? && init[k].token == t;
      assert calls[k] == init[k];
    }
  }

  /** The token a call offers. */
  function Offered<T(==)>(call: Call<T>): set<T> {
    if call.Start? then {call.token} else {}
  }

  /** One call: what was in flight or is offered ends in flight, cancelled or finished. */
  lemma StepAccounts<T>(e: Epoch<T>, call: Call<T>)
    ensures var o := Step(e, call); Live(e) + Offered(call) == Live(o.epoch) + o.cancelled + o.finished
  {
  }

  /** A token offered for the first time meets one fate. */
  lemma StepSeparates<T>(e: Epoch<T>, call: Call<T>)
    requires Live(e) !! Offered(call)
    ensures var o := Step(e, call);
            Live(o.epoch) !! o.cancelled && Live(o.epoch) !! o.finished && o.cancelled !! o.finished
  {
  }

  /** No token is lost: from an idle epoch, the tokens given to `start` are exactly those in flight,
      cancelled or finished. */
  lemma {:induction false} EveryTokenAccounted<T>(e: Epoch<T>, calls: seq<Call<T>>)
    requires e.active.None?
    ensures Started(calls) == Live(Run(e, calls)) + Cancelled(e, calls) + Finished(e, calls)
  {
    if calls != [] {
      var init, call := calls[..|calls| - 1], calls[|calls| - 1];
      EveryTokenAccounted(e, init);
      StartedSnoc(calls);
      var before := Run(e, init);
      StepAccounts(before, call);
      Regroup(Live(before), Cancelled(e, init), Finished(e, init), Offered(call), Step(before, call));
    }
  }

  lemma Regroup<T>(live: set<T>, cancelled: set<T>, finished: set<T>, offered: set<T>, o: Outcome<T>)
    requires live + offered == Live(o.epoch) + o.cancelled + o.finished
    ensures live + cancelled + finished + offered == Live(o.epoch) + (cancelled + o.cancelled) + (finished + o.finished)
  {
    calc {
      live + cancelled + finished + offered;
      (live + offered) + cancelled + finished;
      Live(o.epoch) + (cancelled + o.cancelled) + (finished + o.finished);
    }
  }

  /** No token is given to `start` twice. */
  predicate DistinctTokens<T(==)>(calls: seq<Call<T>>) {
    forall j, k | 0 <= j < k < |calls| && calls[j].Start? && calls[k].Start? :: calls[j].token != calls[k].token
  }

  lemma OfferedIsNew<T>(calls: seq<Call<T>>)
    requires calls != [] && DistinctTokens(calls)
    ensures Started(calls[..|calls| - 1]) !! Offered(calls[|calls| - 1])
  {
    var init, call := calls[..|calls| - 1], calls[|calls| - 1];
    if call.Start? {
      forall t | t in Started(init)
        ensures t != call.token
      {
        var k :| 0 <= k < |init| && init[k].Start? && init[k].token == t;
        assert calls[k] == init[k];
      }
    }
  }

  /** Three sets, none of which shares a token with another. */
  predicate Apart<T(==)>(live: set<T>, cancelled: set<T>, finished: set<T>) {
    live !! cancelled && live !! finished && cancelled !! finished
  }

  /** With distinct tokens the three fates exclude each other: a finished request is never cancelled
      and neither is ever live again. */
  lemma {:induction false} FatesAreDisjoint<T>(e: Epoch<T>, calls: seq<Call<T>>)
    requires e.active.None? && DistinctTokens(calls)
    ensures Apart(Live(Run(e, calls)), Cancelled(e, calls), Finished(e, calls))
  {
    if calls != [] {
      var init, call := calls[..|calls| - 1], calls[|calls| - 1];
      FatesAreDisjoint(e, init);
      EveryTokenAccounted(e, init);
      OfferedIsNew(calls);
      var before := Run(e, init);
      StepAccounts(before, call);
      StepSeparates(before, call);
      StaysApart(Live(before), Cancelled(e, init), Finished(e, init), Offered(call), Step(before, call));
    }
  }

  lemma StaysApart<T>(live: set<T>, cancelled: set<T>, finished: set<T>, offered: set<T>, o: Outcome<T>)
    requires Apart(live, cancelled, finished) && live + cancelled + finished !! offered
    requires live + offered == Live(o.epoch) + o.cancelled + o.finished
    requires Apart(Live(o.epoch), o.cancelled, o.finished)
    ensures Apart(Live(o.epoch), cancelled + o.cancelled, finished + o.finished)
  {
    assert Live(o.epoch) + o.cancelled + o.finished !! cancelled + finished;
  }

  // ---- which fate ----

  /** Call `k` starts the token on the generation that is current then. */
  ghost predicate AdoptsAt<T>(e: Epoch<T>, calls: seq<Call<T>>, k: nat, t: T) {
    k < |calls| && calls[k] == Call.Start(Run(e, calls[..k]).generation, t)
  }

  /** The calls that end a request in flight on generation `g`: those that name it, and those that spare none. */
  predicate Ends<T>(call: Call<T>, g: Generation) {
    call.Advance? || call.Drop? || call.generation == g
  }

  /** The token was started by call `k`, and no call from there up to the `n`-th ends it. */
  ghost predicate InFlightSince<T>(e: Epoch<T>, calls: seq<Call<T>>, k: nat, n: nat, t: T) {
    && k < n <= |calls| && AdoptsAt(e, calls, k, t)
    && forall m | k < m < n :: !Ends(calls[m], calls[k].generation)
  }

  lemma RunNext<T>(e: Epoch<T>, calls: seq<Call<T>>, n: nat)
    requires n < |calls|
    ensures Run(e, calls[..n + 1]) == Step(Run(e, calls[..n]), calls[n]).epoch
    ensures Finished(e, calls[..n + 1]) == Finished(e, calls[..n]) + Step(Run(e, calls[..n]), calls[n]).finished
  {
    TakeTake(calls, n);
  }

  lemma {:induction false} Flies<T>(e: Epoch<T>, calls: seq<Call<T>>, k: nat, n: nat, t: T)
    requires InFlightSince(e, calls, k, n, t)
    ensures Run(e, calls[..n]) == Epoch(calls[k].generation, Some(Active(calls[k].generation, t)))
    decreases n
  {
    RunNext(e, calls, n - 1);
    if k < n - 1 {
      Flies(e, calls, k, n - 1, t);
    }
  }

  /** A request in flight after a call that did not start it was in flight before, and the call spared it. */
  lemma Spared<T>(e: Epoch<T>, call: Call<T>)
    requires Step(e, call).epoch.active.Some? && !(call.Start? && call.generation == e.generation) && Fresh(e)
    ensures Step(e, call).epoch == e && e.active.Some? && !Ends(call, e.generation)
  {
  }

  lemma SinceGrows<T>(e: Epoch<T>, calls: seq<Call<T>>, k: nat, n: nat, t: T)
    requires InFlightSince(e, calls, k, n, t) && n < |calls| && !Ends(calls[n], calls[k].generation)
    ensures InFlightSince(e, calls, k, n + 1, t)
  {
  }

  lemma SinceStarted<T>(e: Epoch<T>, calls: seq<Call<T>>, n: nat)
    requires n < |calls| && calls[n].Start? && calls[n].generation == Run(e, calls[..n]).generation
    ensures InFlightSince(e, calls, n, n + 1, calls[n].token)
  {
  }

  lemma {:induction false} Launched<T>(e: Epoch<T>, calls: seq<Call<T>>, n: nat) returns (k: nat)
    requires e.active.None? && n <= |calls| && Run(e, calls[..n]).active.Some?
    ensures InFlightSince(e, calls, k, n, Run(e, calls[..n]).active.value.token)
    decreases n
  {
    var last := n - 1;
    RunNext(e, calls, last);
    var before, call := Run(e, calls[..last]), calls[last];
    LiveIsFresh(e, calls[..last]);
    if call.Start? && call.generation == before.generation {
      k := last;
      SinceStarted(e, calls, last);
    } else {
      Spared(before, call);
      k := Launched(e, calls, last);
      Flies(e, calls, k, last, before.active.value.token);
      SinceGrows(e, calls, k, last, before.active.value.token);
    }
  }

  /** A token is in flight exactly when it was started on the generation current then, and since then
      nobody has advanced or dropped the epoch or made a call that names this generation. */
  lemma LiveIff<T>(e: Epoch<T>, calls: seq<Call<T>>, t: T)
    requires e.active.None?
    ensures t in Live(Run(e, calls)) <==> exists k :: InFlightSince(e, calls, k, |calls|, t)
  {
    Whole(calls, 0);
    if t in Live(Run(e, calls)) {
      var k := Launched(e, calls, |calls|);
    }
    if k :| InFlightSince(e, calls, k, |calls|, t) {
      Flies(e, calls, k, |calls|, t);
    }
  }

  /** Call `m` finishes the token that call `k` started, and that has been in flight since. */
  ghost predicate FinishesAt<T>(e: Epoch<T>, calls: seq<Call<T>>, k: nat, m: nat, t: T) {
    m < |calls| && InFlightSince(e, calls, k, m, t) && calls[m] == Call.Finish(calls[k].generation)
  }

  ghost predicate FinishedAt<T>(e: Epoch<T>, calls: seq<Call<T>>, m: nat, t: T) {
    exists k: nat :: FinishesAt(e, calls, k, m, t)
  }

  lemma FinishesNow<T>(e: Epoch<T>, calls: seq<Call<T>>, m: nat, t: T)
    requires e.active.None? && m < |calls|
    ensures t in Step(Run(e, calls[..m]), calls[m]).finished <==> FinishedAt(e, calls, m, t)
  {
    if t in Step(Run(e, calls[..m]), calls[m]).finished {
      var k := Launched(e, calls, m);
      Flies(e, calls, k, m, t);
      assert FinishesAt(e, calls, k, m, t);
    }
    if k: nat :| FinishesAt(e, calls, k, m, t) {
      Flies(e, calls, k, m, t);
    }
  }

  ghost predicate FinishedBefore<T>(e: Epoch<T>, calls: seq<Call<T>>, n: nat, t: T) {
    exists m: nat | m < n :: FinishedAt(e, calls, m, t)
  }

  lemma FinishedBeforeGrows<T>(e: Epoch<T>, calls: seq<Call<T>>, n: nat, t: T)
    ensures FinishedBefore(e, calls, n + 1, t) <==> FinishedBefore(e, calls, n, t) || FinishedAt(e, calls, n, t)
  {
  }

  lemma {:induction false} FinishedBy<T>(e: Epoch<T>, calls: seq<Call<T>>, n: nat, t: T)
    requires e.active.None? && n <= |calls|
    ensures t in Finished(e, calls[..n]) <==> FinishedBefore(e, calls, n, t)
  {
    if n == 0 {
      assert calls[..0] == [];
    } else {
      FinishedBy(e, calls, n - 1, t);
      RunNext(e, calls, n - 1);
      FinishesNow(e, calls, n - 1, t);
      FinishedBeforeGrows(e, calls, n - 1, t);
    }
  }

  /** A token is finished exactly when a finish call names its generation while it is in flight; with
      `LiveIff` and `EveryTokenAccounted` every other token given to `start` is in flight or cancelled. */
  lemma FinishedIff<T>(e: Epoch<T>, calls: seq<Call<T>>, t: T)
    requires e.active.None?
    ensures t in Finished(e, calls) <==> exists m: nat :: FinishedAt(e, calls, m, t)
  {
    Whole(calls, 0);
    FinishedBy(e, calls, |calls|, t);
  }

  /** The generation counts the bumps, modulo 2^64. */
  lemma {:induction false} GenerationCountsBumps<T>(e: Epoch<T>, calls: seq<Call<T>>)
    ensures Run(e, calls).generation == (e.generation + Bumps(e, calls)) % GENERATIONS
  {
    if calls != [] {
      GenerationCountsBumps(e, calls[..|calls| - 1]);
      BumpAdds(e.generation + Bumps(e, calls[..|calls| - 1]));
    }
  }

  lemma BumpAdds(n: nat)
    ensures (n % GENERATIONS + 1) % GENERATIONS == (n + 1) % GENERATIONS
  {
    var q, r := n / GENERATIONS, n % GENERATIONS;
    assert n == q * GENERATIONS + r;
    if r + 1 == GENERATIONS {
      assert n + 1 == (q + 1) * GENERATIONS;
    } else {
      assert n + 1 == q * GENERATIONS + (r + 1);
    }
  }

  /** Some call naming a generation: it succeeds only on the live epoch. */
  predicate Names<T>(call: Call<T>, g: Generation) {
    (call.Start? || call.Finish? || call.Cancel? || call.Retire?) && call.generation == g
  }

  /** A generation that was passed comes back exactly when the number of bumps since is a multiple of 2^64. */
  lemma StaleGenerationIff<T>(e: Epoch<T>, calls: seq<Call<T>>)
    ensures Run(e, calls).generation == e.generation <==> Bumps(e, calls) % GENERATIONS == 0
  {
    GenerationCountsBumps(e, calls);
    var b, g := Bumps(e, calls), e.generation;
    var r := b % GENERATIONS;
    assert b == (b / GENERATIONS) * GENERATIONS + r;
    assert (g + b) % GENERATIONS == (g + r) % GENERATIONS by {
      ModShift(g + r, b / GENERATIONS);
    }
  }

  lemma {:induction false} ModShift(n: nat, q: nat)
    ensures (n + q * GENERATIONS) % GENERATIONS == n % GENERATIONS
  {
    if q > 0 {
      ModShift(n, q - 1);
      assert n + q * GENERATIONS == (n + (q - 1) * GENERATIONS) + GENERATIONS;
    }
  }

  /** Once the generation moved on, and until it has moved on 2^64 times, no call naming it succeeds:
      a card can be retired once, and nothing is adopted, finished or cancelled under its number. */
  lemma PassedGenerationIsDead<T>(e: Epoch<T>, calls: seq<Call<T>>, call: Call<T>)
    requires 0 < Bumps(e, calls) < GENERATIONS && Names(call, e.generation)
    ensures !Step(Run(e, calls), call).ok && Step(Run(e, calls), call).epoch == Run(e, calls)
  {
    StaleGenerationIff(e, calls);
  }

  function Advances<T>(n: nat): (calls: seq<Call<T>>)
    ensures |calls| == n
  {
    seq(n, _ => Call.Advance)
  }

  lemma {:induction false} AdvancesBump<T>(e: Epoch<T>, n: nat)
    ensures Bumps(e, Advances(n)) == n
  {
    if n > 0 {
      assert Advances<T>(n)[..n - 1] == Advances<T>(n - 1);
      AdvancesBump(e, n - 1);
    }
  }

  /** The limit is sharp: after exactly 2^64 advances a card retired long ago can be retired again. */
  lemma WrapRevives<T>(e: Epoch<T>)
    ensures Step(Run(e, Advances(GENERATIONS)), Call.Retire(e.generation)).ok
  {
    AdvancesBump(e, GENERATIONS);
    StaleGenerationIff(e, Advances(GENERATIONS));
  }
}
