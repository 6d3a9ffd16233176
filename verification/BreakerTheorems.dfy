/** What every run of the breaker keeps, and what asking it promises. */
module BreakerTheorems {
  import opened Common
  import opened ProviderErrors
  import opened CircuitBreaker

  // ----- any run ---------------------------------------------------------------

  /** Asks and reports by any callers, in any order, with any decision in hand. */
  datatype Event =
    | Asked(now: real, who: string)
    | Succeeded(now: real, decision: Decision)
    | Failed(now: real, decision: Decision, error: ProviderError)

  function After(cfg: Config, cell: Cell, e: Event): Cell {
    match e
    case Asked(now, who) => Ask(cfg, cell, now, who).0
    case Succeeded(now, d) => Success(cfg, cell, now, d)
    case Failed(now, d, error) => Failure(cfg, cell, now, d, error)
  }

  function Run(cfg: Config, cell: Cell, events: seq<Event>): Cell {
    if events == [] then cell else After(cfg, Run(cfg, cell, events[..|events| - 1]), events[|events| - 1])
  }

  /** The instant from which an ask is admitted again. */
  function Deadline(cfg: Config, h: Hash): real {
    OpenedAt(h) + CooldownOf(cfg, h)
  }

  /** A stored cooldown is on the ladder, and a breaker that is not closed outlives it. */
  predicate Inv(cfg: Config, cell: Cell) {
    && (cell.hash.cooldown.Some? ==> cfg.initial <= cell.hash.cooldown.value <= cfg.maximum)
    && (!StateOf(cell.hash).Closed? ==>
        && cell.hash.openedAt.Some? && cell.hash.cooldown.Some?
        && Deadline(cfg, cell.hash) < cell.expiresAt)
  }

  /** The clock never runs backwards. */
  predicate Ordered(events: seq<Event>) {
    forall i, j :: 0 <= i < j < |events| ==> events[i].now <= events[j].now
  }

  /** Nothing was opened in the future. */
  predicate OpenedBy(cell: Cell, now: real) {
    !StateOf(cell.hash).Closed? ==> OpenedAt(cell.hash) <= now
  }

  lemma NextCooldownOnLadder(cfg: Config, previous: Option<real>, hint: Option<real>)
    requires cfg.Sane() && (previous.Some? ==> cfg.initial <= previous.value <= cfg.maximum)
    ensures cfg.initial <= NextCooldown(cfg, previous, hint) <= cfg.maximum
  {
    if previous.Some? {
      assert previous.value * cfg.factor >= previous.value * 1.0;
    }
  }

  lemma StepInv(cfg: Config, cell: Cell, e: Event)
    requires cfg.Sane() && Inv(cfg, cell) && OpenedBy(cell, e.now)
    ensures Inv(cfg, After(cfg, cell, e)) && OpenedBy(After(cfg, cell, e), e.now)
  {
    match e
    case Asked(_, _) =>
    case Succeeded(_, _) =>
    case Failed(now, d, error) =>
      NextCooldownOnLadder(cfg, None, error.Hint());
      NextCooldownOnLadder(cfg, Live(cell, now).cooldown, error.Hint());
  }

  /** In every reachable state that is not closed, the cooldown is between the initial and
      the maximum, and it ends before the key expires. */
  lemma {:induction false} ReachableInv(cfg: Config, events: seq<Event>)
    requires cfg.Sane() && Ordered(events)
    ensures Inv(cfg, Run(cfg, FRESH, events))
    ensures forall now :: (events != [] ==> events[|events| - 1].now <= now) ==> OpenedBy(Run(cfg, FRESH, events), now)
  {
    if events != [] {
      ReachableInv(cfg, events[..|events| - 1]);
      StepInv(cfg, Run(cfg, FRESH, events[..|events| - 1]), events[|events| - 1]);
    }
  }

  /** At the shipped constants: between thirty seconds and five minutes, and never forgotten
      while it lasts. */
  lemma DefaultCooldowns(events: seq<Event>)
    requires Ordered(events)
    ensures var cell := Run(DEFAULTS, FRESH, events);
      !StateOf(cell.hash).Closed? ==>
        30.0 <= CooldownOf(DEFAULTS, cell.hash) <= 300.0 && Deadline(DEFAULTS, cell.hash) < cell.expiresAt
  {
    assert DEFAULTS.Sane();
    ReachableInv(DEFAULTS, events);
  }

  // ----- asking ----------------------------------------------------------------

  /** An ask is admitted exactly when the breaker is closed or past its deadline: never
      forgotten early, never held shut by a holder that died. A refusal's retry hint is the
      time left until that deadline. */
  lemma AskAdmitsIff(cfg: Config, cell: Cell, now: real, who: string)
    requires cfg.Sane() && Inv(cfg, cell)
    ensures var d := Ask(cfg, cell, now, who).1;
      && (d.allowed <==> StateOf(cell.hash).Closed? || now >= Deadline(cfg, cell.hash))
      && (!d.allowed ==> d.retryAfter == Some(Deadline(cfg, cell.hash) - now) && Ask(cfg, cell, now, who).0 == cell)
      && (d.isProbe ==> Deadline(cfg, Ask(cfg, cell, now, who).0.hash) == now + CooldownOf(cfg, cell.hash))
  {
  }

  /** Asks only: who was let through. */
  function Answers(cfg: Config, cell: Cell, asks: seq<(real, string)>): seq<bool>
    decreases |asks|
  {
    if asks == [] then []
    else
      var (cell', d) := Ask(cfg, cell, asks[0].0, asks[0].1);
      [d.allowed] + Answers(cfg, cell', asks[1..])
  }

  /** Before the deadline every ask is refused, however many there are. */
  lemma {:induction false} RefusedUntilDeadline(cfg: Config, cell: Cell, asks: seq<(real, string)>)
    requires cfg.Sane() && Inv(cfg, cell) && !StateOf(cell.hash).Closed?
    requires forall i :: 0 <= i < |asks| ==> asks[i].0 < Deadline(cfg, cell.hash)
    ensures |Answers(cfg, cell, asks)| == |asks|
    ensures forall i :: 0 <= i < |asks| ==> !Answers(cfg, cell, asks)[i]
    decreases |asks|
  {
    if asks != [] {
      AskAdmitsIff(cfg, cell, asks[0].0, asks[0].1);
      RefusedUntilDeadline(cfg, cell, asks[1..]);
    }
  }

  /** Once a probe is granted, no other ask is admitted for one full stored cooldown unless
      an outcome is recorded in between. */
  lemma OneProbePerLease(cfg: Config, events: seq<Event>, now: real, who: string, asks: seq<(real, string)>)
    requires cfg.Sane() && Ordered(events + [Asked(now, who)])
    requires Ask(cfg, Run(cfg, FRESH, events), now, who).1.isProbe
    requires forall i :: 0 <= i < |asks| ==>
      asks[i].0 < now + CooldownOf(cfg, Run(cfg, FRESH, events).hash)
    ensures var cell := Ask(cfg, Run(cfg, FRESH, events), now, who).0;
      && |Answers(cfg, cell, asks)| == |asks|
      && forall i :: 0 <= i < |asks| ==> !Answers(cfg, cell, asks)[i]
  {
    var before := Run(cfg, FRESH, events);
    forall i, j | 0 <= i < j < |events| ensures events[i].now <= events[j].now {
      assert (events + [Asked(now, who)])[i].now <= (events + [Asked(now, who)])[j].now;
    }
    if events != [] {
      assert (events + [Asked(now, who)])[|events| - 1].now <= (events + [Asked(now, who)])[|events|].now;
    }
    ReachableInv(cfg, events);
    AskAdmitsIff(cfg, before, now, who);
    StepInv(cfg, before, Asked(now, who));
    RefusedUntilDeadline(cfg, Ask(cfg, before, now, who).0, asks);
  }

  // ----- how long an opening lasts -----------------------------------------------

  /** From this cell on, asks are refused before the instant and admitted from it. */
  ghost predicate ShutUntil(cfg: Config, cell: Cell, until: real) {
    forall t, who :: Ask(cfg, cell, t, who).1.allowed <==> t >= until
  }

  /** The provider's hint is honoured: a rate limit that names a delay shuts the breaker for
      exactly that long, but never for less than the initial cooldown nor more than the
      maximum - whether it opens a closed breaker or fails a probe. */
  lemma HintIsHonoured(cfg: Config, cell: Cell, now: real, d: Decision, x: real)
    requires cfg.Sane() && Inv(cfg, cell) && !d.degraded
    ensures ShutUntil(cfg, Failure(cfg, cell, now, d, RateLimited(Some(x))),
                      now + if x < cfg.initial then cfg.initial else if x > cfg.maximum then cfg.maximum else x)
  {
    var after := Failure(cfg, cell, now, d, RateLimited(Some(x)));
    var wait := if x < cfg.initial then cfg.initial else if x > cfg.maximum then cfg.maximum else x;
    assert !StateOf(after.hash).Closed? && OpenedAt(after.hash) == now && after.hash.cooldown == Some(wait);
    ShutByDeadline(cfg, after, now + wait);
  }

  /** Without a hint, a failure that is no probe's and opens the breaker shuts it for the
      initial cooldown: the ladder's first rung. */
  lemma OpensAtInitial(cfg: Config, cell: Cell, now: real, d: Decision, e: ProviderError)
    requires cfg.Sane() && Inv(cfg, cell) && !d.degraded && !d.isProbe
    requires e.BreakerEligible() && e.Hint().None?
    requires e.RateLimited? || FailuresOf(Live(cell, now)) + 1 >= cfg.threshold
    ensures var after := Failure(cfg, cell, now, d, e);
      && after.hash.cooldown == Some(cfg.initial) && !StateOf(after.hash).Closed?
      && ShutUntil(cfg, after, now + cfg.initial)
  {
    ShutByDeadline(cfg, Failure(cfg, cell, now, d, e), now + cfg.initial);
  }

  /** Without a hint, a failed probe shuts it for the last cooldown times the factor, capped. */
  lemma ReopensHigher(cfg: Config, cell: Cell, now: real, d: Decision, e: ProviderError)
    requires cfg.Sane() && Inv(cfg, cell) && !d.degraded && d.isProbe && now < cell.expiresAt
    requires e.BreakerEligible() && e.Hint().None? && cell.hash.cooldown.Some?
    ensures var next := cell.hash.cooldown.value * cfg.factor;
      ShutUntil(cfg, Failure(cfg, cell, now, d, e), now + if next < cfg.maximum then next else cfg.maximum)
  {
    var after, next := Failure(cfg, cell, now, d, e), cell.hash.cooldown.value * cfg.factor;
    assert cell.hash.cooldown.value >= cfg.initial > 0.0;
    Grows(cell.hash.cooldown.value, cfg.factor);
    var wait := NextCooldown(cfg, cell.hash.cooldown, None);
    assert wait == if next < cfg.maximum then next else cfg.maximum;
    hide NextCooldown;
    assert Live(cell, now).cooldown == cell.hash.cooldown;
    assert after.hash.cooldown == Some(wait);
    ShutByDeadline(cfg, after, now + wait);
  }

  /** A success closes a probed breaker for everyone, and resets the streak and the ladder. */
  lemma SuccessCloses(cfg: Config, cell: Cell, now: real, d: Decision, t: real, who: string)
    requires cfg.Sane() && Inv(cfg, cell) && !d.degraded && d.isProbe
    ensures var after := Success(cfg, cell, now, d);
      && Ask(cfg, after, t, who) == (after, Decision(true, Closed, false, 0, None, false))
      && after.hash.holder.None?
  {
  }

  lemma ShutByDeadline(cfg: Config, cell: Cell, until: real)
    requires cfg.Sane() && !StateOf(cell.hash).Closed? && Deadline(cfg, cell.hash) == until < cell.expiresAt
    ensures ShutUntil(cfg, cell, until)
  {
  }

  // ----- sequential runs -------------------------------------------------------

  datatype Outcome = Answered | Erred(error: ProviderError)

  /** One attempt: ask, and if admitted report before anyone else asks. */
  datatype Attempt = Attempt(askAt: real, reportAt: real, who: string, outcome: Outcome)

  function Report(cfg: Config, cell: Cell, a: Attempt, d: Decision): Cell {
    match a.outcome
    case Answered => Success(cfg, cell, a.reportAt, d)
    case Erred(e) => Failure(cfg, cell, a.reportAt, d, e)
  }

  function Try(cfg: Config, cell: Cell, a: Attempt): Cell {
    var (asked, d) := Ask(cfg, cell, a.askAt, a.who);
    if d.allowed then Report(cfg, asked, a, d) else asked
  }

  function TryAll(cfg: Config, cell: Cell, attempts: seq<Attempt>): Cell {
    if attempts == [] then cell
    else Try(cfg, TryAll(cfg, cell, attempts[..|attempts| - 1]), attempts[|attempts| - 1])
  }

  /** The outcomes of the attempts that were admitted, in order. */
  function Trace(cfg: Config, cell: Cell, attempts: seq<Attempt>): seq<Outcome> {
    if attempts == [] then []
    else
      var a := attempts[|attempts| - 1];
      var earlier := attempts[..|attempts| - 1];
      Trace(cfg, cell, earlier) +
      if Ask(cfg, TryAll(cfg, cell, earlier), a.askAt, a.who).1.allowed then [a.outcome] else []
  }

  /** The key is still there whenever it is read. */
  predicate KeptAlive(cfg: Config, cell: Cell, a: Attempt) {
    var asked := Ask(cfg, cell, a.askAt, a.who).0;
    && (cell.hash == ABSENT || a.askAt < cell.expiresAt)
    && (asked.hash == ABSENT || a.reportAt < asked.expiresAt)
  }

  predicate NoExpiry(cfg: Config, cell: Cell, attempts: seq<Attempt>) {
    attempts == [] ||
    (NoExpiry(cfg, cell, attempts[..|attempts| - 1]) &&
     KeptAlive(cfg, TryAll(cfg, cell, attempts[..|attempts| - 1]), attempts[|attempts| - 1]))
  }

  /** Breaker-eligible failures since the last success; other errors do not count. */
  function Streak(trace: seq<Outcome>): nat {
    if trace == [] then 0
    else
      match trace[|trace| - 1]
      case Answered => 0
      case Erred(e) => Streak(trace[..|trace| - 1]) + if e.BreakerEligible() then 1 else 0
  }

  lemma StreakSnoc(trace: seq<Outcome>, o: Outcome)
    ensures Streak(trace + [o]) ==
      match o { case Answered => 0 case Erred(e) => Streak(trace) + if e.BreakerEligible() then 1 else 0 }
  {
    assert (trace + [o])[..|trace|] == trace;
  }

  predicate CountsStreak(cfg: Config, cell: Cell, trace: seq<Outcome>) {
    StateOf(cell.hash).Closed? ==> FailuresOf(cell.hash) == Streak(trace) < cfg.threshold
  }

  lemma TryCountsStreak(cfg: Config, cell: Cell, a: Attempt, trace: seq<Outcome>)
    requires cfg.Sane() && CountsStreak(cfg, cell, trace) && KeptAlive(cfg, cell, a)
    ensures var admitted := Ask(cfg, cell, a.askAt, a.who).1.allowed;
      CountsStreak(cfg, Try(cfg, cell, a), if admitted then trace + [a.outcome] else trace)
  {
    StreakSnoc(trace, a.outcome);
  }

  /** In every sequential run, a closed breaker has counted exactly the eligible failures
      since the last success: the reset `record_success` skips changes nothing. */
  lemma {:induction false} ClosedCountsStreak(cfg: Config, attempts: seq<Attempt>)
    requires cfg.Sane() && NoExpiry(cfg, FRESH, attempts)
    ensures CountsStreak(cfg, TryAll(cfg, FRESH, attempts), Trace(cfg, FRESH, attempts))
  {
    if attempts != [] {
      var earlier := attempts[..|attempts| - 1];
      ClosedCountsStreak(cfg, earlier);
      TryCountsStreak(cfg, TryAll(cfg, FRESH, earlier), attempts[|attempts| - 1], Trace(cfg, FRESH, earlier));
      assert Trace(cfg, FRESH, earlier) + [] == Trace(cfg, FRESH, earlier);
    }
  }

  /** A closed breaker opens exactly at the first rate limit or when the streak reaches the
      threshold, and otherwise stays closed. */
  lemma OpensExactly(cfg: Config, attempts: seq<Attempt>, a: Attempt)
    requires cfg.Sane() && NoExpiry(cfg, FRESH, attempts)
    requires KeptAlive(cfg, TryAll(cfg, FRESH, attempts), a)
    requires StateOf(TryAll(cfg, FRESH, attempts).hash).Closed?
    ensures var cell := TryAll(cfg, FRESH, attempts);
      var opens := a.outcome.Erred? &&
        (a.outcome.error.RateLimited? || Streak(Trace(cfg, FRESH, attempts) + [a.outcome]) == cfg.threshold);
      StateOf(Try(cfg, cell, a).hash) == if opens then Open else Closed
  {
    ClosedCountsStreak(cfg, attempts);
    StreakSnoc(Trace(cfg, FRESH, attempts), a.outcome);
  }

  // ----- the cooldown ladder ---------------------------------------------------

  /** The initial cooldown scaled up k times. */
  function Scaled(cfg: Config, k: nat): real {
    if k == 0 then cfg.initial else Scaled(cfg, k - 1) * cfg.factor
  }

  /** The k-th rung: scaled up k times, capped once. */
  function Rung(cfg: Config, k: nat): real {
    MinReal(Scaled(cfg, k), cfg.maximum)
  }

  function Pow(x: real, k: nat): real {
    if k == 0 then 1.0 else Pow(x, k - 1) * x
  }

  /** min(initial * factor^k, maximum). */
  lemma {:induction false} RungClosedForm(cfg: Config, k: nat)
    ensures Scaled(cfg, k) == cfg.initial * Pow(cfg.factor, k)
    ensures Rung(cfg, k) == MinReal(cfg.initial * Pow(cfg.factor, k), cfg.maximum)
  {
    if k > 0 {
      RungClosedForm(cfg, k - 1);
      Regroup(cfg.initial, Pow(cfg.factor, k - 1), cfg.factor);
    }
  }

  lemma Grows(x: real, f: real)
    requires f >= 1.0 && x >= 0.0
    ensures x * f >= x
  {
  }

  lemma CappedScale(x: real, y: real, cap: real, f: real)
    requires y == x * f && f >= 1.0 && x >= 0.0 && cap >= 0.0
    ensures MinReal(MinReal(x, cap) * f, cap) == MinReal(y, cap)
  {
    Grows(x, f);
    Grows(cap, f);
  }

  lemma RungStep(cfg: Config, k: nat)
    requires cfg.Sane()
    ensures MinReal(Rung(cfg, k) * cfg.factor, cfg.maximum) == Rung(cfg, k + 1)
    ensures Rung(cfg, k) >= cfg.initial
  {
    ScaledPositive(cfg, k);
    CappedScale(Scaled(cfg, k), Scaled(cfg, k + 1), cfg.maximum, cfg.factor);
  }

  lemma {:induction false} ScaledPositive(cfg: Config, k: nat)
    requires cfg.Sane()
    ensures Scaled(cfg, k) >= cfg.initial
  {
    if k > 0 {
      ScaledPositive(cfg, k - 1);
      Grows(Scaled(cfg, k - 1), cfg.factor);
    }
  }

  lemma Regroup(a: real, b: real, c: real)
    ensures a * (b * c) == (a * b) * c
  {
  }

  /** Every outcome an eligible failure without a hint. */
  predicate HintFree(attempts: seq<Attempt>) {
    forall i :: 0 <= i < |attempts| ==>
      attempts[i].outcome.Erred? && attempts[i].outcome.error.BreakerEligible() && attempts[i].outcome.error.Hint().None?
  }

  predicate OnRung(cfg: Config, cell: Cell, k: nat) {
    !StateOf(cell.hash).Closed? && cell.hash.cooldown == Some(Rung(cfg, k))
  }

  lemma TryClimbs(cfg: Config, cell: Cell, a: Attempt, k: nat)
    requires cfg.Sane() && OnRung(cfg, cell, k) && KeptAlive(cfg, cell, a) && HintFree([a])
    ensures OnRung(cfg, Try(cfg, cell, a), if Ask(cfg, cell, a.askAt, a.who).1.allowed then k + 1 else k)
  {
    assert [a][0] == a;
    RungStep(cfg, k);
    hide Rung;
    var (asked, d) := Ask(cfg, cell, a.askAt, a.who);
    if d.allowed {
      assert asked.hash.cooldown == Some(Rung(cfg, k));
      assert Live(asked, a.reportAt) == asked.hash;
      assert Try(cfg, cell, a).hash.cooldown == Some(NextCooldown(cfg, Some(Rung(cfg, k)), None));
      assert NextCooldown(cfg, Some(Rung(cfg, k)), None) == Rung(cfg, k + 1);
      assert StateOf(Try(cfg, cell, a).hash) == Open;
      assert OnRung(cfg, Try(cfg, cell, a), k + 1);
    } else {
      assert Try(cfg, cell, a) == cell;
      assert OnRung(cfg, cell, k);
    }
  }

  /** From an opening at the initial cooldown, k failed hint-free probes - however many
      refused asks lie between them - leave min(initial * factor^k, maximum). */
  lemma {:induction false} LadderAfterProbes(cfg: Config, cell: Cell, attempts: seq<Attempt>)
    requires cfg.Sane() && NoExpiry(cfg, cell, attempts) && HintFree(attempts)
    requires !StateOf(cell.hash).Closed? && cell.hash.cooldown == Some(cfg.initial)
    ensures OnRung(cfg, TryAll(cfg, cell, attempts), |Trace(cfg, cell, attempts)|)
  {
    if attempts == [] {
      assert Rung(cfg, 0) == cfg.initial;
    } else {
      var n := |attempts| - 1;
      LadderAfterProbes(cfg, cell, attempts[..n]);
      TryClimbs(cfg, TryAll(cfg, cell, attempts[..n]), attempts[n], |Trace(cfg, cell, attempts[..n])|);
    }
  }

  /** The whole climb: a hint-free opening, then k failed hint-free probes. */
  lemma LadderFromOpening(cfg: Config, cell: Cell, now: real, d: Decision, e: ProviderError, attempts: seq<Attempt>)
    requires cfg.Sane() && Inv(cfg, cell) && !d.degraded && !d.isProbe
    requires e.BreakerEligible() && e.Hint().None?
    requires e.RateLimited? || FailuresOf(Live(cell, now)) + 1 >= cfg.threshold
    requires NoExpiry(cfg, Failure(cfg, cell, now, d, e), attempts) && HintFree(attempts)
    ensures var after := Failure(cfg, cell, now, d, e);
      OnRung(cfg, TryAll(cfg, after, attempts), |Trace(cfg, after, attempts)|)
  {
    OpensAtInitial(cfg, cell, now, d, e);
    LadderAfterProbes(cfg, Failure(cfg, cell, now, d, e), attempts);
  }
}
