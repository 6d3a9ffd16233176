/** The three-state breaker over a shared, expiring Redis hash (app/routing/circuit_breaker.py).
    Each ask and each report is one atomic step, Redis answering; times are reals. */
module CircuitBreaker {
  import opened Common
  import opened ProviderErrors

  const BREAKER_TTL_S := 3600.0

  datatype Config = Config(threshold: int, initial: real, maximum: real, factor: real) {
    /** What the constants satisfy, and what the module's promises rest on. */
    predicate Sane() {
      threshold >= 1 && 0.0 < initial <= maximum < BREAKER_TTL_S && factor >= 1.0
    }
  }

  const DEFAULTS := Config(5, 30.0, 300.0, 2.0)

  datatype BreakerState = Closed | Open | HalfOpen

  /** The hash's five fields. */
  datatype Hash = Hash(
    state: Option<BreakerState>, failures: Option<int>, openedAt: Option<real>,
    cooldown: Option<real>, holder: Option<string>)

  const ABSENT := Hash(None, None, None, None, None)

  /** The key: its hash and the instant it expires. */
  datatype Cell = Cell(hash: Hash, expiresAt: real)

  const FRESH := Cell(ABSENT, 0.0)

  function Live(cell: Cell, now: real): Hash {
    if now < cell.expiresAt then cell.hash else ABSENT
  }

  function StateOf(h: Hash): BreakerState {
    h.state.GetOr(Closed)
  }

  function FailuresOf(h: Hash): int {
    h.failures.GetOr(0)
  }

  function OpenedAt(h: Hash): real {
    h.openedAt.GetOr(0.0)
  }

  /** `_read_float(...) or self._cooldown_initial_s`. */
  function CooldownOf(cfg: Config, h: Hash): real {
    if h.cooldown.GetOr(0.0) == 0.0 then cfg.initial else h.cooldown.value
  }

  /** `_write`: one HSET plus a TTL refresh. */
  function Written(h: Hash, now: real): Cell {
    Cell(h, now + BREAKER_TTL_S)
  }

  datatype Decision = Decision(
    allowed: bool, state: BreakerState, isProbe: bool, failures: int, retryAfter: Option<real>, degraded: bool)

  /** `_next_cooldown`: the provider's hint, floored and capped; else the next rung. */
  function NextCooldown(cfg: Config, previous: Option<real>, hint: Option<real>): real {
    if hint.Some? then MinReal(MaxReal(hint.value, cfg.initial), cfg.maximum)
    else if previous.None? then cfg.initial
    else MinReal(previous.value * cfg.factor, cfg.maximum)
  }

  // ----- the steps -------------------------------------------------------------

  function Denied(h: Hash, cooldown: real, now: real): Decision {
    Decision(false, StateOf(h), false, FailuresOf(h), Some(cooldown - (now - OpenedAt(h))), false)
  }

  function Probe(h: Hash): Decision {
    Decision(true, HalfOpen, true, FailuresOf(h), None, false)
  }

  /** The hash once `who` holds the probe and its lease. */
  function Leased(h: Hash, now: real, who: string): Hash {
    h.(state := Some(HalfOpen), openedAt := Some(now), holder := Some(who))
  }

  /** `allows`, as one step. */
  function Ask(cfg: Config, cell: Cell, now: real, who: string): (Cell, Decision) {
    var h := Live(cell, now);
    if StateOf(h).Closed? then (cell, Decision(true, Closed, false, FailuresOf(h), None, false))
    else if now - OpenedAt(h) < CooldownOf(cfg, h) then (cell, Denied(h, CooldownOf(cfg, h), now))
    else (Written(Leased(h, now, who), now), Probe(h))
  }

  /** `record_success`, as one step. */
  function Success(cfg: Config, cell: Cell, now: real, d: Decision): Cell {
    var h := Live(cell, now);
    if d.degraded then cell
    else if d.isProbe then
      Written(h.(state := Some(Closed), failures := Some(0), cooldown := Some(cfg.initial), holder := None), now)
    else if d.failures != 0 then Written(h.(failures := Some(0)), now)
    else cell
  }

  function Opened(h: Hash, now: real, failures: int, cooldown: real): Hash {
    h.(state := Some(Open), openedAt := Some(now), cooldown := Some(cooldown), failures := Some(failures))
  }

  /** `record_failure`, as one step. */
  function Failure(cfg: Config, cell: Cell, now: real, d: Decision, e: ProviderError): Cell {
    var h := Live(cell, now);
    if d.degraded || !e.BreakerEligible() then cell
    else if d.isProbe then
      var previous := if h.cooldown.GetOr(0.0) == 0.0 then None else h.cooldown;
      Written(Opened(h, now, d.failures, NextCooldown(cfg, previous, e.Hint())).(holder := None), now)
    else
      var failures := FailuresOf(h) + 1;
      if e.RateLimited? || failures >= cfg.threshold then
        Written(Opened(h, now, failures, NextCooldown(cfg, None, e.Hint())), now)
      else
        Written(h.(failures := Some(failures)), now)
  }

  // ----- the object ------------------------------------------------------------

  class CircuitBreaker {
    const cfg: Config
    var cell: Cell

    constructor (cfg: Config)
      ensures this.cfg == cfg && cell == FRESH
    {
      this.cfg := cfg;
      cell := FRESH;
    }

    method Write(h: Hash, now: real)
      modifies this
      ensures cell == Written(h, now)
    {
      cell := Cell(h, now + BREAKER_TTL_S);
    }

    method Allows(now: real, requestId: string) returns (d: Decision)
      modifies this
      ensures (cell, d) == Ask(cfg, old(cell), now, requestId)
    {
      var raw := Live(cell, now);
      var failures := FailuresOf(raw);
      if StateOf(raw).Closed? {
        return Decision(true, Closed, false, failures, None, false);
      }
      var cooldown := CooldownOf(cfg, raw);
      var elapsed := now - OpenedAt(raw);
      if elapsed < cooldown {
        return Decision(false, StateOf(raw), false, failures, Some(cooldown - elapsed), false);
      }
      d := Decision(true, HalfOpen, true, failures, None, false);
      // HSETNX, then the lease; a holder still in the slot is stale here, and is replaced.
      var claimed := raw.holder.None?;
      if claimed {
        cell := cell.(hash := raw.(holder := Some(requestId)));
        Write(cell.hash.(state := Some(HalfOpen), openedAt := Some(now)), now);
      } else {
        Write(raw.(state := Some(HalfOpen), openedAt := Some(now), holder := Some(requestId)), now);
      }
    }

    /** `peek` reports without claiming anything: what is stored as closed is available,
        and anything else is not, whatever the clock says. */
    method Peek(now: real) returns (d: Decision)
      ensures d.allowed <==> StateOf(Live(cell, now)).Closed?
      ensures d.state == StateOf(Live(cell, now)) && !d.isProbe
      ensures !d.allowed ==> d.retryAfter.Some?
      ensures !d.allowed ==>
        (d.retryAfter.value == 0.0 <==> now >= OpenedAt(Live(cell, now)) + CooldownOf(cfg, Live(cell, now)))
    {
      var raw := Live(cell, now);
      if StateOf(raw).Closed? {
        return Decision(true, Closed, false, 0, None, false);
      }
      var remaining := CooldownOf(cfg, raw) - (now - OpenedAt(raw));
      return Decision(false, StateOf(raw), false, FailuresOf(raw), Some(MaxReal(remaining, 0.0)), false);
    }

    method RecordSuccess(d: Decision, now: real)
      modifies this
      ensures cell == Success(cfg, old(cell), now, d)
    {
      if d.degraded {
        return;
      }
      var raw := Live(cell, now);
      if d.isProbe {
        Write(raw.(state := Some(Closed), failures := Some(0), cooldown := Some(cfg.initial)), now);
        cell := cell.(hash := cell.hash.(holder := None));
        return;
      }
      if d.failures != 0 {
        Write(raw.(failures := Some(0)), now);
      }
    }

    method OpenBreaker(h: Hash, failures: int, cooldown: real, now: real)
      modifies this
      ensures cell == Written(Opened(h, now, failures, cooldown), now)
    {
      Write(h.(state := Some(Open), openedAt := Some(now), cooldown := Some(cooldown), failures := Some(failures)), now);
    }

    method RecordFailure(d: Decision, e: ProviderError, now: real)
      modifies this
      ensures cell == Failure(cfg, old(cell), now, d, e)
    {
      if d.degraded || !e.BreakerEligible() {
        return;
      }
      var raw := Live(cell, now);
      if d.isProbe {
        var previous := if raw.cooldown.GetOr(0.0) == 0.0 then None else raw.cooldown;
        OpenBreaker(raw, d.failures, NextCooldown(cfg, previous, e.Hint()), now);
        cell := cell.(hash := cell.hash.(holder := None));
        return;
      }
      var failures := FailuresOf(raw) + 1;
      cell := Cell(raw.(failures := Some(failures)), now + BREAKER_TTL_S);
      if e.RateLimited? || failures >= cfg.threshold {
        OpenBreaker(cell.hash, failures, NextCooldown(cfg, None, e.Hint()), now);
      }
    }
  }
}
