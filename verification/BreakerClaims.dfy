/** Asking the breaker command by command: what HSETNX and the lease do and do not exclude when
    many callers' reads and writes interleave (app/routing/circuit_breaker.py). One stretch of
    time in which the key does not expire and no outcome is reported. */
module BreakerClaims {
  import opened Common
  import opened ProviderErrors
  import opened CircuitBreaker
  import opened BreakerTheorems

  /** Where a caller is in `allows` and `_claim_probe`. */
  datatype Phase =
    | Claiming(cooldown: real)   // read the hash past its deadline, HSETNX to come
    | Won                        // took the probe slot, lease write to come
    | Lost(cooldown: real)       // did not, second read to come
    | Stealing                   // found the holder stale, lease write to come
    | Through                    // allowed
    | Refused

  /** The hash and every caller that has started to ask, by request id. */
  datatype Claims = Claims(hash: Hash, phases: map<string, Phase>)

  datatype Command =
    | Read(who: string, now: real)
    | SetNx(who: string, now: real)
    | Reread(who: string, now: real)
    | Lease(who: string, now: real)

  predicate Enabled(s: Claims, c: Command) {
    match c
    case Read(who, _) => who !in s.phases
    case SetNx(who, _) => who in s.phases && s.phases[who].Claiming?
    case Reread(who, _) => who in s.phases && s.phases[who].Lost?
    case Lease(who, _) => who in s.phases && (s.phases[who].Won? || s.phases[who].Stealing?)
  }

  function Do(cfg: Config, s: Claims, c: Command): Claims
    requires Enabled(s, c)
  {
    var h := s.hash;
    match c
    case Read(who, now) =>
      s.(phases := s.phases[who :=
        if StateOf(h).Closed? then Through
        else if now - OpenedAt(h) < CooldownOf(cfg, h) then Refused
        else Claiming(CooldownOf(cfg, h))])
    case SetNx(who, _) =>
      if h.holder.None? then Claims(h.(holder := Some(who)), s.phases[who := Won])
      else s.(phases := s.phases[who := Lost(s.phases[who].cooldown)])
    case Reread(who, now) =>
      s.(phases := s.phases[who := if now - OpenedAt(h) < s.phases[who].cooldown then Refused else Stealing])
    case Lease(who, now) =>
      var leased := h.(state := Some(HalfOpen), openedAt := Some(now));
      Claims(if s.phases[who].Won? then leased else leased.(holder := Some(who)), s.phases[who := Through])
  }

  predicate Legal(cfg: Config, h: Hash, run: seq<Command>)
    decreases |run|, 0
  {
    run == [] || (Legal(cfg, h, run[..|run| - 1]) && Enabled(After(cfg, h, run[..|run| - 1]), run[|run| - 1]))
  }

  /** From a hash nobody is asking about yet. */
  function After(cfg: Config, h: Hash, run: seq<Command>): Claims
    requires Legal(cfg, h, run)
    decreases |run|, 1
  {
    if run == [] then Claims(h, map[])
    else Do(cfg, After(cfg, h, run[..|run| - 1]), run[|run| - 1])
  }

  lemma {:induction false} LegalPrefix(cfg: Config, h: Hash, run: seq<Command>, n: nat)
    requires Legal(cfg, h, run) && n <= |run|
    ensures Legal(cfg, h, run[..n])
    decreases |run|
  {
    if n == |run| {
      assert run[..n] == run;
    } else {
      LegalPrefix(cfg, h, run[..|run| - 1], n);
      assert run[..|run| - 1][..n] == run[..n];
    }
  }

  // ----- one caller alone ----------------------------------------------------------

  /** All of one caller's commands with nobody in between. */
  function AskAlone(cfg: Config, h: Hash, now: real, who: string): Claims {
    var s := Do(cfg, Claims(h, map[]), Read(who, now));
    if !s.phases[who].Claiming? then s
    else
      var t := Do(cfg, s, SetNx(who, now));
      if t.phases[who].Won? then Do(cfg, t, Lease(who, now))
      else
        var u := Do(cfg, t, Reread(who, now));
        if u.phases[who].Stealing? then Do(cfg, u, Lease(who, now)) else u
  }

  /** The atomic ask is exactly what the commands do when they are not interleaved. */
  lemma AloneIsAtomic(cfg: Config, cell: Cell, now: real, who: string)
    requires now < cell.expiresAt
    ensures var s := AskAlone(cfg, cell.hash, now, who);
      && s.hash == Ask(cfg, cell, now, who).0.hash
      && (s.phases[who] == if Ask(cfg, cell, now, who).1.allowed then Through else Refused)
  {
  }

  // ----- what every interleaving keeps ---------------------------------------------

  /** Not closed, the cooldown untouched, and every caller working with that cooldown. */
  ghost predicate Steady(cfg: Config, h: Hash, s: Claims) {
    && !StateOf(s.hash).Closed? && s.hash.cooldown == h.cooldown
    && forall who :: who in s.phases ==> (
         && (s.phases[who].Claiming? ==> s.phases[who].cooldown == CooldownOf(cfg, h))
         && (s.phases[who].Lost? ==> s.phases[who].cooldown == CooldownOf(cfg, h)))
  }

  lemma {:induction false} StaysSteady(cfg: Config, h: Hash, run: seq<Command>)
    requires Legal(cfg, h, run) && !StateOf(h).Closed?
    ensures Steady(cfg, h, After(cfg, h, run))
  {
    if run != [] {
      StaysSteady(cfg, h, run[..|run| - 1]);
    }
  }

  /** The instant of the last lease write, or of the opening before them all. */
  function LastOpening(h: Hash, run: seq<Command>): real {
    if run == [] then OpenedAt(h)
    else if run[|run| - 1].Lease? then run[|run| - 1].now
    else LastOpening(h, run[..|run| - 1])
  }

  lemma {:induction false} OpenedByLastLease(cfg: Config, h: Hash, run: seq<Command>)
    requires Legal(cfg, h, run)
    ensures OpenedAt(After(cfg, h, run).hash) == LastOpening(h, run)
  {
    if run != [] {
      OpenedByLastLease(cfg, h, run[..|run| - 1]);
    }
  }

  predicate InOrder(run: seq<Command>) {
    forall i, j :: 0 <= i < j < |run| ==> run[i].now <= run[j].now
  }

  /** No lease among these commands is younger than one cooldown at `now`. */
  predicate NoYoungLease(run: seq<Command>, cooldown: real, now: real) {
    forall m :: 0 <= m < |run| && run[m].Lease? ==> now - run[m].now >= cooldown
  }

  lemma {:induction false} YoungestIsLast(h: Hash, run: seq<Command>, cooldown: real, now: real)
    requires InOrder(run) && now - OpenedAt(h) >= cooldown
    ensures now - LastOpening(h, run) >= cooldown <==> NoYoungLease(run, cooldown, now)
  {
    if run != [] {
      var n := |run| - 1;
      YoungestIsLast(h, run[..n], cooldown, now);
      assert run[..n] + [run[n]] == run;
      if run[n].Lease? {
        if now - run[n].now >= cooldown {
          forall m | 0 <= m < |run| && run[m].Lease? ensures now - run[m].now >= cooldown {
            assert m < n ==> run[m].now <= run[n].now;
          }
        }
      } else {
        assert NoYoungLease(run[..n], cooldown, now) ==> NoYoungLease(run, cooldown, now);
        assert NoYoungLease(run, cooldown, now) ==> forall m :: 0 <= m < n ==> run[..n][m] == run[m];
      }
    }
  }

  /** For every interleaving from a breaker past its deadline: a caller's first read gets it to
      the claim, and the second read of one that lost the HSETNX lets it through, exactly when
      no lease was written within one cooldown before that read. */
  lemma ReadPassesIff(cfg: Config, h: Hash, run: seq<Command>, j: nat)
    requires Legal(cfg, h, run) && InOrder(run) && !StateOf(h).Closed? && j < |run|
    requires run[j].now >= OpenedAt(h) + CooldownOf(cfg, h) && (run[j].Read? || run[j].Reread?)
    ensures Legal(cfg, h, run[..j + 1]) && run[j].who in After(cfg, h, run[..j + 1]).phases
    ensures var phase := After(cfg, h, run[..j + 1]).phases[run[j].who];
      && phase == (if !NoYoungLease(run[..j], CooldownOf(cfg, h), run[j].now) then Refused
                   else if run[j].Read? then Claiming(CooldownOf(cfg, h)) else Stealing)
  {
    LegalPrefix(cfg, h, run, j + 1);
    assert run[..j + 1][..j] == run[..j];
    StaysSteady(cfg, h, run[..j]);
    OpenedByLastLease(cfg, h, run[..j]);
    YoungestIsLast(h, run[..j], CooldownOf(cfg, h), run[j].now);
  }

  /** Step i took the probe slot. */
  ghost predicate Takes(cfg: Config, h: Hash, run: seq<Command>, i: nat) {
    && i < |run| && run[i].SetNx? && Legal(cfg, h, run[..i])
    && After(cfg, h, run[..i]).hash.holder.None?
  }

  /** Nothing in the stretch empties the slot again. */
  lemma {:induction false} SlotStaysTaken(cfg: Config, h: Hash, run: seq<Command>, i: nat, n: nat)
    requires Legal(cfg, h, run) && i < n <= |run| && Takes(cfg, h, run, i)
    ensures Legal(cfg, h, run[..n]) && After(cfg, h, run[..n]).hash.holder.Some?
    decreases n
  {
    LegalPrefix(cfg, h, run, n);
    assert run[..n][..n - 1] == run[..n - 1];
    if i < n - 1 {
      SlotStaysTaken(cfg, h, run, i, n - 1);
    }
  }

  /** What HSETNX does exclude: at most one caller takes the slot, in any interleaving. */
  lemma OneTakesTheSlot(cfg: Config, h: Hash, run: seq<Command>, i: nat, j: nat)
    requires Legal(cfg, h, run) && Takes(cfg, h, run, i) && Takes(cfg, h, run, j)
    ensures i == j
  {
    if i < j {
      SlotStaysTaken(cfg, h, run, i, j);
    } else if j < i {
      SlotStaysTaken(cfg, h, run, j, i);
    }
  }

  // ----- what HSETNX does not exclude ------------------------------------------------

  lemma OneMore(cfg: Config, h: Hash, run: seq<Command>, c: Command)
    requires Legal(cfg, h, run) && Enabled(After(cfg, h, run), c)
    ensures Legal(cfg, h, run + [c]) && After(cfg, h, run + [c]) == Do(cfg, After(cfg, h, run), c)
  {
    assert (run + [c])[..|run + [c]| - 1] == run;
  }

  /** The i-th of the callers has been let through to its lease write, and nobody has written. */
  ghost predicate Gathered(h: Hash, s: Claims, names: seq<string>, n: nat) {
    && n <= |names| && s.hash == h.(holder := s.hash.holder) && (n > 0 ==> s.hash.holder.Some?)
    && (forall i :: 0 <= i < n ==> names[i] in s.phases && (s.phases[names[i]].Won? || s.phases[names[i]].Stealing?))
    && (forall i :: n <= i < |names| ==> names[i] !in s.phases)
  }

  /** One more caller reads, loses or wins the slot, and still sees the old opening. */
  lemma Gather(cfg: Config, h: Hash, run: seq<Command>, names: seq<string>, n: nat, now: real) returns (more: seq<Command>)
    requires Legal(cfg, h, run) && Distinct(names) && n < |names|
    requires !StateOf(h).Closed? && now >= OpenedAt(h) + CooldownOf(cfg, h)
    requires Gathered(h, After(cfg, h, run), names, n)
    ensures Legal(cfg, h, more) && Gathered(h, After(cfg, h, more), names, n + 1)
    ensures (forall c :: c in run ==> c.now == now) ==> forall c :: c in more ==> c.now == now
  {
    hide After;
    hide Legal;
    var who, s := names[n], After(cfg, h, run);
    OneMore(cfg, h, run, Read(who, now));
    more := run + [Read(who, now)];
    OneMore(cfg, h, more, SetNx(who, now));
    more := more + [SetNx(who, now)];
    if s.hash.holder.Some? {
      OneMore(cfg, h, more, Reread(who, now));
      more := more + [Reread(who, now)];
    }
    GatheredMore(h, s, After(cfg, h, more), names, n);
  }

  lemma GatheredMore(h: Hash, s: Claims, t: Claims, names: seq<string>, n: nat)
    requires Distinct(names) && n < |names| && Gathered(h, s, names, n)
    requires t.hash == s.hash.(holder := t.hash.holder) && t.hash.holder.Some?
    requires names[n] in t.phases && (t.phases[names[n]].Won? || t.phases[names[n]].Stealing?)
    requires forall who :: who != names[n] ==> (who in t.phases <==> who in s.phases)
    requires forall who :: who != names[n] && who in s.phases ==> t.phases[who] == s.phases[who]
    ensures Gathered(h, t, names, n + 1)
  {
  }

  /** The first n of the callers have written their leases, the others are about to. */
  ghost predicate Written(s: Claims, names: seq<string>, n: nat) {
    && n <= |names|
    && (forall i :: 0 <= i < n ==> names[i] in s.phases && s.phases[names[i]].Through?)
    && (forall i :: n <= i < |names| ==> names[i] in s.phases && (s.phases[names[i]].Won? || s.phases[names[i]].Stealing?))
  }

  lemma {:induction false} GatherAll(cfg: Config, h: Hash, names: seq<string>, n: nat, now: real) returns (run: seq<Command>)
    requires Distinct(names) && n <= |names| && !StateOf(h).Closed? && now >= OpenedAt(h) + CooldownOf(cfg, h)
    ensures Legal(cfg, h, run) && Gathered(h, After(cfg, h, run), names, n)
    ensures forall c :: c in run ==> c.now == now
  {
    if n == 0 {
      run := [];
    } else {
      run := GatherAll(cfg, h, names, n - 1, now);
      run := Gather(cfg, h, run, names, n - 1, now);
    }
  }

  lemma {:induction false} WriteAll(cfg: Config, h: Hash, gathered: seq<Command>, names: seq<string>, n: nat, now: real)
    returns (run: seq<Command>)
    requires Legal(cfg, h, gathered) && Distinct(names) && n <= |names| && Written(After(cfg, h, gathered), names, 0)
    requires forall c :: c in gathered ==> c.now == now
    ensures Legal(cfg, h, run) && Written(After(cfg, h, run), names, n)
    ensures forall c :: c in run ==> c.now == now
  {
    if n == 0 {
      run := gathered;
    } else {
      run := WriteAll(cfg, h, gathered, names, n - 1, now);
      OneMore(cfg, h, run, Lease(names[n - 1], now));
      run := run + [Lease(names[n - 1], now)];
    }
  }

  /** From any breaker past its deadline, held or not, any number of callers can be let through
      at one instant. */
  lemma AnyNumberThrough(cfg: Config, h: Hash, names: seq<string>, now: real) returns (run: seq<Command>)
    requires Distinct(names) && !StateOf(h).Closed? && now >= OpenedAt(h) + CooldownOf(cfg, h)
    ensures Legal(cfg, h, run) && forall c :: c in run ==> c.now == now
    ensures forall i :: 0 <= i < |names| ==>
      names[i] in After(cfg, h, run).phases && After(cfg, h, run).phases[names[i]] == Through
  {
    run := GatherAll(cfg, h, names, |names|, now);
    run := WriteAll(cfg, h, run, names, |names|, now);
  }

  /** And such a breaker is reachable with its slot free: one rate limit, one cooldown later.
      As single commands the claims of any number of callers all go through; as atomic asks
      the second one is refused. */
  lemma FreshClaimsAllProbe(cfg: Config, names: seq<string>) returns (events: seq<Event>, now: real, run: seq<Command>)
    requires cfg.Sane() && Distinct(names)
    ensures Ordered(events)
    ensures var cell := Run(cfg, FRESH, events);
      && !StateOf(cell.hash).Closed? && cell.hash.holder.None? && Deadline(cfg, cell.hash) <= now < cell.expiresAt
      && Legal(cfg, cell.hash, run) && (forall c :: c in run ==> c.now == now)
      && (forall i :: 0 <= i < |names| ==>
           names[i] in After(cfg, cell.hash, run).phases && After(cfg, cell.hash, run).phases[names[i]] == Through)
      && (forall i, j :: 0 <= i < |names| && 0 <= j < |names| ==>
           !Ask(cfg, Ask(cfg, cell, now, names[i]).0, now, names[j]).1.allowed)
  {
    var d := Decision(true, Closed, false, 0, None, false);
    events := [Failed(0.0, d, RateLimited(None))];
    var cell := Run(cfg, FRESH, events);
    assert events[..0] == [] && Run(cfg, FRESH, events[..0]) == FRESH;
    assert cell == BreakerTheorems.After(cfg, FRESH, events[0]);
    now := cfg.initial;
    run := AnyNumberThrough(cfg, cell.hash, names, now);
  }
}
