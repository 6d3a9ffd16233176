/** How far a counter can exceed its limit, over every run, window resets included. */
module QuotaBounds {
  import opened Common
  import opened Quota
  import opened QuotaLedger

  /** The largest limit the first n grants used on counter k. */
  function GrantCeiling(grants: seq<Grant>, k: Key, n: nat): (m: int)
    requires n <= |grants|
    ensures m >= 0
    ensures forall i :: 0 <= i < n && grants[i].key == k ==> grants[i].limit <= m
  {
    if n == 0 then 0
    else if grants[n - 1].key == k then Max(GrantCeiling(grants, k, n - 1), grants[n - 1].limit)
    else GrantCeiling(grants, k, n - 1)
  }

  function Ceiling(book: seq<Account>, k: Key): (m: int)
    ensures m >= 0
  {
    if book == [] then 0
    else
      var a := book[|book| - 1];
      Max(Ceiling(book[..|book| - 1], k), GrantCeiling(a.grants, k, |a.grants|))
  }

  /** By how much an account's estimates fell short of its actuals on counter k. */
  function Shortfall(a: Account, k: Key, n: nat): (u: nat)
    requires n <= |a.grants|
  {
    if n == 0 then 0
    else
      var g := a.grants[n - 1];
      Shortfall(a, k, n - 1) +
      if g.key == k && a.status.Committed? && g.window.IsToken() && g.window in a.status.published
      then Max(0, a.status.actual - g.Cost(a.tokens)) else 0
  }

  function Underestimates(book: seq<Account>, k: Key): (u: nat) {
    if book == [] then 0
    else
      var a := book[|book| - 1];
      Underestimates(book[..|book| - 1], k) + Shortfall(a, k, |a.grants|)
  }

  /** What a reservation's first n grants cost on counter k together. */
  function CostOn(grants: seq<Grant>, tokens: int, k: Key, n: nat): int
    requires n <= |grants|
  {
    if n == 0 then 0
    else CostOn(grants, tokens, k, n - 1) + if grants[n - 1].key == k then grants[n - 1].Cost(tokens) else 0
  }

  function LargestOn(grants: seq<Grant>, tokens: int, k: Key, n: nat): (m: int)
    requires n <= |grants|
    ensures m >= 0
    ensures forall i :: 0 <= i < n && grants[i].key == k ==> grants[i].Cost(tokens) <= m
  {
    if n == 0 then 0
    else if grants[n - 1].key == k then Max(LargestOn(grants, tokens, k, n - 1), grants[n - 1].Cost(tokens))
    else LargestOn(grants, tokens, k, n - 1)
  }

  /** By how much windows that share counter k outrun the check, which looks at each alone. */
  function Overlap(grants: seq<Grant>, tokens: int, k: Key): int {
    CostOn(grants, tokens, k, |grants|) - LargestOn(grants, tokens, k, |grants|)
  }

  function Overlaps(book: seq<Account>, k: Key): int {
    if book == [] then 0
    else
      var a := book[|book| - 1];
      Overlaps(book[..|book| - 1], k) + Overlap(a.grants, a.tokens, k)
  }

  /** The bound: limits, what estimates missed, and what shared counters let through. */
  function Allowance(book: seq<Account>, k: Key): int {
    Ceiling(book, k) + Underestimates(book, k) + Overlaps(book, k)
  }

  ghost predicate DistinctKeys(grants: seq<Grant>) {
    forall i, j :: 0 <= i < j < |grants| ==> grants[i].key != grants[j].key
  }

  /** At most one window is on counter k. */
  ghost predicate AloneOn(grants: seq<Grant>, k: Key) {
    forall i, j :: 0 <= i < j < |grants| && grants[i].key == k ==> grants[j].key != k
  }

  ghost predicate Bounded(s: State) {
    forall k :: 0 <= Value(s.counters, k) <= Allowance(s.book, k)
  }

  // ----- bookkeeping -----------------------------------------------------------

  lemma {:induction false} AllowanceUpdate(book: seq<Account>, i: nat, a: Account, k: Key)
    requires i < |book| && a.grants == book[i].grants && a.tokens == book[i].tokens
    ensures Ceiling(book[i := a], k) == Ceiling(book, k) && Overlaps(book[i := a], k) == Overlaps(book, k)
    ensures Underestimates(book[i := a], k) ==
      Underestimates(book, k) - Shortfall(book[i], k, |book[i].grants|) + Shortfall(a, k, |a.grants|)
  {
    hide GrantCeiling;
    hide Overlap;
    hide Shortfall;
    var n := |book| - 1;
    if i == n {
      assert book[i := a][..n] == book[..n];
    } else {
      assert book[i := a][..n] == book[..n][i := a];
      AllowanceUpdate(book[..n], i, a, k);
    }
  }

  lemma {:induction false} NoShortfall(a: Account, k: Key, n: nat)
    requires n <= |a.grants|
    requires !a.status.Committed? || forall i :: 0 <= i < n && a.grants[i].key == k ==> !a.grants[i].window.IsToken()
    ensures Shortfall(a, k, n) == 0
  {
    if n > 0 {
      NoShortfall(a, k, n - 1);
    }
  }

  lemma {:induction false} LiveShare(a: Account, k: Key, n: nat)
    requires n <= |a.grants| && a.status.Live?
    ensures Share(a, k, n) == CostOn(a.grants, a.tokens, k, n)
  {
    if n > 0 {
      LiveShare(a, k, n - 1);
    }
  }

  /** The largest cost on a counter is some grant's, if any grant uses the counter. */
  lemma {:induction false} LargestIsOne(grants: seq<Grant>, tokens: int, k: Key, n: nat) returns (i: nat)
    requires tokens >= 0 && n <= |grants|
    ensures i <= n && (i == n <==> forall j :: 0 <= j < n ==> grants[j].key != k)
    ensures i < n ==> grants[i].key == k && grants[i].Cost(tokens) == LargestOn(grants, tokens, k, n)
    ensures i == n ==> CostOn(grants, tokens, k, n) == LargestOn(grants, tokens, k, n) == 0
    ensures 0 <= LargestOn(grants, tokens, k, n) <= CostOn(grants, tokens, k, n)
  {
    if n == 0 {
      i := 0;
    } else {
      i := LargestIsOne(grants, tokens, k, n - 1);
      if grants[n - 1].key == k && (i == n - 1 || grants[n - 1].Cost(tokens) > grants[i].Cost(tokens)) {
        i := n - 1;
      } else if i == n - 1 {
        i := n;
      }
    }
  }

  /** A window alone on its counter overlaps with nothing. */
  lemma {:induction false} NoOverlap(grants: seq<Grant>, tokens: int, k: Key, n: nat)
    requires tokens >= 0 && n <= |grants| && AloneOn(grants, k)
    ensures (forall j :: 0 <= j < n ==> grants[j].key != k) ==> CostOn(grants, tokens, k, n) == 0
    ensures CostOn(grants, tokens, k, n) == LargestOn(grants, tokens, k, n)
  {
    if n > 0 {
      NoOverlap(grants, tokens, k, n - 1);
      var _ := LargestIsOne(grants, tokens, k, n - 1);
    }
  }

  // ----- the scripts -----------------------------------------------------------

  lemma ReserveBounded(s: State, id: string, grants: seq<Grant>, tokens: int, k: Key)
    requires BookInv(s) && Bounded(s) && tokens >= 0 && Affordable(s.counters, grants, tokens)
    ensures var book := s.book + [Account(id, grants, tokens, Live)];
      0 <= Value(Charge(s.counters, grants, tokens, |grants|), k) <= Allowance(book, k)
  {
    hide CostOn;
    hide LargestOn;
    hide GrantCeiling;
    hide Charge;
    var a := Account(id, grants, tokens, Live);
    assert (s.book + [a])[..|s.book|] == s.book;
    assert 0 <= Value(s.counters, k) <= Allowance(s.book, k);
    ChargeAt(s.counters, a, k, |grants|);
    LiveShare(a, k, |grants|);
    NoShortfall(a, k, |grants|);
    OverlapsNonNegative(s.book, k);
    var i := LargestIsOne(grants, tokens, k, |grants|);
    if i < |grants| {
      assert Value(s.counters, k) + grants[i].Cost(tokens) <= grants[i].limit <= GrantCeiling(grants, k, |grants|);
    }
  }

  lemma {:induction false} RefundBounded(c: Counters, record: Record, r: Reservation, k: Key, n: nat)
    requires n <= |r.windows| == |r.keys| && Value(c, k) >= 0
    ensures 0 <= Value(Refund(c, record, r, n), k) <= Value(c, k)
  {
    if n > 0 {
      RefundBounded(c, record, r, k, n - 1);
    }
  }

  lemma {:induction false} ShortfallOneMore(a: Account, settled: seq<Label>, i: nat, actual: int, k: Key, n: nat)
    requires i < |a.grants| && n <= |a.grants| && a.grants[i].window !in settled && a.grants[i].window.IsToken()
    ensures Shortfall(Partly(a, settled + [a.grants[i].window], actual), k, n) >= Shortfall(Partly(a, settled, actual), k, n)
      + if i < n && a.grants[i].key == k then Max(0, actual - a.Cost(i)) else 0
  {
    if n > 0 {
      ShortfallOneMore(a, settled, i, actual, k, n - 1);
    }
  }

  lemma {:induction false} PickedShortfall(a: Account, published: set<Label>, actual: int, k: Key, n: nat)
    requires n <= |a.grants|
    ensures Shortfall(Partly(a, Settled(published, a.Receipt()), actual), k, n)
      == Shortfall(a.(status := Committed(published, actual)), k, n)
  {
    hide Settled;
    if n > 0 {
      PickedShortfall(a, published, actual, k, n - 1);
      assert a.Receipt().windows[n - 1] == a.grants[n - 1].window;
      SettledExactly(published, a.Receipt(), a.grants[n - 1].window);
    }
  }

  /** Each settled window raises its own counter by at most what the estimate missed. */
  lemma {:induction false} SettleBounded(c: Counters, a: Account, settled: seq<Label>, actual: int, k: Key, n: nat)
    requires WellFormed(a) && n <= |settled| && Distinct(settled) && Value(c, k) >= 0
    requires forall j :: 0 <= j < |settled| ==> settled[j] in a.Receipt().windows && settled[j].IsToken()
    ensures 0 <= Value(Settle(c, Note(map[], a.grants, a.tokens, |a.grants|), a.Receipt(), settled, actual, n), k)
      <= Value(c, k) + Shortfall(Partly(a, settled[..n], actual), k, |a.grants|)
    decreases n
  {
    hide Note;
    hide KeyFor;
    hide Correct;
    hide Shortfall;
    hide Found;
    if n > 0 {
      var l, r := settled[n - 1], a.Receipt();
      var i := FoundFor(a, l);
      SettleBounded(c, a, settled, actual, k, n - 1);
      NoteAt(a.grants, a.tokens, |a.grants|, i);
      ShortfallOneMore(a, settled[..n - 1], i, actual, k, |a.grants|);
      assert settled[..n] == settled[..n - 1] + [l];
      var record := Note(map[], a.grants, a.tokens, |a.grants|);
      CorrectAt(Settle(c, record, r, settled, actual, n - 1), a.grants[i].key, actual - Reserved(record, l), k);
    }
  }

  lemma {:induction false} OverlapsNonNegative(book: seq<Account>, k: Key)
    requires forall i :: 0 <= i < |book| ==> WellFormed(book[i])
    ensures Overlaps(book, k) >= 0
  {
    if book != [] {
      var n := |book| - 1;
      OverlapsNonNegative(book[..n], k);
      var _ := LargestIsOne(book[n].grants, book[n].tokens, k, |book[n].grants|);
    }
  }

  lemma CloseBounded(s: State, i: nat, counters: Counters, status: Status, k: Key)
    requires Bounded(s) && i < |s.book| && s.book[i].status.Live?
    requires var a := s.book[i].(status := status);
      0 <= Value(counters, k) <= Value(s.counters, k) + Shortfall(a, k, |a.grants|)
    ensures var s' := Close(s, i, counters, status);
      0 <= Value(s'.counters, k) <= Allowance(s'.book, k)
  {
    assert 0 <= Value(s.counters, k) <= Allowance(s.book, k);
    AllowanceUpdate(s.book, i, s.book[i].(status := status), k);
    NoShortfall(s.book[i], k, |s.book[i].grants|);
  }

  lemma StepBounded(s: State, step: Step, k: Key)
    requires BookInv(s) && Bounded(s) && Legal(s, step)
    ensures var s' := Apply(s, step);
      0 <= Value(s'.counters, k) <= Allowance(s'.book, k)
  {
    assert 0 <= Value(s.counters, k) <= Allowance(s.book, k);
    OverlapsNonNegative(s.book, k);
    assert Allowance(s.book, k) >= 0;
    hide Note;
    hide Settle;
    hide Refund;
    hide Charge;
    hide Allowance;
    match step
    case Reserve(id, grants, tokens) =>
      if Affordable(s.counters, grants, tokens) {
        ReserveBounded(s, id, grants, tokens, k);
      }
    case Commit(i, published, actual) =>
      var a := s.book[i];
      if a.id in s.reservations {
        var settled := Settled(published, a.Receipt());
        SettleBounded(s.counters, a, settled, actual, k, |settled|);
        assert settled[..|settled|] == settled;
        PickedShortfall(a, published, actual, k, |a.grants|);
        CloseBounded(s, i, Apply(s, step).counters, Committed(published, actual), k);
      }
    case Release(i) =>
      var a := s.book[i];
      if a.id in s.reservations {
        RefundBounded(s.counters, s.reservations[a.id], a.Receipt(), k, |a.grants|);
        CloseBounded(s, i, Apply(s, step).counters, Released, k);
      }
    case Lapse(i) =>
      if s.book[i].id in s.reservations {
        CloseBounded(s, i, s.counters, Lapsed, k);
      }
    case ExpireCounter(_) =>
  }

  lemma {:induction false} RunBounded(s: State, run: seq<Step>)
    requires BookInv(s) && Bounded(s) && Possible(s, run)
    ensures BookInv(After(s, run)) && Bounded(After(s, run))
    decreases |run|
  {
    if run != [] {
      StepBook(s, run[0]);
      forall k ensures 0 <= Value(Apply(s, run[0]).counters, k) <= Allowance(Apply(s, run[0]).book, k) {
        StepBounded(s, run[0], k);
      }
      RunBounded(Apply(s, run[0]), run[1..]);
    }
  }

  lemma {:induction false} NoUnderestimates(book: seq<Account>, k: Key)
    requires forall i :: 0 <= i < |book| ==> WellFormed(book[i]) && RequestsOnly(book[i].grants, k)
    ensures Underestimates(book, k) == 0
  {
    if book != [] {
      var n := |book| - 1;
      NoUnderestimates(book[..n], k);
      NoShortfall(book[n], k, |book[n].grants|);
    }
  }

  lemma {:induction false} NoOverlaps(book: seq<Account>, k: Key)
    requires forall i :: 0 <= i < |book| ==> WellFormed(book[i]) && AloneOn(book[i].grants, k)
    ensures Overlaps(book, k) == 0
  {
    if book != [] {
      var n := |book| - 1;
      NoOverlaps(book[..n], k);
      NoOverlap(book[n].grants, book[n].tokens, k, |book[n].grants|);
    }
  }

  /** Counter k counts requests, not tokens. */
  ghost predicate RequestsOnly(grants: seq<Grant>, k: Key) {
    forall j :: 0 <= j < |grants| && grants[j].key == k ==> !grants[j].window.IsToken()
  }

  /** Over every run, whatever the grants, window resets and lapsed reservations included: a
      counter is never negative, and exceeds the largest limit used on it by at most what
      estimates missed plus what windows sharing the counter let through. A counter of
      requests has no first part, and one that no reservation uses twice no second. */
  lemma OverspendIsBounded(run: seq<Step>, k: Key)
    requires Possible(Empty, run)
    ensures var s := After(Empty, run);
      && 0 <= Value(s.counters, k) <= Ceiling(s.book, k) + Underestimates(s.book, k) + Overlaps(s.book, k)
      && ((forall i :: 0 <= i < |s.book| ==> RequestsOnly(s.book[i].grants, k)) ==> Underestimates(s.book, k) == 0)
      && ((forall i :: 0 <= i < |s.book| ==> AloneOn(s.book[i].grants, k)) ==> Overlaps(s.book, k) == 0)
  {
    RunBounded(Empty, run);
    var s := After(Empty, run);
    hide After;
    assert 0 <= Value(s.counters, k) <= Allowance(s.book, k);
    if forall i :: 0 <= i < |s.book| ==> RequestsOnly(s.book[i].grants, k) {
      NoUnderestimates(s.book, k);
    }
    if forall i :: 0 <= i < |s.book| ==> AloneOn(s.book[i].grants, k) {
      NoOverlaps(s.book, k);
    }
  }

  // ----- never above the ledger ----------------------------------------------------

  /** A release takes at least the costs it finds off a counter, down to zero. */
  lemma {:induction false} RefundBelow(c: Counters, a: Account, k: Key, n: nat)
    requires WellFormed(a) && a.status.Live? && n <= |a.grants| && Value(c, k) >= 0
    ensures 0 <= Value(Refund(c, Note(map[], a.grants, a.tokens, |a.grants|), a.Receipt(), n), k)
      <= Max(0, Value(c, k) - Share(a, k, n) + Share(Freed(a), k, n))
    decreases n
  {
    hide Note;
    hide KeyFor;
    if n > 0 {
      var record, r := Note(map[], a.grants, a.tokens, |a.grants|), a.Receipt();
      RefundBelow(c, a, k, n - 1);
      assert r.windows[n - 1] in r.windows;
      var m := FoundFor(a, r.windows[n - 1]);
      NoteAt(a.grants, a.tokens, |a.grants|, n - 1);
      assert Found(a.grants, n - 1) ==> m == n - 1;
      hide Found;
      GiveBackAt(Refund(c, record, r, n - 1), a.grants[m].key, Reserved(record, r.windows[n - 1]), k);
    }
  }

  /** A commit leaves a counter of requests alone. */
  lemma {:induction false} SettleElsewhere(c: Counters, a: Account, settled: seq<Label>, actual: int, k: Key, n: nat)
    requires n <= |settled| && RequestsOnly(a.grants, k)
    requires forall j :: 0 <= j < |settled| ==> settled[j] in a.Receipt().windows && settled[j].IsToken()
    ensures Value(Settle(c, Note(map[], a.grants, a.tokens, |a.grants|), a.Receipt(), settled, actual, n), k) == Value(c, k)
  {
    hide Note;
    hide KeyFor;
    if n > 0 {
      SettleElsewhere(c, a, settled, actual, k, n - 1);
      var i := FoundFor(a, settled[n - 1]);
      assert a.grants[i].key != k;
    }
  }

  ghost predicate Below(s: State, k: Key) {
    && 0 <= Value(s.counters, k) <= Total(s.book, k)
    && forall i :: 0 <= i < |s.book| ==> RequestsOnly(s.book[i].grants, k)
  }

  lemma CommitBelow(s: State, i: nat, published: set<Label>, actual: int, k: Key)
    requires BookInv(s) && Below(s, k) && i < |s.book| && s.book[i].id in s.reservations && actual >= 0
    ensures Below(Apply(s, Commit(i, published, actual)), k)
  {
    hide Settle;
    hide Note;
    hide Settled;
    var a := s.book[i];
    var settled := Settled(published, a.Receipt());
    SettleElsewhere(s.counters, a, settled, actual, k, |settled|);
    TotalUpdate(s.book, i, a.(status := Committed(published, actual)), k);
    SameOn(a, a.(status := Committed(published, actual)), k, |a.grants|);
  }

  lemma ReleaseBelow(s: State, i: nat, k: Key)
    requires BookInv(s) && Below(s, k) && i < |s.book| && s.book[i].id in s.reservations
    ensures Below(Apply(s, Release(i)), k)
  {
    hide Refund;
    hide Note;
    hide Share;
    var a := s.book[i];
    RefundBelow(s.counters, a, k, |a.grants|);
    TotalUpdate(s.book, i, Freed(a), k);
    TotalNonNegative(s.book[i := Freed(a)], k);
  }

  lemma ReserveBelow(s: State, id: string, grants: seq<Grant>, tokens: int, k: Key)
    requires Below(s, k) && Legal(s, Reserve(id, grants, tokens)) && RequestsOnly(grants, k)
    ensures Below(Apply(s, Reserve(id, grants, tokens)), k)
  {
    hide Charge;
    hide Note;
    hide Affordable;
    hide RequestsOnly;
    var a := Account(id, grants, tokens, Live);
    TotalSnoc(s.book, a, k);
    hide Total;
    hide Share;
    ChargeAt(s.counters, a, k, |grants|);
    ShareNonNegative(a, k, |grants|);
  }

  lemma LapseBelow(s: State, i: nat, k: Key)
    requires Below(s, k) && i < |s.book| && s.book[i].id in s.reservations && BookInv(s)
    ensures Below(Apply(s, Lapse(i)), k)
  {
    hide Note;
    hide Share;
    hide RequestsOnly;
    var a := s.book[i];
    TotalUpdate(s.book, i, a.(status := Lapsed), k);
    SameOn(a, a.(status := Lapsed), k, |a.grants|);
  }

  lemma StepBelow(s: State, step: Step, k: Key)
    requires BookInv(s) && Below(s, k) && Legal(s, step)
    requires step.Reserve? ==> RequestsOnly(step.grants, k)
    ensures Below(Apply(s, step), k)
  {
    match step
    case Reserve(id, grants, tokens) => ReserveBelow(s, id, grants, tokens, k);
    case Commit(i, published, actual) =>
      if s.book[i].id in s.reservations {
        CommitBelow(s, i, published, actual, k);
      }
    case Release(i) =>
      if s.book[i].id in s.reservations {
        ReleaseBelow(s, i, k);
      }
    case Lapse(i) =>
      if s.book[i].id in s.reservations {
        LapseBelow(s, i, k);
      }
    case ExpireCounter(_) =>
  }

  lemma {:induction false} RunBelow(s: State, run: seq<Step>, k: Key)
    requires BookInv(s) && Below(s, k) && Possible(s, run)
    requires forall i :: 0 <= i < |run| && run[i].Reserve? ==> RequestsOnly(run[i].grants, k)
    ensures Below(After(s, run), k)
    decreases |run|
  {
    if run != [] {
      StepBook(s, run[0]);
      StepBelow(s, run[0], k);
      RunBelow(Apply(s, run[0]), run[1..], k);
    }
  }

  /** A counter of requests is never above what the ledger says was spent on it, whatever the
      labels and through every reset: settling can lose requests, never invent them. */
  lemma RequestsNeverAboveLedger(run: seq<Step>, k: Key)
    requires Possible(Empty, run)
    requires forall i :: 0 <= i < |run| && run[i].Reserve? ==> RequestsOnly(run[i].grants, k)
    ensures 0 <= Value(After(Empty, run).counters, k) <= Total(After(Empty, run).book, k)
  {
    RunBelow(Empty, run, k);
  }

  // ----- when a reservation passes the limits ------------------------------------

  /** Granting this reservation takes counter k past every limit used on it. */
  ghost predicate Passes(s: State, grants: seq<Grant>, tokens: int, k: Key) {
    && Affordable(s.counters, grants, tokens)
    && Value(s.counters, k) <= Ceiling(s.book, k) + Underestimates(s.book, k)
    && var book := s.book + [Account("", grants, tokens, Live)];
       Value(Charge(s.counters, grants, tokens, |grants|), k) > Ceiling(book, k) + Underestimates(book, k)
  }

  /** Something a caller can work out: every window can be granted on its own, and every
      window on k passes the largest limit there once the others' costs come on top. */
  ghost predicate Overshoots(grants: seq<Grant>, tokens: int, k: Key) {
    && (forall i :: 0 <= i < |grants| ==> grants[i].Cost(tokens) <= grants[i].limit)
    && (exists i :: 0 <= i < |grants| && grants[i].key == k)
    && (forall i :: 0 <= i < |grants| && grants[i].key == k ==>
         grants[i].limit + CostOn(grants, tokens, k, |grants|) - grants[i].Cost(tokens) > GrantCeiling(grants, k, |grants|))
  }

  lemma AfterGrant(s: State, grants: seq<Grant>, tokens: int, k: Key)
    ensures var book := s.book + [Account("", grants, tokens, Live)];
      && Ceiling(book, k) == Max(Ceiling(s.book, k), GrantCeiling(grants, k, |grants|))
      && Underestimates(book, k) == Underestimates(s.book, k)
      && Value(Charge(s.counters, grants, tokens, |grants|), k) == Value(s.counters, k) + CostOn(grants, tokens, k, |grants|)
  {
    var a := Account("", grants, tokens, Live);
    assert (s.book + [a])[..|s.book|] == s.book;
    NoShortfall(a, k, |grants|);
    ChargeAt(s.counters, a, k, |grants|);
    LiveShare(a, k, |grants|);
  }

  lemma {:induction false} NoneOn(grants: seq<Grant>, tokens: int, k: Key, n: nat)
    requires n <= |grants| && forall i :: 0 <= i < n ==> grants[i].key != k
    ensures CostOn(grants, tokens, k, n) == 0 && GrantCeiling(grants, k, n) == 0
  {
    if n > 0 {
      NoneOn(grants, tokens, k, n - 1);
    }
  }

  lemma PassesNeeds(s: State, grants: seq<Grant>, tokens: int, k: Key)
    requires Bounded(s) && Passes(s, grants, tokens, k)
    ensures Overshoots(grants, tokens, k)
  {
    hide CostOn;
    hide GrantCeiling;
    AfterGrant(s, grants, tokens, k);
    if forall i :: 0 <= i < |grants| ==> grants[i].key != k {
      NoneOn(grants, tokens, k, |grants|);
      assert false;
    }
    forall i | 0 <= i < |grants| ensures grants[i].Cost(tokens) <= grants[i].limit {
      assert 0 <= Value(s.counters, grants[i].key) <= Allowance(s.book, grants[i].key);
    }
  }

  lemma OneStep(s: State, step: Step)
    requires Legal(s, step)
    ensures Possible(s, [step]) && After(s, [step]) == Apply(s, step)
  {
    hide Legal;
    hide Apply;
    var run := [step];
    assert run[1..] == [];
    assert Possible(Apply(s, step), []) && After(Apply(s, step), []) == Apply(s, step);
  }

  /** A run that has spent v on counter k and nothing else. */
  lemma Spend(v: nat, k: Key) returns (run: seq<Step>)
    ensures Possible(Empty, run)
    ensures var s := After(Empty, run);
      && (forall k' :: Value(s.counters, k') == if k' == k then v else 0)
      && Ceiling(s.book, k) == v && Underestimates(s.book, k) == 0
  {
    var grants := [Grant(Rpd, v, true, k)];
    var step := Reserve("", grants, v);
    run := [step];
    OneStep(Empty, step);
    hide After;
    hide Possible;
    assert Affordable(Empty.counters, grants, v);
    var s := Apply(Empty, step);
    assert s.book == Empty.book + [Account("", grants, v, Live)];
    AfterGrant(Empty, grants, v, k);
    assert s.counters == map[k := v] by {
      assert Charge(Empty.counters, grants, v, 0) == map[];
    }
    assert GrantCeiling(grants, k, 1) == v by {
      assert GrantCeiling(grants, k, 0) == 0;
    }
  }

  /** How much may already stand on k when the reservation comes, and take it past. */
  function Enough(grants: seq<Grant>, tokens: int, k: Key): nat {
    Max(0, GrantCeiling(grants, k, |grants|) + 1 - CostOn(grants, tokens, k, |grants|))
  }

  lemma EnoughIsAffordable(c: Counters, grants: seq<Grant>, tokens: int, k: Key)
    requires tokens >= 0 && Overshoots(grants, tokens, k)
    requires forall k' :: Value(c, k') == if k' == k then Enough(grants, tokens, k) else 0
    ensures Affordable(c, grants, tokens) && Enough(grants, tokens, k) <= GrantCeiling(grants, k, |grants|)
  {
    hide GrantCeiling;
    hide CostOn;
    var i :| 0 <= i < |grants| && grants[i].key == k;
    assert grants[i].limit <= GrantCeiling(grants, k, |grants|);
  }

  /** A granted reservation can take a counter past its limits in some run exactly when it
      overshoots. */
  lemma PassesIff(grants: seq<Grant>, tokens: int, k: Key)
    requires tokens >= 0
    ensures Overshoots(grants, tokens, k) <==>
      exists run :: Possible(Empty, run) && Passes(After(Empty, run), grants, tokens, k)
  {
    hide Overshoots;
    if Overshoots(grants, tokens, k) {
      hide After;
      hide Possible;
      hide Affordable;
      hide Ceiling;
      hide Underestimates;
      hide Charge;
      var run := Spend(Enough(grants, tokens, k), k);
      EnoughIsAffordable(After(Empty, run).counters, grants, tokens, k);
      AfterGrant(After(Empty, run), grants, tokens, k);
      assert Passes(After(Empty, run), grants, tokens, k);
    }
    hide Passes;
    if exists run :: Possible(Empty, run) && Passes(After(Empty, run), grants, tokens, k) {
      var run :| Possible(Empty, run) && Passes(After(Empty, run), grants, tokens, k);
      RunBounded(Empty, run);
      PassesNeeds(After(Empty, run), grants, tokens, k);
    }
  }

  /** A reservation never overshoots a counter it uses at most once. */
  lemma AloneNeverOvershoots(grants: seq<Grant>, tokens: int, k: Key)
    requires tokens >= 0 && AloneOn(grants, k)
    ensures !Overshoots(grants, tokens, k)
  {
    hide CostOn;
    hide GrantCeiling;
    NoOverlap(grants, tokens, k, |grants|);
    var i := LargestIsOne(grants, tokens, k, |grants|);
  }

  /** Two windows on one counter overshoot it exactly when both are affordable alone and each
      limit, raised by the other's cost, passes the larger one. */
  lemma PairOvershootsIff(grants: seq<Grant>, tokens: int, k: Key, i: nat, j: nat)
    requires tokens >= 0 && i < j < |grants| && grants[i].limit >= 0 && grants[j].limit >= 0
    requires forall m :: 0 <= m < |grants| ==> (grants[m].key == k <==> m == i || m == j)
    ensures Overshoots(grants, tokens, k) <==>
      && (forall m :: 0 <= m < |grants| ==> grants[m].Cost(tokens) <= grants[m].limit)
      && grants[i].limit + grants[j].Cost(tokens) > Max(grants[i].limit, grants[j].limit)
      && grants[j].limit + grants[i].Cost(tokens) > Max(grants[i].limit, grants[j].limit)
  {
    hide CostOn;
    hide GrantCeiling;
    PairOn(grants, tokens, k, i, j, |grants|);
    assert grants[i].key == k && grants[j].key == k;
  }

  lemma {:induction false} PairOn(grants: seq<Grant>, tokens: int, k: Key, i: nat, j: nat, n: nat)
    requires i < j < |grants| && n <= |grants| && grants[i].limit >= 0 && grants[j].limit >= 0
    requires forall m :: 0 <= m < |grants| ==> (grants[m].key == k <==> m == i || m == j)
    ensures CostOn(grants, tokens, k, n) ==
      (if i < n then grants[i].Cost(tokens) else 0) + (if j < n then grants[j].Cost(tokens) else 0)
    ensures GrantCeiling(grants, k, n) ==
      Max(if i < n then grants[i].limit else 0, if j < n then grants[j].limit else 0)
  {
    if n > 0 {
      PairOn(grants, tokens, k, i, j, n - 1);
    }
  }

  /** Two windows on one counter, each within its limit of ten, leave it at eleven. */
  lemma SharedCounterExample()
    ensures var grants := [Grant(Rpd, 10, false, "lane"), Grant(Tpd, 10, true, "lane")];
      var run := [Reserve("r", grants, 10)];
      && Possible(Empty, run)
      && var s := After(Empty, run);
        && Value(s.counters, "lane") == 11
        && Ceiling(s.book, "lane") + Underestimates(s.book, "lane") == 10
        && Overlaps(s.book, "lane") == 1
  {
    var grants := [Grant(Rpd, 10, false, "lane"), Grant(Tpd, 10, true, "lane")];
    var step := Reserve("r", grants, 10);
    OneStep(Empty, step);
    hide After;
    hide Possible;
    assert Affordable(Empty.counters, grants, 10);
    var s := Apply(Empty, step);
    var a := Account("r", grants, 10, Live);
    assert s.book == [a] && s.book[..0] == [];
    assert CostOn(grants, 10, "lane", 1) == LargestOn(grants, 10, "lane", 1) == 1;
    assert GrantCeiling(grants, "lane", 1) == 10;
    NoShortfall(a, "lane", 2);
    assert Charge(Empty.counters, grants, 10, 1) == map["lane" := 1];
  }
}
