/** The personal cap on the shared pool: one more window under a label the model's own counter
    already has, and what that does to settling (app/quota/allocations.py). */
module PersonalCap {
  import opened Common
  import opened Quota
  import opened QuotaLedger
  import opened QuotaBounds
  import opened Lanes

  /** `shared_pool_grants`: one more request window, labelled rpd like the model's own. */
  function SharedPoolGrants(cap: Option<int>, allocation: Key): seq<Grant> {
    if cap.None? then [] else [Grant(Rpd, cap.value, false, allocation)]
  }

  /** What a chat request on the shared pool reserves. */
  function ChatGrants(
    published: map<Label, int>, headroom: real, reserved: real, keyOf: Label -> Key, cap: Option<int>, allocation: Key
  ): seq<Grant>
  {
    AnswerGrants(published, headroom, reserved, keyOf) + SharedPoolGrants(cap, allocation)
  }

  /** The shape of it: distinct labels, with a cap's window behind them if there is one. */
  ghost predicate ChatShaped(grants: seq<Grant>, base: seq<Grant>, allocation: Key) {
    && DistinctLabels(base) && DistinctKeys(base)
    && (forall i :: 0 <= i < |base| ==> base[i].key != allocation)
    && (|| grants == base
        || exists limit :: grants == base + [Grant(Rpd, limit, false, allocation)])
  }

  lemma ChatIsChatShaped(
    published: map<Label, int>, headroom: real, reserved: real, keyOf: Label -> Key, cap: Option<int>, allocation: Key
  )
    requires forall l, m :: keyOf(l) == keyOf(m) ==> l == m
    requires forall l :: keyOf(l) != allocation
    ensures var base := AnswerGrants(published, headroom, reserved, keyOf);
      && ChatShaped(ChatGrants(published, headroom, reserved, keyOf, cap, allocation), base, allocation)
      && ((exists i :: 0 <= i < |base| && base[i].window == Rpd) <==> Rpd in published)
  {
    hide AnswerLimit;
    hide Declared;
    var labels, base := Declared(published), AnswerGrants(published, headroom, reserved, keyOf);
    assert forall i :: 0 <= i < |base| ==> base[i].window == labels[i] && base[i].key == keyOf(labels[i]);
    hide AnswerGrants;
    if Rpd in published {
      var i :| 0 <= i < |labels| && labels[i] == Rpd;
      assert base[i].window == Rpd;
    }
    if cap.None? {
      assert base + [] == base;
    }
  }

  // ----- reserving ---------------------------------------------------------------

  /** Chat on the shared pool never takes a counter past its limits: it uses each once. */
  lemma ChatNeverOvershoots(
    published: map<Label, int>, headroom: real, reserved: real, keyOf: Label -> Key, cap: Option<int>, allocation: Key,
    tokens: int, k: Key
  )
    requires tokens >= 0
    requires forall l, m :: keyOf(l) == keyOf(m) ==> l == m
    requires forall l :: keyOf(l) != allocation
    ensures var grants := ChatGrants(published, headroom, reserved, keyOf, cap, allocation);
      DistinctKeys(grants) && !Overshoots(grants, tokens, k)
  {
    hide ChatGrants;
    hide Overshoots;
    ChatIsChatShaped(published, headroom, reserved, keyOf, cap, allocation);
    AloneNeverOvershoots(ChatGrants(published, headroom, reserved, keyOf, cap, allocation), tokens, k);
  }

  /** The cap only adds its own question: the user's requests so far are below it. */
  lemma CapAffordableIff(
    c: Counters, published: map<Label, int>, headroom: real, reserved: real, keyOf: Label -> Key,
    cap: Option<int>, allocation: Key, tokens: int
  )
    ensures Affordable(c, ChatGrants(published, headroom, reserved, keyOf, cap, allocation), tokens) <==>
      && (forall l :: l in published ==>
           Value(c, keyOf(l)) + ChargeOf(l, tokens) <= AnswerLimit(published[l], headroom, reserved))
      && (cap.Some? ==> Value(c, allocation) < cap.value)
  {
    hide AnswerLimit;
    AnswerAffordableIff(c, published, headroom, reserved, keyOf, tokens);
    hide AnswerGrants;
    hide ChargeOf;
    var base, grants := AnswerGrants(published, headroom, reserved, keyOf), ChatGrants(published, headroom, reserved, keyOf, cap, allocation);
    assert forall i :: 0 <= i < |base| ==> grants[i] == base[i];
    if cap.Some? {
      assert grants[|base|] == Grant(Rpd, cap.value, false, allocation);
    } else {
      assert grants == base;
    }
  }

  // ----- releasing ---------------------------------------------------------------

  /** Reserve, then release without anything in between. */
  function Undone(c: Counters, grants: seq<Grant>, tokens: int): Counters {
    Refund(Charge(c, grants, tokens, |grants|), Note(map[], grants, tokens, |grants|), Receipt("", tokens, grants), |grants|)
  }

  /** Where settlement is exact, what stays charged is what the release does not find. */
  lemma UndoneAt(c: Counters, grants: seq<Grant>, tokens: int, k: Key)
    requires tokens >= 0 && SettlesExactly(grants, k) && Value(c, k) >= 0
    ensures Value(Undone(c, grants, tokens), k) == Value(c, k) + Spent(Account("", grants, tokens, Released), k)
  {
    var a := Account("", grants, tokens, Live);
    ChargeAt(c, a, k, |grants|);
    RefundAt(Charge(c, grants, tokens, |grants|), a, k, |grants|);
  }

  /** With distinct labels a release undoes its reservation on every counter. */
  lemma DistinctIsUndone(c: Counters, grants: seq<Grant>, tokens: int, k: Key)
    requires tokens >= 0 && DistinctLabels(grants) && Value(c, k) >= 0
    ensures Value(Undone(c, grants, tokens), k) == Value(c, k)
  {
    DistinctSettlesExactly(Account("", grants, tokens, Live), k);
    UndoneAt(c, grants, tokens, k);
  }

  /** What an account has spent on a counter that one of its windows uses. */
  lemma {:induction false} ShareOfOne(a: Account, k: Key, i: nat, n: nat)
    requires n <= |a.grants| && i < |a.grants| && a.grants[i].key == k && AloneOn(a.grants, k)
    ensures Share(a, k, n) == if i < n then a.Worth(i) else 0
  {
    if n > 0 {
      ShareOfOne(a, k, i, n - 1);
    }
  }

  /** The model's own request counter behind a cap counts a reservation forever: settled or
      not, and also once released. */
  lemma ModelRpdNeverGivenBack(a: Account, base: seq<Grant>, cap: Grant, m: nat)
    requires WellFormed(a) && a.grants == base + [cap] && m < |base| && DistinctKeys(a.grants)
    requires base[m].window == cap.window == Rpd && !base[m].costIsTokens
    ensures Spent(a, base[m].key) == 1
  {
    assert a.grants[m] == base[m] && a.grants[|base|] == cap;
    assert !Found(a.grants, m);
    ShareOfOne(a, base[m].key, m, |a.grants|);
  }

  /** Two windows labelled rpd: the release finds only the cap's counter, so the model's own
      rpd counter keeps the request it should have given back. */
  lemma CapLeaksModelRpd(c: Counters, base: seq<Grant>, cap: Grant, tokens: int, m: nat)
    requires tokens >= 0 && m < |base| && DistinctLabels(base) && DistinctKeys(base) && Value(c, base[m].key) >= 0
    requires base[m].window == cap.window == Rpd && !base[m].costIsTokens
    requires forall i :: 0 <= i < |base| ==> base[i].key != cap.key
    ensures Value(Undone(c, base + [cap], tokens), base[m].key) == Value(c, base[m].key) + 1
  {
    var grants := base + [cap];
    assert SettlesExactly(grants, base[m].key);
    UndoneAt(c, grants, tokens, base[m].key);
    ModelRpdNeverGivenBack(Account("", grants, tokens, Released), base, cap, m);
  }

  // ----- what the cap's counter loses --------------------------------------------

  /** Taking an amount off a counter, not below zero. */
  function Less(v: int, amount: int): int {
    Max(0, v - amount)
  }

  lemma {:induction false} NotedTwice(grants: seq<Grant>, tokens: int, m: nat, n: nat)
    requires m < |grants| - 1 && n <= |grants|
    requires forall i :: 0 <= i < |grants| ==> (grants[i].window == Rpd <==> i == m || i == |grants| - 1)
    requires !grants[m].costIsTokens && !grants[|grants| - 1].costIsTokens
    ensures Reserved(Note(map[], grants, tokens, n), Rpd) == (if m < n then 1 else 0) + (if n == |grants| then 1 else 0)
  {
    if n > 0 {
      NotedTwice(grants, tokens, m, n - 1);
    }
  }

  /** The release loop takes the merged record off the cap's counter once per rpd entry. */
  lemma {:induction false} RefundedTwice(c: Counters, a: Account, m: nat, n: nat)
    requires a.tokens >= 0 && a.status.Live? && m < |a.grants| - 1 && n <= |a.grants|
    requires forall i :: 0 <= i < |a.grants| ==> (a.grants[i].window == Rpd <==> i == m || i == |a.grants| - 1)
    requires !a.grants[m].costIsTokens && !a.grants[|a.grants| - 1].costIsTokens
    requires forall i :: 0 <= i < |a.grants| - 1 ==> a.grants[i].key != a.grants[|a.grants| - 1].key
    requires var k := a.grants[|a.grants| - 1].key; k in c && c[k] >= 0
    ensures var k := a.grants[|a.grants| - 1].key;
      var after := Refund(c, Note(map[], a.grants, a.tokens, |a.grants|), a.Receipt(), n);
      && k in after
      && after[k] == if n <= m then c[k] else if n < |a.grants| then Less(c[k], 2) else Less(Less(c[k], 2), 2)
  {
    hide Note;
    hide KeyFor;
    if n > 0 {
      RefundedTwice(c, a, m, n - 1);
      NotedTwice(a.grants, a.tokens, m, |a.grants|);
      assert a.Receipt().windows[n - 1] in a.Receipt().windows;
      var i := FoundFor(a, a.Receipt().windows[n - 1]);
      if a.grants[i].window == Rpd {
        assert i == |a.grants| - 1;
      }
    }
  }

  /** Charged once and refunded two twice: from v the cap's counter ends three below, with
      each refund stopping at zero. */
  lemma CapLosesThree(c: Counters, base: seq<Grant>, cap: Grant, tokens: int, m: nat)
    requires tokens >= 0 && m < |base| && DistinctLabels(base) && Value(c, cap.key) >= 0
    requires base[m].window == cap.window == Rpd && !base[m].costIsTokens && !cap.costIsTokens
    requires forall i :: 0 <= i < |base| ==> base[i].key != cap.key
    ensures Value(Undone(c, base + [cap], tokens), cap.key) == Max(0, Max(0, Value(c, cap.key) - 1) - 2)
    ensures Value(c, cap.key) >= 3 ==> Value(Undone(c, base + [cap], tokens), cap.key) == Value(c, cap.key) - 3
  {
    var grants := base + [cap];
    var a := Account("", grants, tokens, Live);
    var charged := Charge(c, grants, tokens, |grants|);
    assert grants[m] == base[m] && grants[|base|] == cap;
    ChargeAt(c, a, cap.key, |grants|);
    ShareOfOne(a, cap.key, |base|, |grants|);
    assert cap.key in charged by {
      assert grants[|base|].key in charged;
    }
    RefundedTwice(charged, a, m, |grants|);
  }

  /** On the shared pool, a release gives everything back exactly when no personal cap is
      attached or the model publishes no daily request window of its own. */
  lemma ReleaseRestoresIff(
    c: Counters, published: map<Label, int>, headroom: real, reserved: real, keyOf: Label -> Key,
    cap: Option<int>, allocation: Key, tokens: int
  )
    requires tokens >= 0 && forall k :: Value(c, k) >= 0
    requires forall l, m :: keyOf(l) == keyOf(m) ==> l == m
    requires forall l :: keyOf(l) != allocation
    ensures var grants := ChatGrants(published, headroom, reserved, keyOf, cap, allocation);
      (forall k :: Value(Undone(c, grants, tokens), k) == Value(c, k)) <==> cap.None? || Rpd !in published
  {
    var base := AnswerGrants(published, headroom, reserved, keyOf);
    var grants := ChatGrants(published, headroom, reserved, keyOf, cap, allocation);
    ChatIsChatShaped(published, headroom, reserved, keyOf, cap, allocation);
    if cap.None? || Rpd !in published {
      hide Undone;
      forall k ensures Value(Undone(c, grants, tokens), k) == Value(c, k) {
        DistinctIsUndone(c, grants, tokens, k);
      }
    } else {
      var m :| 0 <= m < |base| && base[m].window == Rpd;
      CapLeaksModelRpd(c, base, SharedPoolGrants(cap, allocation)[0], tokens, m);
    }
  }

  // ----- whole runs --------------------------------------------------------------

  ghost predicate OnModels(base: seq<Grant>, allowances: set<Key>) {
    forall i :: 0 <= i < |base| ==> base[i].key !in allowances
  }

  /** Every reservation of the run is chat's, capped on one of these allowances if at all. */
  ghost predicate ChatRun(run: seq<Step>, allowances: set<Key>) {
    forall i :: 0 <= i < |run| && run[i].Reserve? ==>
      exists base, allocation ::
        allocation in allowances && OnModels(base, allowances) && ChatShaped(run[i].grants, base, allocation)
  }

  /** Caps included, every counter but the personal allowances matches the ledger over every
      run, the model's own request counter with its released requests still in it; an
      allowance never stands above the ledger; and no counter passes its largest limit by more
      than the estimates missed. */
  lemma CappedRunsMatchLedger(run: seq<Step>, allowances: set<Key>, k: Key)
    requires Possible(Empty, run) && ChatRun(run, allowances)
    ensures k !in allowances && ExpireCounter(k) !in run ==>
      Value(After(Empty, run).counters, k) == Total(After(Empty, run).book, k)
    ensures k in allowances ==> Value(After(Empty, run).counters, k) <= Total(After(Empty, run).book, k)
    ensures var s := After(Empty, run); Value(s.counters, k) <= Ceiling(s.book, k) + Underestimates(s.book, k)
  {
    hide After;
    forall i | 0 <= i < |run| && run[i].Reserve?
      ensures DistinctKeys(run[i].grants)
      ensures k !in allowances ==> SettlesExactly(run[i].grants, k)
      ensures k in allowances ==> RequestsOnly(run[i].grants, k)
    {
      var base, allocation :|
        allocation in allowances && OnModels(base, allowances) && ChatShaped(run[i].grants, base, allocation);
    }
    if k !in allowances && ExpireCounter(k) !in run {
      CountersMatchLedger(run, k);
    }
    if k in allowances {
      RequestsNeverAboveLedger(run, k);
    }
    OverspendIsBounded(run, k);
    BookFromRun(Empty, run);
  }

  /** Accounts come from reservations of the run. */
  lemma {:induction false} BookFromRun(s: State, run: seq<Step>)
    requires Possible(s, run)
    requires forall i :: 0 <= i < |s.book| ==> DistinctKeys(s.book[i].grants)
    requires forall i :: 0 <= i < |run| && run[i].Reserve? ==> DistinctKeys(run[i].grants)
    ensures forall i :: 0 <= i < |After(s, run).book| ==> DistinctKeys(After(s, run).book[i].grants)
    decreases |run|
  {
    if run != [] {
      hide DistinctKeys;
      assert forall i :: 0 <= i < |Apply(s, run[0]).book| ==> DistinctKeys(Apply(s, run[0]).book[i].grants);
      BookFromRun(Apply(s, run[0]), run[1..]);
    }
  }

  /** The same by numbers: after one reserved and released request the model's counter is one
      too high, and a user who had used ten of their own allowance is at seven. */
  lemma CapReleaseExample()
    ensures var c: Counters := map["model" := 5, "mine" := 10];
      var grants := [Grant(Rpd, 100, false, "model"), Grant(Rpd, 20, false, "mine")];
      && Affordable(c, grants, 0)
      && Value(Undone(c, grants, 0), "model") == 6 && Value(Undone(c, grants, 0), "mine") == 7
  {
    var c: Counters := map["model" := 5, "mine" := 10];
    var base, cap := [Grant(Rpd, 100, false, "model")], Grant(Rpd, 20, false, "mine");
    assert "model" != "mine" by {
      assert |"model"| != |"mine"|;
    }
    assert base + [cap] == [Grant(Rpd, 100, false, "model"), Grant(Rpd, 20, false, "mine")];
    CapLeaksModelRpd(c, base, cap, 0, 0);
    CapLosesThree(c, base, cap, 0, 0);
  }
}
