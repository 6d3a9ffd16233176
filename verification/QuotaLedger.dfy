/** The counters against an independent ledger of every reservation ever granted. */
module QuotaLedger {
  import opened Common
  import opened Quota

  datatype Status =
    | Live                                           // reserved, not settled yet
    | Committed(published: set<Label>, actual: int)  // its published token windows count the actual
    | Released
    | Lapsed                                      // the record expired: the estimate stands

  /** Settlement looks a label up and finds the last grant that carries it. */
  predicate Found(grants: seq<Grant>, i: nat)
    requires i < |grants|
  {
    forall j :: i < j < |grants| ==> grants[j].window != grants[i].window
  }

  datatype Account = Account(id: string, grants: seq<Grant>, tokens: int, status: Status) {
    function Cost(i: nat): int
      requires i < |grants|
    {
      grants[i].Cost(tokens)
    }

    /** What the i-th grant of this account has spent. */
    function Worth(i: nat): int
      requires i < |grants|
    {
      match status
      case Live => Cost(i)
      case Committed(published, actual) => if Corrected(published, i) then actual else Cost(i)
      case Released => if Found(grants, i) then 0 else Cost(i)
      case Lapsed => Cost(i)
    }

    /** A commit moves every token window that is still published, by the grant it finds. */
    predicate Corrected(published: set<Label>, i: nat)
      requires i < |grants|
    {
      grants[i].window.IsToken() && grants[i].window in published && Found(grants, i)
    }

    function Receipt(): (r: Reservation)
      ensures |r.windows| == |r.keys| == |grants|
      ensures forall i :: 0 <= i < |grants| ==> r.windows[i] == grants[i].window && r.keys[i] == grants[i].key
    {
      Quota.Receipt(id, tokens, grants)
    }
  }

  /** What the account's first n grants have spent on counter k. */
  function Share(a: Account, k: Key, n: nat): int
    requires n <= |a.grants|
  {
    if n == 0 then 0
    else Share(a, k, n - 1) + if a.grants[n - 1].key == k then a.Worth(n - 1) else 0
  }

  function Spent(a: Account, k: Key): int {
    Share(a, k, |a.grants|)
  }

  function Total(book: seq<Account>, k: Key): int {
    if book == [] then 0 else Total(book[..|book| - 1], k) + Spent(book[|book| - 1], k)
  }

  ghost predicate DistinctLabels(grants: seq<Grant>) {
    forall i, j :: 0 <= i < j < |grants| ==> grants[i].window != grants[j].window
  }

  /** What a settlement moves on counter k is one grant's own cost: a label that is repeated
      does not lead to k. Distinct labels are enough, for every counter. */
  ghost predicate SettlesExactly(grants: seq<Grant>, k: Key) {
    forall i, j :: 0 <= i < j < |grants| && grants[i].window == grants[j].window && Found(grants, j) ==> grants[j].key != k
  }

  // ----- runs ------------------------------------------------------------------

  datatype State = State(counters: Counters, reservations: map<string, Record>, book: seq<Account>)

  const Empty := State(map[], map[], [])

  datatype Step =
    | Reserve(id: string, grants: seq<Grant>, tokens: int)
    | Commit(account: nat, published: set<Label>, actual: int)
    | Release(account: nat)
    | Lapse(account: nat)          // the reservation record expires
    | ExpireCounter(key: Key)      // the window resets

  /** Request ids are not reused; the grants are any at all. */
  ghost predicate Legal(s: State, step: Step) {
    match step
    case Reserve(id, grants, tokens) =>
      && tokens >= 0
      && forall i :: 0 <= i < |s.book| ==> s.book[i].id != id
    case Commit(i, _, actual) => i < |s.book| && actual >= 0
    case Release(i) => i < |s.book|
    case Lapse(i) => i < |s.book|
    case ExpireCounter(_) => true
  }

  function Close(s: State, i: nat, counters: Counters, status: Status): State
    requires i < |s.book|
  {
    State(counters, s.reservations - {s.book[i].id}, s.book[i := s.book[i].(status := status)])
  }

  ghost function Apply(s: State, step: Step): State
    requires Legal(s, step)
  {
    match step
    case Reserve(id, grants, tokens) =>
      if grants == [] || !Affordable(s.counters, grants, tokens) then s
      else State(Charge(s.counters, grants, tokens, |grants|),
                 s.reservations[id := Note(map[], grants, tokens, |grants|)],
                 s.book + [Account(id, grants, tokens, Live)])
    case Commit(i, published, actual) =>
      var a := s.book[i];
      if a.id !in s.reservations then s
      else
        var settled := Settled(published, a.Receipt());
        Close(s, i, Settle(s.counters, s.reservations[a.id], a.Receipt(), settled, actual, |settled|), Committed(published, actual))
    case Release(i) =>
      var a := s.book[i];
      if a.id !in s.reservations then s
      else Close(s, i, Refund(s.counters, s.reservations[a.id], a.Receipt(), |a.grants|), Released)
    case Lapse(i) =>
      if s.book[i].id !in s.reservations then s else Close(s, i, s.counters, Lapsed)
    case ExpireCounter(k) =>
      s.(counters := s.counters - {k})
  }

  // ----- the book --------------------------------------------------------------

  ghost predicate WellFormed(a: Account) {
    && a.tokens >= 0
    && (a.status.Committed? ==> a.status.actual >= 0)
  }

  /** Accounts are well formed, and exactly the live ones have a record, which is theirs. */
  ghost predicate BookInv(s: State) {
    && (forall i :: 0 <= i < |s.book| ==> WellFormed(s.book[i]))
    && (forall i, j :: 0 <= i < j < |s.book| ==> s.book[i].id != s.book[j].id)
    && (forall i :: 0 <= i < |s.book| ==> (s.book[i].status.Live? <==> s.book[i].id in s.reservations))
    && (forall i :: 0 <= i < |s.book| && s.book[i].status.Live? ==>
          s.reservations[s.book[i].id] == Note(map[], s.book[i].grants, s.book[i].tokens, |s.book[i].grants|))
    && (forall id :: id in s.reservations ==> exists i :: 0 <= i < |s.book| && s.book[i].id == id)
  }

  lemma {:induction false} ShareNonNegative(a: Account, k: Key, n: nat)
    requires WellFormed(a) && n <= |a.grants|
    ensures Share(a, k, n) >= 0
    ensures forall m :: 0 <= m <= n ==> Share(a, k, m) <= Share(a, k, n)
  {
    if n > 0 {
      ShareNonNegative(a, k, n - 1);
    }
  }

  lemma {:induction false} TotalAtLeast(book: seq<Account>, k: Key, i: nat)
    requires i < |book| && forall j :: 0 <= j < |book| ==> WellFormed(book[j])
    ensures Total(book, k) >= Spent(book[i], k) >= 0
  {
    var n := |book| - 1;
    ShareNonNegative(book[n], k, |book[n].grants|);
    if i < n {
      TotalAtLeast(book[..n], k, i);
    } else {
      TotalNonNegative(book[..n], k);
    }
  }

  lemma {:induction false} TotalNonNegative(book: seq<Account>, k: Key)
    requires forall j :: 0 <= j < |book| ==> WellFormed(book[j])
    ensures Total(book, k) >= 0
  {
    if book != [] {
      TotalAtLeast(book, k, 0);
    }
  }

  lemma {:induction false} TotalUpdate(book: seq<Account>, i: nat, a: Account, k: Key)
    requires i < |book|
    ensures Total(book[i := a], k) == Total(book, k) - Spent(book[i], k) + Spent(a, k)
  {
    var n := |book| - 1;
    if i == n {
      assert book[i := a][..n] == book[..n];
    } else {
      assert book[i := a][..n] == book[..n][i := a];
      TotalUpdate(book[..n], i, a, k);
    }
  }

  // ----- what the scripts do to one counter ------------------------------------

  lemma {:induction false} ChargeAt(c: Counters, a: Account, k: Key, n: nat)
    requires n <= |a.grants| && a.status.Live?
    ensures Value(Charge(c, a.grants, a.tokens, n), k) == Value(c, k) + Share(a, k, n)
    ensures k in c ==> k in Charge(c, a.grants, a.tokens, n)
    ensures forall i :: 0 <= i < n ==> a.grants[i].key in Charge(c, a.grants, a.tokens, n)
    decreases n
  {
    if n > 0 {
      ChargeAt(c, a, k, n - 1);
      ChargeAt(c, a, a.grants[n - 1].key, n - 1);
    }
  }

  /** A record holds at least each window's cost, and exactly that where no other window
      shares the label. */
  lemma {:induction false} NoteAt(grants: seq<Grant>, tokens: int, n: nat, i: nat)
    requires tokens >= 0 && n <= |grants| && i < |grants|
    ensures var noted := Reserved(Note(map[], grants, tokens, n), grants[i].window);
      && noted >= 0 && (i < n ==> noted >= grants[i].Cost(tokens))
      && ((forall j :: 0 <= j < |grants| && j != i ==> grants[j].window != grants[i].window) ==>
          noted == if i < n then grants[i].Cost(tokens) else 0)
  {
    if n > 0 {
      NoteAt(grants, tokens, n - 1, i);
    }
  }

  /** A label's counter is the one of its last occurrence. */
  lemma {:induction false} KeyForIsLast(windows: seq<Label>, keys: seq<Key>, l: Label) returns (i: nat)
    requires |windows| == |keys| && l in windows
    ensures i < |windows| && windows[i] == l && keys[i] == KeyFor(windows, keys, l)
    ensures forall j :: i < j < |windows| ==> windows[j] != l
  {
    var n := |windows| - 1;
    if windows[n] == l {
      i := n;
    } else {
      assert l in windows[..n];
      i := KeyForIsLast(windows[..n], keys[..n], l);
    }
  }

  /** The grant a settlement of label l acts on. */
  lemma FoundFor(a: Account, l: Label) returns (i: nat)
    requires l in a.Receipt().windows
    ensures i < |a.grants| && a.grants[i].window == l && Found(a.grants, i)
    ensures KeyFor(a.Receipt().windows, a.Receipt().keys, l) == a.grants[i].key
  {
    i := KeyForIsLast(a.Receipt().windows, a.Receipt().keys, l);
    assert forall j :: 0 <= j < |a.grants| ==> a.Receipt().windows[j] == a.grants[j].window;
  }

  /** Where settlement is exact, what it finds on k is alone with its label, and noted so. */
  lemma FoundAlone(a: Account, k: Key, i: nat)
    requires a.tokens >= 0 && SettlesExactly(a.grants, k) && i < |a.grants| && a.grants[i].key == k && Found(a.grants, i)
    ensures forall j :: 0 <= j < |a.grants| && j != i ==> a.grants[j].window != a.grants[i].window
    ensures Reserved(Note(map[], a.grants, a.tokens, |a.grants|), a.grants[i].window) == a.Cost(i)
  {
    hide Note;
    NoteAt(a.grants, a.tokens, |a.grants|, i);
  }

  function Freed(a: Account): Account {
    a.(status := Released)
  }

  /** Releasing takes exactly the costs it finds off a counter that can bear them. */
  lemma {:induction false} RefundAt(c: Counters, a: Account, k: Key, n: nat)
    requires WellFormed(a) && a.status.Live? && n <= |a.grants| && SettlesExactly(a.grants, k)
    requires Value(c, k) >= Spent(a, k)
    ensures Value(Refund(c, Note(map[], a.grants, a.tokens, |a.grants|), a.Receipt(), n), k)
      == Value(c, k) - Share(a, k, n) + Share(Freed(a), k, n)
    decreases n
  {
    hide Note;
    hide KeyFor;
    hide SettlesExactly;
    hide GiveBack;
    if n > 0 {
      var record, r := Note(map[], a.grants, a.tokens, |a.grants|), a.Receipt();
      RefundAt(c, a, k, n - 1);
      assert r.windows[n - 1] in r.windows;
      var m := FoundFor(a, r.windows[n - 1]);
      if a.grants[m].key == k {
        FoundAlone(a, k, m);
        assert m == n - 1;
        ShareNonNegative(a, k, |a.grants|);
        ShareNonNegative(Freed(a), k, n - 1);
        assert Share(a, k, n) <= Share(a, k, |a.grants|);
      } else {
        assert a.grants[n - 1].key == k ==> !Found(a.grants, n - 1);
      }
      hide Found;
      GiveBackAt(Refund(c, record, r, n - 1), a.grants[m].key, Reserved(record, r.windows[n - 1]), k);
    }
  }

  lemma GiveBackAt(c: Counters, key: Key, amount: int, k: Key)
    requires key == k ==> amount >= 0 && Value(c, k) >= 0
    ensures Value(GiveBack(c, key, amount), k) == if key == k then Max(0, Value(c, k) - amount) else Value(c, k)
  {
  }

  /** Accounts whose grants on k are worth the same have spent the same on k. */
  lemma {:induction false} SameOn(a: Account, b: Account, k: Key, n: nat)
    requires n <= |a.grants| && a.grants == b.grants
    requires forall i :: 0 <= i < n && a.grants[i].key == k ==> a.Worth(i) == b.Worth(i)
    ensures Share(a, k, n) == Share(b, k, n)
  {
    if n > 0 {
      SameOn(a, b, k, n - 1);
    }
  }

  /** The account with some token windows already moved to the actual. */
  function Partly(a: Account, settled: seq<Label>, actual: int): Account {
    a.(status := Committed((set l | l in settled), actual))
  }

  /** Settling the windows the tracker picks is settling every published token window. */
  lemma SettledIsAll(a: Account, published: set<Label>, actual: int, k: Key)
    ensures var all := a.(status := Committed(published, actual));
      Spent(Partly(a, Settled(published, a.Receipt()), actual), k) == Spent(all, k)
  {
    hide Found;
    hide Settled;
    var all, picked := a.(status := Committed(published, actual)), Partly(a, Settled(published, a.Receipt()), actual);
    forall i | 0 <= i < |a.grants| ensures picked.Worth(i) == all.Worth(i) {
      assert a.Receipt().windows[i] == a.grants[i].window;
      SettledExactly(published, a.Receipt(), a.grants[i].window);
    }
    SameOn(picked, all, k, |a.grants|);
  }

  /** Settling one more window changes what was spent on its own counter, and on no other. */
  lemma {:induction false} SettleOneMore(a: Account, settled: seq<Label>, i: nat, actual: int, k: Key, n: nat)
    requires i < |a.grants| && Found(a.grants, i) && n <= |a.grants|
    requires a.grants[i].window !in settled && a.grants[i].window.IsToken()
    ensures Share(Partly(a, settled + [a.grants[i].window], actual), k, n) == Share(Partly(a, settled, actual), k, n)
      + if i < n && a.grants[i].key == k then actual - a.Cost(i) else 0
  {
    if n > 0 {
      SettleOneMore(a, settled, i, actual, k, n - 1);
    }
  }

  lemma CorrectAt(c: Counters, key: Key, delta: int, k: Key)
    requires key == k ==> Value(c, k) >= 0
    ensures Value(Correct(c, key, delta), k) == if key == k then Max(0, Value(c, k) + delta) else Value(c, k)
  {
  }

  /** Committing replaces the account's old worth by its new one. */
  lemma {:induction false} SettleAt(c: Counters, a: Account, settled: seq<Label>, actual: int, k: Key, n: nat)
    requires WellFormed(a) && a.status.Live? && actual >= 0 && SettlesExactly(a.grants, k)
    requires n <= |settled| && Distinct(settled)
    requires forall j :: 0 <= j < |settled| ==> settled[j] in a.Receipt().windows && settled[j].IsToken()
    requires Value(c, k) >= Spent(a, k)
    ensures Value(Settle(c, Note(map[], a.grants, a.tokens, |a.grants|), a.Receipt(), settled, actual, n), k)
      == Value(c, k) - Spent(a, k) + Spent(Partly(a, settled[..n], actual), k)
    decreases n
  {
    hide Note;
    hide KeyFor;
    hide Correct;
    hide SettlesExactly;
    hide Found;
    hide Share;
    var all := |a.grants|;
    if n == 0 {
      SameOn(a, Partly(a, [], actual), k, all);
    } else {
      var l, r := settled[n - 1], a.Receipt();
      var i := FoundFor(a, l);
      var done := Partly(a, settled[..n - 1], actual);
      SettleAt(c, a, settled, actual, k, n - 1);
      SettleOneMore(a, settled[..n - 1], i, actual, k, all);
      assert settled[..n] == settled[..n - 1] + [l];
      var record := Note(map[], a.grants, a.tokens, all);
      if a.grants[i].key == k {
        FoundAlone(a, k, i);
        OwnWorth(done, i);
      }
      CorrectAt(Settle(c, record, r, settled, actual, n - 1), a.grants[i].key, actual - Reserved(record, l), k);
    }
  }

  /** One grant's worth is part of what was spent on its counter. */
  lemma OwnWorth(a: Account, i: nat)
    requires WellFormed(a) && i < |a.grants|
    ensures Spent(a, a.grants[i].key) >= a.Worth(i)
  {
    var k := a.grants[i].key;
    ShareNonNegative(a, k, |a.grants|);
    assert Share(a, k, i + 1) <= Share(a, k, |a.grants|);
    assert Share(a, k, i) >= 0 by { ShareNonNegative(a, k, i); }
  }

  // ----- every run -------------------------------------------------------------

  /** Counter k holds what the book says was spent on it, and settling will keep it so. */
  ghost predicate Balanced(s: State, k: Key) {
    && Value(s.counters, k) == Total(s.book, k)
    && forall i :: 0 <= i < |s.book| ==> SettlesExactly(s.book[i].grants, k)
  }

  lemma CloseKeepsBook(s: State, i: nat, counters: Counters, status: Status)
    requires BookInv(s) && i < |s.book| && s.book[i].id in s.reservations && !status.Live?
    requires status.Committed? ==> status.actual >= 0
    ensures BookInv(Close(s, i, counters, status))
  {
    hide Note;
    var s' := Close(s, i, counters, status);
    forall id | id in s'.reservations ensures exists j :: 0 <= j < |s'.book| && s'.book[j].id == id {
      var j :| 0 <= j < |s.book| && s.book[j].id == id;
      assert s'.book[j].id == id;
    }
  }

  lemma OpenKeepsBook(s: State, a: Account, counters: Counters)
    requires BookInv(s) && WellFormed(a) && a.status.Live?
    requires forall i :: 0 <= i < |s.book| ==> s.book[i].id != a.id
    ensures BookInv(State(counters, s.reservations[a.id := Note(map[], a.grants, a.tokens, |a.grants|)], s.book + [a]))
  {
    var s' := State(counters, s.reservations[a.id := Note(map[], a.grants, a.tokens, |a.grants|)], s.book + [a]);
    forall i | 0 <= i < |s'.book| ensures s'.book[i] == if i < |s.book| then s.book[i] else a {
    }
    forall x | x in s'.reservations ensures exists j :: 0 <= j < |s'.book| && s'.book[j].id == x {
      if x == a.id {
        assert s'.book[|s.book|].id == x;
      } else {
        var j :| 0 <= j < |s.book| && s.book[j].id == x;
        assert s'.book[j].id == x;
      }
    }
  }

  lemma StepBook(s: State, step: Step)
    requires BookInv(s) && Legal(s, step)
    ensures BookInv(Apply(s, step))
  {
    hide Charge;
    hide Note;
    hide Settle;
    hide Refund;
    match step
    case Reserve(id, grants, tokens) =>
      OpenKeepsBook(s, Account(id, grants, tokens, Live), Charge(s.counters, grants, tokens, |grants|));
    case Commit(i, published, actual) =>
      if s.book[i].id in s.reservations {
        CloseKeepsBook(s, i, Apply(s, step).counters, Committed(published, actual));
      }
    case Release(i) =>
      if s.book[i].id in s.reservations {
        CloseKeepsBook(s, i, Apply(s, step).counters, Released);
      }
    case Lapse(i) =>
      if s.book[i].id in s.reservations {
        CloseKeepsBook(s, i, s.counters, Lapsed);
      }
    case ExpireCounter(k) =>
  }

  lemma CommitBalanced(s: State, i: nat, published: set<Label>, actual: int, k: Key)
    requires BookInv(s) && Balanced(s, k) && i < |s.book| && s.book[i].id in s.reservations && actual >= 0
    ensures Balanced(Apply(s, Commit(i, published, actual)), k)
  {
    hide SettlesExactly;
    hide Settle;
    hide Note;
    hide Share;
    hide Settled;
    var a := s.book[i];
    var settled := Settled(published, a.Receipt());
    TotalAtLeast(s.book, k, i);
    SettleAt(s.counters, a, settled, actual, k, |settled|);
    assert settled[..|settled|] == settled;
    SettledIsAll(a, published, actual, k);
    TotalUpdate(s.book, i, a.(status := Committed(published, actual)), k);
  }

  lemma ReleaseBalanced(s: State, i: nat, k: Key)
    requires BookInv(s) && Balanced(s, k) && i < |s.book| && s.book[i].id in s.reservations
    ensures Balanced(Apply(s, Release(i)), k)
  {
    hide SettlesExactly;
    hide Refund;
    hide Note;
    hide Share;
    var a := s.book[i];
    TotalAtLeast(s.book, k, i);
    RefundAt(s.counters, a, k, |a.grants|);
    TotalUpdate(s.book, i, Freed(a), k);
  }

  lemma LapseBalanced(s: State, i: nat, k: Key)
    requires BookInv(s) && Balanced(s, k) && i < |s.book| && s.book[i].id in s.reservations
    ensures Balanced(Apply(s, Lapse(i)), k)
  {
    hide SettlesExactly;
    var a := s.book[i];
    TotalUpdate(s.book, i, a.(status := Lapsed), k);
    SameOn(a, a.(status := Lapsed), k, |a.grants|);
  }

  lemma ReserveBalanced(s: State, id: string, grants: seq<Grant>, tokens: int, k: Key)
    requires Balanced(s, k) && Legal(s, Reserve(id, grants, tokens)) && SettlesExactly(grants, k)
    ensures Balanced(Apply(s, Reserve(id, grants, tokens)), k)
  {
    hide SettlesExactly;
    hide Charge;
    hide Note;
    hide Affordable;
    var a := Account(id, grants, tokens, Live);
    TotalSnoc(s.book, a, k);
    hide Total;
    hide Share;
    ChargeAt(s.counters, a, k, |grants|);
  }

  lemma TotalSnoc(book: seq<Account>, a: Account, k: Key)
    ensures Total(book + [a], k) == Total(book, k) + Spent(a, k)
  {
    assert (book + [a])[..|book|] == book;
  }

  /** Every script keeps a counter equal to what the book says was spent on it. */
  lemma StepBalanced(s: State, step: Step, k: Key)
    requires BookInv(s) && Balanced(s, k) && Legal(s, step) && step != ExpireCounter(k)
    requires step.Reserve? ==> SettlesExactly(step.grants, k)
    ensures Balanced(Apply(s, step), k)
  {
    match step
    case Reserve(id, grants, tokens) => ReserveBalanced(s, id, grants, tokens, k);
    case Commit(i, published, actual) =>
      if s.book[i].id in s.reservations {
        CommitBalanced(s, i, published, actual, k);
      }
    case Release(i) =>
      if s.book[i].id in s.reservations {
        ReleaseBalanced(s, i, k);
      }
    case Lapse(i) =>
      if s.book[i].id in s.reservations {
        LapseBalanced(s, i, k);
      }
    case ExpireCounter(_) =>
  }

  ghost predicate Possible(s: State, run: seq<Step>)
    decreases |run|
  {
    run == [] || (Legal(s, run[0]) && Possible(Apply(s, run[0]), run[1..]))
  }

  ghost function After(s: State, run: seq<Step>): State
    requires Possible(s, run)
    decreases |run|
  {
    if run == [] then s else After(Apply(s, run[0]), run[1..])
  }

  lemma {:induction false} RunBalanced(s: State, run: seq<Step>, k: Key)
    requires BookInv(s) && Balanced(s, k) && Possible(s, run) && ExpireCounter(k) !in run
    requires forall i :: 0 <= i < |run| && run[i].Reserve? ==> SettlesExactly(run[i].grants, k)
    ensures Balanced(After(s, run), k)
    decreases |run|
  {
    if run != [] {
      StepBook(s, run[0]);
      StepBalanced(s, run[0], k);
      RunBalanced(Apply(s, run[0]), run[1..], k);
    }
  }

  /** Over every run of reserve, commit, release and expiry before counter k itself resets, k
      is the sum of what reservations have spent on it: costs while live or lapsed, the actual
      for committed token windows, nothing once released - except where a later window took
      the label, which is never given back. Only a counter that a repeated label leads to is
      left out. */
  lemma CountersMatchLedger(run: seq<Step>, k: Key)
    requires Possible(Empty, run) && ExpireCounter(k) !in run
    requires forall i :: 0 <= i < |run| && run[i].Reserve? ==> SettlesExactly(run[i].grants, k)
    ensures Value(After(Empty, run).counters, k) == Total(After(Empty, run).book, k)
  {
    RunBalanced(Empty, run, k);
  }

  /** Distinct labels make every counter match, and every release complete. */
  lemma DistinctSettlesExactly(a: Account, k: Key)
    requires DistinctLabels(a.grants)
    ensures SettlesExactly(a.grants, k) && Spent(Freed(a), k) == 0
  {
    NothingSpent(Freed(a), k, |a.grants|);
  }

  lemma {:induction false} NothingSpent(a: Account, k: Key, n: nat)
    requires a.status.Released? && n <= |a.grants|
    requires forall i :: 0 <= i < n && a.grants[i].key == k ==> Found(a.grants, i)
    ensures Share(a, k, n) == 0
  {
    if n > 0 {
      NothingSpent(a, k, n - 1);
    }
  }
}
