/** The limiter as a concurrent protocol: many requests of one user counting, deciding and
    refunding in any interleaving, Redis answering (app/deps.py). Every INCR and every GET of
    the pipeline, which is no transaction, is a step of its own, and so are a request's
    decision and each of its refunds. EXPIRE changes no count. A refund step may fail. */
module RateLimitProtocol {
  import opened Common
  import opened SlidingWindow
  import opened RateLimiter

  datatype Key = Key(window: Window, start: int)

  function Previous(k: Key): Key {
    Key(k.window, if k.start - Width(k.window) > 0 then k.start - Width(k.window) else 0)
  }

  datatype Verdict = Undecided | Admitted | Rejected

  /** One request: the buckets it counts into, what it read from each, its verdict, how many
      refunds were attempted and which of them went through. */
  datatype Request = Request(
    keys: seq<Key>, elapsed: seq<real>, currents: seq<int>, previous: seq<int>,
    verdict: Verdict, tried: nat, undone: set<nat>)

  datatype State = State(counts: map<Key, int>, requests: map<nat, Request>)

  datatype Step =
    | Begin(id: nat, keys: seq<Key>, elapsed: seq<real>)
    | IncrNext(id: nat)
    | GetNext(id: nat)
    | Decide(id: nat)
    | RefundNext(id: nat, ok: bool)

  const Empty := State(map[], map[])

  function Value(s: State, k: Key): int {
    if k in s.counts then s.counts[k] else 0
  }

  /** `window.count <= window.limit` for the i-th window. */
  predicate FitsWindow(q: Request, i: nat, limits: Window -> int) {
    && i < |q.keys| && i < |q.elapsed| && i < |q.currents| && i < |q.previous|
    && 0.0 <= q.elapsed[i] <= 1.0
    && SlidingCount(q.previous[i], q.currents[i], q.elapsed[i]) <= limits(q.keys[i].window) as real
  }

  predicate AllFit(q: Request, limits: Window -> int) {
    forall i :: 0 <= i < |q.keys| ==> FitsWindow(q, i, limits)
  }

  ghost predicate WellFormed(q: Request) {
    && Distinct(q.keys)
    && |q.elapsed| == |q.keys| && |q.previous| <= |q.currents| <= |q.keys|
    && (forall i :: 0 <= i < |q.elapsed| ==> 0.0 <= q.elapsed[i] <= 1.0)
    && (forall i :: 0 <= i < |q.previous| ==> q.previous[i] >= 0)
    && (q.verdict != Undecided ==> |q.previous| == |q.currents| == |q.keys|)
    && (q.verdict != Rejected ==> q.tried == 0)
    && q.tried <= |q.currents|
    && (forall i :: i in q.undone ==> i < q.tried)
  }

  ghost predicate Enabled(s: State, step: Step) {
    match step
    case Begin(id, keys, elapsed) =>
      && id !in s.requests && Distinct(keys) && |elapsed| == |keys|
      && forall i :: 0 <= i < |elapsed| ==> 0.0 <= elapsed[i] <= 1.0
    case IncrNext(id) =>
      id in s.requests && var q := s.requests[id];
        q.verdict.Undecided? && |q.previous| == |q.currents| < |q.keys|
    case GetNext(id) =>
      id in s.requests && var q := s.requests[id];
        q.verdict.Undecided? && |q.previous| < |q.currents| <= |q.keys|
    case Decide(id) =>
      id in s.requests && var q := s.requests[id]; q.verdict.Undecided? && |q.previous| == |q.keys|
    case RefundNext(id, _) =>
      id in s.requests && var q := s.requests[id]; q.verdict.Rejected? && q.tried < |q.keys|
  }

  ghost function Apply(s: State, step: Step, limits: Window -> int): State
    requires Enabled(s, step)
  {
    match step
    case Begin(id, keys, elapsed) =>
      s.(requests := s.requests[id := Request(keys, elapsed, [], [], Undecided, 0, {})])
    case IncrNext(id) =>
      var q := s.requests[id];
      var k := q.keys[|q.currents|];
      State(s.counts[k := Value(s, k) + 1], s.requests[id := q.(currents := q.currents + [Value(s, k) + 1])])
    case GetNext(id) =>
      var q := s.requests[id];
      s.(requests := s.requests[id := q.(previous := q.previous + [Value(s, Previous(q.keys[|q.previous|]))])])
    case Decide(id) =>
      var q := s.requests[id];
      s.(requests := s.requests[id := q.(verdict := if AllFit(q, limits) then Admitted else Rejected)])
    case RefundNext(id, ok) =>
      var q := s.requests[id];
      if ok then
        var k := q.keys[q.tried];
        State(s.counts[k := Value(s, k) - 1], s.requests[id := q.(tried := q.tried + 1, undone := q.undone + {q.tried})])
      else
        s.(requests := s.requests[id := q.(tried := q.tried + 1)])
  }

  // ----- who a bucket counts ---------------------------------------------------

  /** The request's increment of bucket k stands: made, and not taken back. */
  ghost predicate Holds(q: Request, k: Key) {
    exists i :: 0 <= i < |q.currents| && i < |q.keys| && q.keys[i] == k && i !in q.undone
  }

  /** The request counted into k and was not told no by it. */
  ghost predicate Contends(q: Request, k: Key, limit: int) {
    !q.verdict.Rejected? &&
    exists i :: 0 <= i < |q.currents| && i < |q.keys| && q.keys[i] == k && q.currents[i] <= limit
  }

  ghost function Holders(s: State, k: Key): set<nat> {
    set id | id in s.requests && Holds(s.requests[id], k)
  }

  ghost function Contenders(s: State, k: Key, limit: int): set<nat> {
    set id | id in s.requests && Contends(s.requests[id], k, limit)
  }

  ghost function HoldersWith(s: State, k: Key, v: Verdict): set<nat> {
    set id | id in Holders(s, k) && s.requests[id].verdict == v
  }

  /** Admitted if all fit, rejected if not. */
  ghost predicate DecidedRight(q: Request, limits: Window -> int) {
    && (q.verdict.Admitted? ==> AllFit(q, limits))
    && (q.verdict.Rejected? ==> !AllFit(q, limits))
  }

  /** What every reachable state satisfies. */
  ghost predicate Inv(s: State, limits: Window -> int) {
    && (forall id :: id in s.requests ==> WellFormed(s.requests[id]))
    && (forall id :: id in s.requests ==> DecidedRight(s.requests[id], limits))
    && (forall k :: Value(s, k) == |Holders(s, k)|)
    && (forall k :: Crowd(s, k, limits) <= Max(0, limits(k.window)))
  }

  ghost function Crowd(s: State, k: Key, limits: Window -> int): nat {
    |Contenders(s, k, limits(k.window))|
  }

  // ----- every run -------------------------------------------------------------

  ghost predicate Possible(s: State, run: seq<Step>, limits: Window -> int)
    decreases |run|
  {
    run == [] || (Enabled(s, run[0]) && Possible(Apply(s, run[0], limits), run[1..], limits))
  }

  ghost function After(s: State, run: seq<Step>, limits: Window -> int): State
    requires Possible(s, run, limits)
    decreases |run|
  {
    if run == [] then s else After(Apply(s, run[0], limits), run[1..], limits)
  }

  /** For every interleaving, the requests admitted in one bucket never exceed its limit. */
  lemma AdmittedWithinLimit(run: seq<Step>, limits: Window -> int, k: Key)
    requires Possible(Empty, run, limits)
    ensures |HoldersWith(After(Empty, run, limits), k, Admitted)| <= Max(0, limits(k.window))
  {
    ReachableInv(run, limits);
    var s := After(Empty, run, limits);
    var limit := limits(k.window);
    forall id | id in HoldersWith(s, k, Admitted) ensures id in Contenders(s, k, limit) {
      var q := s.requests[id];
      assert WellFormed(q) && DecidedRight(q, limits);
      var i :| 0 <= i < |q.currents| && i < |q.keys| && q.keys[i] == k && i !in q.undone;
      assert FitsWindow(q, i, limits);
      FitsAlone(q.previous[i], q.currents[i], q.elapsed[i], limit);
    }
    assert Crowd(s, k, limits) <= Max(0, limit);
    SubsetSize(HoldersWith(s, k, Admitted), Contenders(s, k, limit));
  }

  ghost predicate RefundsWentThrough(s: State) {
    forall id, i :: id in s.requests && s.requests[id].verdict.Rejected? && 0 <= i < |s.requests[id].keys| ==>
      i in s.requests[id].undone
  }

  /** For every interleaving, a bucket counts the admitted, the undecided, and the rejected
      whose refund has not gone through; with those all refunded, exactly the first two. */
  lemma BucketAccounting(run: seq<Step>, limits: Window -> int, k: Key)
    requires Possible(Empty, run, limits)
    ensures var s := After(Empty, run, limits);
      && Value(s, k) == |HoldersWith(s, k, Admitted)| + |HoldersWith(s, k, Undecided)| + |HoldersWith(s, k, Rejected)|
      && (RefundsWentThrough(s) ==> HoldersWith(s, k, Rejected) == {})
  {
    ReachableInv(run, limits);
    var s := After(Empty, run, limits);
    hide After;
    assert Value(s, k) == |Holders(s, k)|;
    var a, u, r := HoldersWith(s, k, Admitted), HoldersWith(s, k, Undecided), HoldersWith(s, k, Rejected);
    SizeOfThree(Holders(s, k), a, u, r) by {
      hide Holds;
    }
    if RefundsWentThrough(s) {
      forall id | id in s.requests && s.requests[id].verdict.Rejected? ensures id !in r {
        assert WellFormed(s.requests[id]);
      }
    }
  }

  // ----- what every step keeps -------------------------------------------------

  /** Every reachable state satisfies the invariant. */
  lemma ReachableInv(run: seq<Step>, limits: Window -> int)
    requires Possible(Empty, run, limits)
    ensures Inv(After(Empty, run, limits), limits)
  {
    forall k ensures Value(Empty, k) == |Holders(Empty, k)| && Crowd(Empty, k, limits) <= Max(0, limits(k.window)) {
      assert Holders(Empty, k) == {} && Contenders(Empty, k, limits(k.window)) == {};
    }
    RunInv(Empty, run, limits);
  }

  lemma {:induction false} RunInv(s: State, run: seq<Step>, limits: Window -> int)
    requires Inv(s, limits) && Possible(s, run, limits)
    ensures Inv(After(s, run, limits), limits)
    decreases |run|
  {
    if run != [] {
      StepInv(s, run[0], limits);
      RunInv(Apply(s, run[0], limits), run[1..], limits);
    }
  }

  /** A contender's increment stands. */
  lemma ContendersHold(s: State, k: Key, limit: int)
    requires forall id :: id in s.requests ==> WellFormed(s.requests[id])
    ensures Contenders(s, k, limit) <= Holders(s, k)
  {
    forall id | id in Contenders(s, k, limit) ensures id in Holders(s, k) {
      var q := s.requests[id];
      assert WellFormed(q);
      var i :| 0 <= i < |q.currents| && i < |q.keys| && q.keys[i] == k && q.currents[i] <= limit;
      assert i !in q.undone;
    }
  }

  /** Changing one request changes each bucket's holders by at most that request. */
  lemma HoldersAfter(s: State, s': State, id: nat, k: Key)
    requires id in s'.requests && s'.requests == s.requests[id := s'.requests[id]]
    ensures var now := Holds(s'.requests[id], k);
      var was := id in s.requests && Holds(s.requests[id], k);
      |Holders(s', k)| == |Holders(s, k)| + (if now then 1 else 0) - (if was then 1 else 0)
  {
    hide Holds;
    assert Holders(s', k) - {id} == Holders(s, k) - {id};
    SizeButOne(Holders(s', k), id);
    SizeButOne(Holders(s, k), id);
  }

  /** Bucket values keep counting exactly the increments that stand. */
  lemma StepCounts(s: State, step: Step, limits: Window -> int, k: Key)
    requires Inv(s, limits) && Enabled(s, step)
    ensures Value(Apply(s, step, limits), k) == |Holders(Apply(s, step, limits), k)|
  {
    var s' := Apply(s, step, limits);
    HoldersAfter(s, s', step.id, k);
    assert Value(s, k) == |Holders(s, k)|;
    match step
    case Begin(id, _, _) =>
      assert !Holds(s'.requests[id], k);
    case IncrNext(id) =>
      CountHolds(s.requests[id], s'.requests[id], k);
    case GetNext(id) =>
    case Decide(id) =>
    case RefundNext(id, ok) =>
      if ok {
        RefundHolds(s.requests[id], s'.requests[id], k);
      }
  }

  lemma StepWellFormed(s: State, step: Step, limits: Window -> int)
    requires Inv(s, limits) && Enabled(s, step)
    ensures forall id :: id in Apply(s, step, limits).requests ==> WellFormed(Apply(s, step, limits).requests[id])
    ensures forall id :: id in Apply(s, step, limits).requests ==> DecidedRight(Apply(s, step, limits).requests[id], limits)
  {
    var s' := Apply(s, step, limits);
    RequestStep(s, step, limits);
    hide WellFormed;
    hide DecidedRight;
    forall id | id in s'.requests
      ensures WellFormed(s'.requests[id])
      ensures DecidedRight(s'.requests[id], limits)
    {
      if id != step.id {
        assert s'.requests[id] == s.requests[id];
      }
    }
  }

  /** The request that takes the step stays well formed, and admitted only if it fits. */
  lemma RequestStep(s: State, step: Step, limits: Window -> int)
    requires Inv(s, limits) && Enabled(s, step)
    ensures step.id in Apply(s, step, limits).requests
    ensures var q := Apply(s, step, limits).requests[step.id];
      WellFormed(q) && DecidedRight(q, limits)
  {
    hide FitsWindow;
    if step.GetNext? {
      var k := Previous(s.requests[step.id].keys[|s.requests[step.id].previous|]);
      assert Value(s, k) == |Holders(s, k)|;
    }
    hide Holders;
    hide Contenders;
    if step.id in s.requests {
      var q := s.requests[step.id];
      assert WellFormed(q) && DecidedRight(q, limits);
      if step.RefundNext? || step.Decide? {
        SameReads(q, Apply(s, step, limits).requests[step.id], limits);
      }
    }
  }

  /** Once a request has counted, nobody new contends unless the bucket still had room. */
  lemma StepCrowd(s: State, step: Step, limits: Window -> int, k: Key)
    requires Inv(s, limits) && Enabled(s, step)
    ensures Crowd(Apply(s, step, limits), k, limits) <= Max(0, limits(k.window))
  {
    var s' := Apply(s, step, limits);
    var limit := limits(k.window);
    StepWellFormed(s, step, limits);
    assert Crowd(s, k, limits) <= Max(0, limit);
    if step.IncrNext? && step.id in Contenders(s', k, limit) && step.id !in Contenders(s, k, limit) {
      NewContender(s.requests[step.id], s'.requests[step.id], k, limit);
      StepCounts(s, step, limits, k);
      ContendersHold(s', k, limit);
      SubsetSize(Contenders(s', k, limit), Holders(s', k));
    } else {
      forall id | id in Contenders(s', k, limit) ensures id in Contenders(s, k, limit) {
        if id != step.id {
          assert s'.requests[id] == s.requests[id];
        }
      }
      SubsetSize(Contenders(s', k, limit), Contenders(s, k, limit));
    }
  }

  lemma StepInv(s: State, step: Step, limits: Window -> int)
    requires Inv(s, limits) && Enabled(s, step)
    ensures Inv(Apply(s, step, limits), limits)
  {
    StepWellFormed(s, step, limits);
    var s' := Apply(s, step, limits);
    forall k ensures Value(s', k) == |Holders(s', k)| {
      StepCounts(s, step, limits, k);
    }
    forall k ensures Crowd(s', k, limits) <= Max(0, limits(k.window)) {
      StepCrowd(s, step, limits, k);
    }
  }

  // ----- supporting facts ------------------------------------------------------

  lemma SubsetSize(a: set<nat>, b: set<nat>)
    requires a <= b
    ensures |a| <= |b|
  {
    assert b == a + (b - a);
  }

  lemma SizeButOne(a: set<nat>, id: nat)
    ensures |a| == |a - {id}| + if id in a then 1 else 0
  {
    if id in a {
      assert a == (a - {id}) + {id};
    } else {
      assert a == a - {id};
    }
  }

  lemma SizeOfThree(all: set<nat>, a: set<nat>, b: set<nat>, c: set<nat>)
    requires all == a + b + c && a !! b !! c
    ensures |all| == |a| + |b| + |c|
  {
  }

  lemma CountHolds(q: Request, q': Request, k: Key)
    requires WellFormed(q) && q.verdict.Undecided? && |q.currents| < |q.keys|
    requires q'.keys == q.keys && q'.undone == q.undone && |q'.currents| == |q.currents| + 1
    ensures Holds(q', k) <==> Holds(q, k) || k == q.keys[|q.currents|]
    ensures k == q.keys[|q.currents|] ==> !Holds(q, k)
  {
    var n := |q.currents|;
    if k == q.keys[n] {
      assert n !in q'.undone;
    }
    if Holds(q, k) {
      var i :| 0 <= i < |q.currents| && q.keys[i] == k && i !in q.undone;
      assert q'.keys[i] == k;
    }
  }

  lemma RefundHolds(q: Request, q': Request, k: Key)
    requires WellFormed(q) && q.verdict.Rejected? && q.tried < |q.keys|
    requires q'.keys == q.keys && q'.currents == q.currents && q'.undone == q.undone + {q.tried}
    ensures Holds(q', k) <==> Holds(q, k) && k != q.keys[q.tried]
    ensures Holds(q, q.keys[q.tried])
  {
    assert q.tried !in q.undone;
    if Holds(q, k) && k != q.keys[q.tried] {
      var i :| 0 <= i < |q.currents| && i < |q.keys| && q.keys[i] == k && i !in q.undone;
      assert q'.keys[i] == k && i !in q'.undone;
    }
  }

  /** Whether a request fits is a matter of what it read, not of its verdict or refunds. */
  lemma SameReads(q: Request, q': Request, limits: Window -> int)
    requires q'.keys == q.keys && q'.elapsed == q.elapsed && q'.currents == q.currents && q'.previous == q.previous
    ensures AllFit(q', limits) <==> AllFit(q, limits)
  {
    assert forall i: nat :: FitsWindow(q', i, limits) <==> FitsWindow(q, i, limits);
  }

  /** Fitting the interpolated count means fitting the bucket alone. */
  lemma FitsAlone(previous: int, current: int, elapsed: real, limit: int)
    requires previous >= 0 && 0.0 <= elapsed <= 1.0
    requires SlidingCount(previous, current, elapsed) <= limit as real
    ensures current <= limit
  {
    assert previous as real * (1.0 - elapsed) >= 0.0;
  }

  /** A request that only now contends read its place from the bucket, within the limit. */
  lemma NewContender(q: Request, q': Request, k: Key, limit: int)
    requires !Contends(q, k, limit) && Contends(q', k, limit) && q.verdict == q'.verdict
    requires q'.keys == q.keys && |q.currents| < |q.keys|
    requires |q'.currents| == |q.currents| + 1 && q'.currents[..|q.currents|] == q.currents
    ensures q.keys[|q.currents|] == k && q'.currents[|q.currents|] <= limit
  {
    assert forall i :: 0 <= i < |q.currents| ==> q.currents[i] == q'.currents[..|q.currents|][i];
  }
}
