/** How the protocol decides: by what a request read, and, if nobody interleaves with it, as the
    sliding window's own arithmetic decides (app/deps.py). */
module RateLimitDecisions {
  import opened Common
  import opened SlidingWindow
  import opened RateLimiter
  import opened RateLimitProtocol

  /** For every interleaving, a request is let through exactly when in each of its windows what
      it read of the previous bucket, weighted by what is left of this one, and the place its
      own increment took together fit the limit. */
  lemma DecidedByWhatItRead(run: seq<Step>, limits: Window -> int, id: nat)
    requires Possible(Empty, run, limits) && id in After(Empty, run, limits).requests
    requires !After(Empty, run, limits).requests[id].verdict.Undecided?
    ensures var q := After(Empty, run, limits).requests[id];
      && |q.currents| == |q.previous| == |q.elapsed| == |q.keys|
      && (q.verdict.Admitted? <==> forall i :: 0 <= i < |q.keys| ==>
           && 0.0 <= q.elapsed[i] <= 1.0
           && SlidingCount(q.previous[i], q.currents[i], q.elapsed[i]) <= limits(q.keys[i].window) as real)
  {
    ReachableInv(run, limits);
    var q := After(Empty, run, limits).requests[id];
    hide After;
    hide Possible;
    assert WellFormed(q) && DecidedRight(q, limits);
    hide SlidingCount;
    assert forall i: nat :: i < |q.keys| ==> (FitsWindow(q, i, limits) <==>
      SlidingCount(q.previous[i], q.currents[i], q.elapsed[i]) <= limits(q.keys[i].window) as real);
  }

  /** One window's buckets in the shared counts. */
  function BucketsOf(s: State, w: Window): Buckets {
    map k | k in s.counts && k.window == w :: k.start := s.counts[k]
  }

  lemma TwoMore(s: State, a: Step, b: Step, rest: seq<Step>, limits: Window -> int)
    requires Enabled(s, a) && Enabled(Apply(s, a, limits), b)
    requires Possible(Apply(Apply(s, a, limits), b, limits), rest, limits)
    ensures Possible(s, [a, b] + rest, limits)
    ensures After(s, [a, b] + rest, limits) == After(Apply(Apply(s, a, limits), b, limits), rest, limits)
  {
    hide Enabled;
    hide Apply;
    var run := [a, b] + rest;
    assert run[1..] == [b] + rest && run[1..][1..] == rest;
  }

  /** What a GET of the previous bucket finds once bucket k has been incremented. */
  function PreviousAfter(s: State, k: Key): int {
    if Previous(k) == k then Value(s, k) + 1 else Value(s, Previous(k))
  }

  /** The request as it stands before it is decided. */
  function Ready(s: State, k: Key, elapsed: real): Request {
    Request([k], [elapsed], [Value(s, k) + 1], [PreviousAfter(s, k)], Undecided, 0, {})
  }

  lemma AloneReads(s: State, id: nat, k: Key, elapsed: real, limits: Window -> int) returns (s1: State, s2: State, s3: State)
    requires id !in s.requests && 0.0 <= elapsed <= 1.0
    ensures Enabled(s, Begin(id, [k], [elapsed])) && s1 == Apply(s, Begin(id, [k], [elapsed]), limits)
    ensures Enabled(s1, IncrNext(id)) && s2 == Apply(s1, IncrNext(id), limits)
    ensures Enabled(s2, GetNext(id)) && s3 == Apply(s2, GetNext(id), limits) && Enabled(s3, Decide(id))
    ensures id in s3.requests && s3.requests[id] == Ready(s, k, elapsed)
  {
    s1 := Apply(s, Begin(id, [k], [elapsed]), limits);
    assert Value(s1, k) == Value(s, k);
    s2 := Apply(s1, IncrNext(id), limits);
    assert Value(s2, Previous(k)) == PreviousAfter(s, k);
    hide Previous;
    s3 := Apply(s2, GetNext(id), limits);
  }

  lemma ReadyFits(s: State, k: Key, elapsed: real, limits: Window -> int)
    requires 0.0 <= elapsed <= 1.0
    ensures AllFit(Ready(s, k, elapsed), limits) <==>
      SlidingCount(PreviousAfter(s, k), Value(s, k) + 1, elapsed) <= limits(k.window) as real
  {
    hide PreviousAfter;
    hide SlidingCount;
    var q := Ready(s, k, elapsed);
    assert AllFit(q, limits) <==> FitsWindow(q, 0, limits);
  }

  /** The sliding window reads the same two numbers from the shared counts. */
  lemma CountReads(s: State, w: Window, now: real, limit: int)
    requires now >= 0.0
    ensures var k := Key(w, BucketStart(now, Width(w)));
      Count(BucketsOf(s, w), limit, Width(w), now).1
        == Counted(limit, Width(w), k.start, PreviousAfter(s, k), Value(s, k) + 1)
  {
    hide BucketStart;
    forall start ensures At(BucketsOf(s, w), start) == Value(s, Key(w, start)) {
      assert Key(w, start) in s.counts <==> start in BucketsOf(s, w);
    }
  }

  function AloneRun(id: nat, k: Key, elapsed: real): seq<Step> {
    [Begin(id, [k], [elapsed]), IncrNext(id)] + [GetNext(id), Decide(id)]
  }

  lemma AloneDecides(s: State, id: nat, k: Key, elapsed: real, limits: Window -> int)
    requires id !in s.requests && 0.0 <= elapsed <= 1.0
    ensures Possible(s, AloneRun(id, k, elapsed), limits)
    ensures id in After(s, AloneRun(id, k, elapsed), limits).requests
    ensures After(s, AloneRun(id, k, elapsed), limits).requests[id].verdict ==
      if AllFit(Ready(s, k, elapsed), limits) then Admitted else Rejected
  {
    hide AllFit;
    hide Ready;
    var _, s2, s3 := AloneReads(s, id, k, elapsed, limits);
    var s4 := Apply(s3, Decide(id), limits);
    assert s4.requests[id].verdict == if AllFit(s3.requests[id], limits) then Admitted else Rejected;
    hide Apply;
    hide Enabled;
    assert After(s4, [], limits) == s4 && Possible(s4, [], limits);
    hide After;
    hide Possible;
    var last := [GetNext(id), Decide(id)];
    TwoMore(s2, GetNext(id), Decide(id), [], limits);
    assert last + [] == last;
    TwoMore(s, Begin(id, [k], [elapsed]), IncrNext(id), last, limits);
  }

  /** With nobody in between, a request with one window is decided as the sliding window itself
      decides it from the shared counts. */
  lemma AloneAgrees(s: State, id: nat, w: Window, now: real, limits: Window -> int)
    requires id !in s.requests && now >= 0.0
    ensures var start := BucketStart(now, Width(w));
      var run := AloneRun(id, Key(w, start), Elapsed(now, start, Width(w)));
      && Possible(s, run, limits) && id in After(s, run, limits).requests
      && (After(s, run, limits).requests[id].verdict ==
          if Over(Count(BucketsOf(s, w), limits(w), Width(w), now).1, now) then Rejected else Admitted)
  {
    hide BucketStart;
    hide Elapsed;
    hide Count;
    hide PreviousAfter;
    hide SlidingCount;
    hide After;
    hide Possible;
    hide AllFit;
    hide AloneRun;
    var start := BucketStart(now, Width(w));
    var k, f := Key(w, start), Elapsed(now, start, Width(w));
    AloneDecides(s, id, k, f, limits);
    ReadyFits(s, k, f, limits);
    CountReads(s, w, now, limits(w));
  }
}
