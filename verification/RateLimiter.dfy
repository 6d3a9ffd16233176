/** The gateway's per-user limiter over expiring Redis buckets (app/deps.py). One user's
    keys; every command answered. Window widths and the doubled TTL are the source's. */
module RateLimiter {
  import opened Common
  import opened SlidingWindow

  datatype Window = Rpm | Rph | Rpd

  function Width(w: Window): (width: int)
    ensures width > 0
  {
    match w
    case Rpm => 60
    case Rph => 3600
    case Rpd => 86400
  }

  const RATE_LIMIT_TTL_MULTIPLIER := 2

  datatype Bucket = Bucket(count: int, expiresAt: real)

  /** One window's buckets as stored, by the second they opened. */
  type Stored = map<int, Bucket>

  /** What a GET sees: nothing once the key has expired. */
  function Read(m: Stored, start: int, now: real): int {
    if start in m && now < m[start].expiresAt then m[start].count else 0
  }

  function Incr(m: Stored, start: int, now: real, width: int): Stored {
    m[start := Bucket(Read(m, start, now) + 1, now + (width * RATE_LIMIT_TTL_MULTIPLIER) as real)]
  }

  /** DECR keeps a live key's expiry. */
  function Decr(m: Stored, start: int, now: real): Stored
    requires start in m
  {
    m[start := Bucket(Read(m, start, now) - 1, m[start].expiresAt)]
  }

  /** The counts with expiry forgotten: what the arithmetic of SlidingWindow is about. */
  function Raw(m: Stored): Buckets {
    map s | s in m :: m[s].count
  }

  /** Every bucket was last written no earlier than it opened, so it outlives the next one. */
  predicate Outlives(m: Stored, width: int) {
    forall s :: s in m ==> m[s].expiresAt >= (s + RATE_LIMIT_TTL_MULTIPLIER * width) as real
  }

  /** The doubled TTL: both buckets a request interpolates between read their true count
      for as long as the current bucket lasts, so expiry never changes a decision. */
  lemma NeverExpiredEarly(m: Stored, width: int, now: real)
    requires width > 0 && now >= 0.0 && Outlives(m, width)
    ensures var start := BucketStart(now, width);
      var before := if start - width > 0 then start - width else 0;
      && Read(m, start, now) == At(Raw(m), start)
      && Read(Incr(m, start, now, width), before, now) == At(Raw(Incr(m, start, now, width)), before)
      && Raw(Incr(m, start, now, width)) == Raw(m)[start := At(Raw(m), start) + 1]
      && Outlives(Incr(m, start, now, width), width)
  {
    var start := BucketStart(now, width);
    var m' := Incr(m, start, now, width);
    assert (start + RATE_LIMIT_TTL_MULTIPLIER * width) as real <= now + (width * RATE_LIMIT_TTL_MULTIPLIER) as real;
    assert Raw(m') == Raw(m)[start := At(Raw(m), start) + 1];
  }

  /** What the store satisfies at an instant: buckets outlive the next one, none counts below
      zero, and none opened later than now. */
  predicate Sound(m: Stored, width: int, now: real)
    requires width > 0
  {
    && Outlives(m, width)
    && forall s :: s in m ==> m[s].count >= 0 && s <= BucketStart(now, width)
  }

  lemma SoundLater(m: Stored, width: int, now: real, later: real)
    requires width > 0 && now <= later && Sound(m, width, now)
    ensures Sound(m, width, later)
  {
    BucketMonotone(now, later, width);
  }

  datatype Check = Check(window: Window, limit: int)

  class RateLimiter {
    var store: map<Window, Stored>
    ghost var clock: real

    function Of(w: Window): Stored
      reads this
    {
      if w in store then store[w] else map[]
    }

    ghost predicate Valid()
      reads this
    {
      clock >= 0.0 && forall w :: Sound(Of(w), Width(w), clock)
    }

    constructor ()
      ensures Valid() && store == map[] && clock == 0.0
    {
      store, clock := map[], 0.0;
    }

    /** `_count` for one window: INCR, EXPIRE, GET. It agrees with the expiry-free count. */
    method CountOne(check: Check, now: real) returns (c: Counted)
      requires Valid() && now >= clock
      modifies this
      ensures Valid() && clock == now
      ensures (Raw(Of(check.window)), c) == CountOf(check, now, old(Raw(Of(check.window))))
      ensures c.start in Of(check.window) && At(Raw(Of(check.window)), c.start) >= 1
      ensures forall w :: w != check.window ==> Of(w) == old(Of(w))
    {
      hide BucketStart;
      var width := Width(check.window);
      var start := BucketStart(now, width);
      forall w ensures Sound(Of(w), Width(w), now) {
        SoundLater(Of(w), Width(w), clock, now);
      }
      NeverExpiredEarly(Of(check.window), width, now);
      var m := Incr(Of(check.window), start, now, width);
      var previous := Read(m, if start - width > 0 then start - width else 0, now);
      c := Counted(check.limit, width, start, previous, m[start].count);
      store := store[check.window := m];
      clock := now;
    }

    /** One DECR of `_refund`. */
    method RefundOne(w: Window, start: int, now: real)
      requires Valid() && now == clock && start in Of(w) && now < (start + Width(w)) as real
      requires At(Raw(Of(w)), start) >= 1
      modifies this
      ensures Valid() && clock == now
      ensures Raw(Of(w)) == Refund(old(Raw(Of(w))), start)
      ensures forall v :: v != w ==> Of(v) == old(Of(v))
    {
      hide BucketStart;
      assert Sound(Of(w), Width(w), now);
      var m := Decr(Of(w), start, now);
      assert Raw(m) == Refund(Raw(Of(w)), start);
      store := store[w := m];
    }

    /** `_count`: every window in turn. */
    method CountAll(checks: seq<Check>, now: real) returns (counted: seq<Counted>)
      requires Valid() && now >= clock && DistinctWindows(checks)
      modifies this
      ensures Valid() && (checks != [] ==> clock == now) && |counted| == |checks|
      ensures forall i :: 0 <= i < |checks| ==>
        CountedAs(checks[i], now, old(Raw(Of(checks[i].window))), Raw(Of(checks[i].window)), counted[i])
      ensures forall i :: 0 <= i < |checks| ==> Standing(counted[i].start, Of(checks[i].window))
      ensures forall w :: Untouched(checks, w) ==> Of(w) == old(Of(w))
    {
      hide Raw;
      hide Sound;
      hide Count;
      hide At;
      counted := [];
      for i := 0 to |checks|
        invariant Valid() && now >= clock && (i > 0 ==> clock == now) && |counted| == i
        invariant forall j :: 0 <= j < i ==>
          CountedAs(checks[j], now, old(Raw(Of(checks[j].window))), Raw(Of(checks[j].window)), counted[j])
        invariant forall j :: 0 <= j < i ==> Standing(counted[j].start, Of(checks[j].window))
        invariant forall w :: Untouched(checks[..i], w) ==> Of(w) == old(Of(w))
      {
        assert Untouched(checks[..i], checks[i].window);
        var c := CountOne(checks[i], now);
        counted := counted + [c];
        assert checks[..i + 1] == checks[..i] + [checks[i]];
      }
      assert checks[..|checks|] == checks;
    }

    /** `_refund`: every increment this request made. */
    method RefundAll(checks: seq<Check>, counted: seq<Counted>, now: real)
      requires Valid() && now == clock && DistinctWindows(checks) && |counted| == |checks|
      requires forall i :: 0 <= i < |checks| ==>
        Standing(counted[i].start, Of(checks[i].window)) && now < (counted[i].start + Width(checks[i].window)) as real
      modifies this
      ensures Valid() && clock == now
      ensures forall i :: 0 <= i < |checks| ==>
        Raw(Of(checks[i].window)) == Refund(old(Raw(Of(checks[i].window))), counted[i].start)
      ensures forall w :: Untouched(checks, w) ==> Of(w) == old(Of(w))
    {
      hide Raw;
      hide Sound;
      hide Refund;
      hide At;
      for i := 0 to |checks|
        invariant Valid() && clock == now
        invariant forall j :: 0 <= j < i ==>
          Raw(Of(checks[j].window)) == Refund(old(Raw(Of(checks[j].window))), counted[j].start)
        invariant forall w :: Untouched(checks[..i], w) ==> Of(w) == old(Of(w))
      {
        assert Untouched(checks[..i], checks[i].window);
        RefundOne(checks[i].window, counted[i].start, now);
        assert checks[..i + 1] == checks[..i] + [checks[i]];
      }
      assert checks[..|checks|] == checks;
    }

    /** `enforce` and `enforce_one`: count every window, and when one is over give every
        increment back. An admitted request is counted once everywhere; a refused one leaves
        every count as it was and is told exactly when the first window over will fit. */
    method Enforce(checks: seq<Check>, now: real) returns (refused: Option<int>)
      requires Valid() && now >= clock && DistinctWindows(checks)
      requires forall i :: 0 <= i < |checks| ==> checks[i].limit >= 1
      modifies this
      ensures Valid()
      ensures refused.None? ==> forall i :: 0 <= i < |checks| ==>
        Admits(checks[i], now, old(Raw(Of(checks[i].window)))) &&
        Raw(Of(checks[i].window)) == CountOf(checks[i], now, old(Raw(Of(checks[i].window)))).0
      ensures refused.Some? ==>
        exists i :: (&& 0 <= i < |checks|
                     && Refusal(checks[i], now, old(Raw(Of(checks[i].window))), refused.value)
                     && forall j :: 0 <= j < i ==> Admits(checks[j], now, old(Raw(Of(checks[j].window)))))
      ensures refused.Some? ==> forall w, s :: At(Raw(Of(w)), s) == old(At(Raw(Of(w)), s))
      ensures forall w :: Untouched(checks, w) ==> Of(w) == old(Of(w))
    {
      hide Over;
      hide RetryAfter;
      hide RetryFits;
      hide Raw;
      hide Sound;
      hide Count;
      hide Refund;
      hide At;
      var counted := CountAll(checks, now);
      var over := 0;
      while over < |counted| && !Over(counted[over], now)
        invariant 0 <= over <= |counted|
        invariant forall j :: 0 <= j < over ==> !Over(counted[j], now)
      {
        over := over + 1;
      }
      if over == |counted| {
        return None;
      }
      label counting:
      RefundAll(checks, counted, now);
      forall w, s ensures At(Raw(Of(w)), s) == old(At(Raw(Of(w)), s)) {
        if !Untouched(checks, w) {
          var i :| 0 <= i < |checks| && checks[i].window == w;
          RefundRestores(checks[i], now, old(Raw(Of(w))), old@counting(Raw(Of(w))), counted[i], s);
        }
      }
      refused := Some(RetryAfter(counted[over], now));
      ghost var w := checks[over].window;
      assert old(Sound(Of(w), Width(w), clock));
      ExactRefusal(checks[over], old(Of(w)), old(clock), now);
      assert Refusal(checks[over], now, old(Raw(Of(checks[over].window))), refused.value);
    }
  }

  /** An increment stands in this bucket. */
  predicate Standing(start: int, m: Stored) {
    start in m && At(Raw(m), start) >= 1
  }

  ghost predicate DistinctWindows(checks: seq<Check>) {
    forall i, j :: 0 <= i < j < |checks| ==> checks[i].window != checks[j].window
  }

  ghost predicate Untouched(checks: seq<Check>, w: Window) {
    forall i :: 0 <= i < |checks| ==> checks[i].window != w
  }

  /** The expiry-free count of one window. */
  function CountOf(check: Check, now: real, b: Buckets): (Buckets, Counted) {
    Count(b, check.limit, Width(check.window), now)
  }

  ghost predicate CountedAs(check: Check, now: real, before: Buckets, after: Buckets, c: Counted) {
    (after, c) == CountOf(check, now, before)
  }

  /** A refund undoes the count, bucket by bucket. */
  lemma RefundRestores(check: Check, now: real, before: Buckets, after: Buckets, c: Counted, s: int)
    requires CountedAs(check, now, before, after, c)
    ensures At(Refund(after, c.start), s) == At(before, s)
  {
  }

  predicate Admits(check: Check, now: real, b: Buckets) {
    !Over(CountOf(check, now, b).1, now)
  }

  /** Over, and a retry fits after exactly that many seconds and no fewer. */
  ghost predicate Refusal(check: Check, now: real, b: Buckets, after: int) {
    && !Admits(check, now, b) && after >= 1
    && RetryFits(b, check.limit, Width(check.window), now, after)
    && forall n :: 1 <= n < after ==> !RetryFits(b, check.limit, Width(check.window), now, n)
  }

  /** In a sound store what `_retry_after_s` returns is that number. */
  lemma ExactRefusal(check: Check, m: Stored, clock: real, now: real)
    requires check.limit >= 1 && 0.0 <= clock <= now && Sound(m, Width(check.window), clock)
    requires !Admits(check, now, Raw(m))
    ensures Refusal(check, now, Raw(m), RetryAfter(CountOf(check, now, Raw(m)).1, now))
  {
    hide Over;
    hide RetryAfter;
    hide RetryFits;
    hide Count;
    SoundLater(m, Width(check.window), clock, now);
    assert Rejected(Raw(m), check.limit, Width(check.window), now);
    RetryAfterExact(Raw(m), check.limit, Width(check.window), now);
  }
}
