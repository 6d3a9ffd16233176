/** The two-bucket sliding window and its Retry-After (app/quota/windows.py, app/deps.py).
    Times are reals: floating-point rounding is not modelled. */
module SlidingWindow {

  /** Requests counted per bucket, by the epoch second the bucket opened. */
  type Buckets = map<int, int>

  function At(b: Buckets, start: int): int {
    if start in b then b[start] else 0
  }

  /** `previous * (1 - elapsed) + current`. */
  function SlidingCount(previous: int, current: int, elapsed: real): real
    requires 0.0 <= elapsed <= 1.0
  {
    previous as real * (1.0 - elapsed) + current as real
  }

  /** Between counting both buckets in full and only the current one, in proportion. */
  lemma SlidingCountInterpolates(previous: int, current: int, elapsed: real)
    requires 0.0 <= elapsed <= 1.0
    ensures SlidingCount(previous, current, elapsed)
      == (1.0 - elapsed) * (previous + current) as real + elapsed * current as real
  {
    var p, c := previous as real, current as real;
    assert (1.0 - elapsed) * (p + c) == p * (1.0 - elapsed) + c - elapsed * c;
  }

  /** `int(now // width) * width`. */
  function BucketStart(now: real, width: int): (start: int)
    requires width > 0
    ensures start as real <= now < (start + width) as real
  {
    var q := (now / width as real).Floor;
    FloorBounds(now, width, q);
    q * width
  }

  lemma FloorBounds(now: real, width: int, q: int)
    requires width > 0 && q == (now / width as real).Floor
    ensures (q * width) as real <= now < (q * width + width) as real
  {
    var w, r := width as real, q as real;
    var x := now / w;
    assert now == x * w;
    Scale(r, x, w);
    Scale(x, r + 1.0, w);
    assert r * w <= now < (r + 1.0) * w;
    assert (r + 1.0) * w == r * w + w;
    assert (q * width) as real == r * w;
  }

  lemma Scale(a: real, b: real, w: real)
    requires w > 0.0
    ensures a < b ==> a * w < b * w
    ensures a <= b ==> a * w <= b * w
  {
  }

  /** How far into its bucket an instant is. */
  function Elapsed(now: real, start: int, width: int): (f: real)
    requires width > 0 && start as real <= now < (start + width) as real
    ensures 0.0 <= f < 1.0
    ensures f * width as real == now - start as real
  {
    var w := width as real;
    var f := (now - start as real) / w;
    assert f * w == now - start as real;
    f
  }

  /** One window after a request was counted into it. */
  datatype Counted = Counted(limit: int, width: int, start: int, previous: int, current: int)

  /** `_count` for one window: increment the current bucket, read the previous one. */
  function Count(b: Buckets, limit: int, width: int, now: real): (r: (Buckets, Counted))
    requires width > 0
    ensures r.1.limit == limit && r.1.width == width
    ensures r.1.start as real <= now < (r.1.start + width) as real
    ensures r.1.current == At(b, r.1.start) + 1
    ensures r.1.start >= width ==> r.1.previous == At(b, r.1.start - width)
  {
    var start := BucketStart(now, width);
    var b' := b[start := At(b, start) + 1];
    var before := if start - width > 0 then start - width else 0;
    (b', Counted(limit, width, start, At(b', before), b'[start]))
  }

  function Refund(b: Buckets, start: int): Buckets {
    b[start := At(b, start) - 1]
  }

  predicate Over(c: Counted, now: real)
    requires c.width > 0 && c.start as real <= now < (c.start + c.width) as real
  {
    SlidingCount(c.previous, c.current, Elapsed(now, c.start, c.width)) > c.limit as real
  }

  function Ceil(x: real): (n: int)
    ensures n as real - 1.0 < x <= n as real
  {
    -((-x).Floor)
  }

  function AtLeastOne(seconds: real): int {
    if Ceil(seconds) > 1 then Ceil(seconds) else 1
  }

  /** The rejected bucket as the next one will see it, and what the limit leaves for it. */
  function Carried(c: Counted): int {
    if c.current - 1 > 0 then c.current - 1 else 0
  }

  /** `_retry_after_s`. */
  function RetryAfter(c: Counted, now: real): int
    requires c.width > 0 && c.limit >= 1
  {
    var w := c.width as real;
    if c.previous > 0 && c.current <= c.limit &&
       (c.previous + c.current - c.limit) as real / c.previous as real <= 1.0 then
      AtLeastOne(c.start as real + (c.previous + c.current - c.limit) as real / c.previous as real * w - now)
    else
      var nextStart := (c.start + c.width) as real;
      if Carried(c) > c.limit - 1 then
        AtLeastOne(nextStart + (1.0 - (c.limit - 1) as real / Carried(c) as real) * w - now)
      else
        AtLeastOne(nextStart - now)
  }

  /** Would a request at t be let through, given nothing else was counted? */
  predicate FitsAt(b: Buckets, limit: int, width: int, t: real)
    requires width > 0
  {
    !Over(Count(b, limit, width, t).1, t)
  }

  // ----- arithmetic ------------------------------------------------------------

  /** The bucket an instant belongs to is the only one of the grid that contains it. */
  lemma BucketUnique(now: real, t: real, width: int, steps: int)
    requires width > 0
    requires var s := BucketStart(now, width) + steps * width; s as real <= t < (s + width) as real
    ensures BucketStart(t, width) == BucketStart(now, width) + steps * width
  {
    var q, r := (now / width as real).Floor, (t / width as real).Floor;
    assert q * width + steps * width == (q + steps) * width;
    MultiplesApart(q + steps, r, width);
    MultiplesApart(r, q + steps, width);
  }

  /** Buckets open in the order of time. */
  lemma BucketMonotone(a: real, b: real, width: int)
    requires width > 0 && a <= b
    ensures BucketStart(a, width) <= BucketStart(b, width)
  {
    MultiplesApart((a / width as real).Floor, (b / width as real).Floor, width);
  }

  lemma MultiplesApart(a: int, b: int, width: int)
    requires width > 0
    ensures a > b ==> a * width >= b * width + width
  {
    if a > b {
      var d := a - b - 1;
      assert a * width == b * width + width + d * width;
    }
  }

  /** An interpolated count fits exactly from the solved instant on. */
  lemma FitsFromSolved(previous: int, current: int, limit: int, start: int, width: int, t: real)
    requires previous > 0 && width > 0 && start as real <= t < (start + width) as real
    ensures SlidingCount(previous, current, Elapsed(t, start, width)) <= limit as real
       <==> t >= start as real + (previous + current - limit) as real / previous as real * width as real
  {
    var p, w, f := previous as real, width as real, Elapsed(t, start, width);
    var needed := (previous + current - limit) as real / p;
    assert needed * p == (previous + current - limit) as real;
    Scale(f, needed, p);
    Scale(needed, f, p);
    Scale(f, needed, w);
    Scale(needed, f, w);
    assert p * (1.0 - f) == p - p * f;
  }

  // ----- the theorem -----------------------------------------------------------

  /** No request has been counted into a bucket that has not opened yet. */
  predicate NothingAhead(b: Buckets, start: int) {
    forall s :: s in b && s > start ==> b[s] == 0
  }

  /** Everything the two cases below start from: counted, over, refunded, nothing ahead. */
  ghost predicate Rejected(b: Buckets, limit: int, width: int, now: real) {
    && width > 0 && limit >= 1 && now >= 0.0
    && (forall s :: s in b ==> b[s] >= 0)
    && NothingAhead(b, BucketStart(now, width))
    && Over(Count(b, limit, width, now).1, now)
  }

  /** The store the rejected request leaves behind. */
  function AfterRefund(b: Buckets, limit: int, width: int, now: real): Buckets
    requires width > 0
  {
    Refund(Count(b, limit, width, now).0, BucketStart(now, width))
  }

  /** Does a retry n seconds after the rejection fit? */
  predicate RetryFits(b: Buckets, limit: int, width: int, now: real, n: int)
    requires width > 0
  {
    FitsAt(AfterRefund(b, limit, width, now), limit, width, now + n as real)
  }

  /** A retry inside the bucket that rejected it re-adds exactly what was refunded. */
  lemma RetrySameBucket(b: Buckets, limit: int, width: int, now: real, n: int)
    requires Rejected(b, limit, width, now) && n >= 0
    requires now + n as real < (BucketStart(now, width) + width) as real
    ensures RetryFits(b, limit, width, now, n) <==> !Over(Count(b, limit, width, now).1, now + n as real)
  {
    var t := now + n as real;
    BucketUnique(now, t, width, 0);
    hide Over;
    assert Count(AfterRefund(b, limit, width, now), limit, width, t).1 == Count(b, limit, width, now).1;
  }

  /** One bucket later the rejected bucket, refunded, is the previous one. */
  lemma RetryNextBucket(b: Buckets, limit: int, width: int, now: real, n: int)
    requires Rejected(b, limit, width, now)
    requires var s := BucketStart(now, width); (s + width) as real <= now + n as real < (s + 2 * width) as real
    ensures var c := Count(b, limit, width, now).1;
      RetryFits(b, limit, width, now, n) <==>
        !Over(Counted(limit, width, c.start + width, c.current - 1, 1), now + n as real)
  {
    var t := now + n as real;
    BucketUnique(now, t, width, 1);
    hide Over;
    var c := Count(b, limit, width, now).1;
    assert Count(AfterRefund(b, limit, width, now), limit, width, t).1
        == Counted(limit, width, c.start + width, c.current - 1, 1);
  }

  /** Two buckets later the previous one is empty, and a retry alone always fits. */
  lemma RetryTwoBucketsLater(b: Buckets, limit: int, width: int, now: real, n: int)
    requires Rejected(b, limit, width, now)
    requires var s := BucketStart(now, width); (s + 2 * width) as real <= now + n as real < (s + 3 * width) as real
    ensures RetryFits(b, limit, width, now, n)
  {
    BucketUnique(now, now + n as real, width, 2);
  }

  lemma SameBucketFits(c: Counted, now: real, t: real)
    requires c.width > 0 && c.start as real <= now <= t < (c.start + c.width) as real
    requires c.previous >= 0 && Over(c, now)
    ensures !Over(c, t) <==>
      c.current <= c.limit && c.previous > 0 &&
      t >= c.start as real + (c.previous + c.current - c.limit) as real / c.previous as real * c.width as real
  {
    var f := Elapsed(t, c.start, c.width);
    assert c.previous as real * (1.0 - f) >= 0.0;
    if c.previous > 0 {
      FitsFromSolved(c.previous, c.current, c.limit, c.start, c.width, t);
    }
  }

  lemma NextBucketFits(current: int, limit: int, f: real)
    requires current >= 1 && limit >= 1 && 0.0 <= f < 1.0
    ensures current <= limit ==> SlidingCount(current - 1, 1, f) <= limit as real
  {
    Scale(1.0 - f, 1.0, (current - 1) as real + 1.0);
    assert (current - 1) as real * f >= 0.0;
    assert (current - 1) as real * (1.0 - f) == (current - 1) as real - (current - 1) as real * f;
  }

  /** A ratio of at most one scales to at most the width. */
  lemma RatioWithin(part: int, whole: int, width: int)
    requires 0 <= part <= whole && whole > 0 && width > 0
    ensures 0.0 <= part as real / whole as real * width as real <= width as real
    ensures part as real / whole as real <= 1.0
  {
    var r := part as real / whole as real;
    assert r * whole as real == part as real;
    Scale(1.0, r, whole as real);
    Scale(r, 0.0, whole as real);
    Scale(r, 1.0, width as real);
    Scale(0.0, r, width as real);
  }

  /** A window just exceeded, as `_raise_if_over` hands it to `_retry_after_s`. */
  predicate Exceeded(c: Counted, now: real) {
    && c.width > 0 && c.limit >= 1 && c.previous >= 0 && c.current >= 1
    && c.start as real <= now < (c.start + c.width) as real
    && Over(c, now)
  }

  /** The instant `_retry_after_s` solves for. */
  function Solved(c: Counted): real
    requires c.width > 0 && c.limit >= 1
    requires c.current > c.limit || c.previous > 0
  {
    if c.current <= c.limit then
      c.start as real + (c.previous + c.current - c.limit) as real / c.previous as real * c.width as real
    else
      (c.start + c.width) as real + (c.current - c.limit) as real / (c.current - 1) as real * c.width as real
  }

  /** The previous bucket alone can decay enough: the solved instant is in this bucket. */
  lemma SolvedInBucket(c: Counted, now: real)
    requires Exceeded(c, now) && c.current <= c.limit
    ensures c.previous > 0 && now < Solved(c) <= (c.start + c.width) as real
    ensures (c.previous + c.current - c.limit) as real / c.previous as real <= 1.0
  {
    var f := Elapsed(now, c.start, c.width);
    assert c.previous as real * (1.0 - f) > 0.0;
    assert c.previous > 0;
    SameBucketFits(c, now, now);
    assert c.previous as real * f >= 0.0;
    assert c.previous as real * (1.0 - f) == c.previous as real - c.previous as real * f;
    RatioWithin(c.previous + c.current - c.limit, c.previous, c.width);
  }

  lemma Complement(part: int, whole: int)
    requires whole > 0
    ensures 1.0 - part as real / whole as real == (whole - part) as real / whole as real
  {
    var w := whole as real;
    var r, q := part as real / w, (whole - part) as real / w;
    assert r * w == part as real && q * w == (whole - part) as real;
    assert (1.0 - r) * w == w - r * w;
    Scale(q, 1.0 - r, w);
    Scale(1.0 - r, q, w);
  }

  /** For an exceeded window the last fallback is never reached: what is returned is the
      solved instant, rounded up, and that instant lies ahead. */
  lemma RetryAfterSolves(c: Counted, now: real)
    requires Exceeded(c, now)
    ensures c.current > c.limit || c.previous > 0
    ensures (c.previous > 0 && c.current <= c.limit) || Carried(c) > c.limit - 1
    ensures now < Solved(c) <= (c.start + (if c.current <= c.limit then c.width else 2 * c.width)) as real
    ensures c.current > c.limit ==> Solved(c) >= (c.start + c.width) as real
    ensures RetryAfter(c, now) == Ceil(Solved(c) - now) >= 1
  {
    hide Over;
    hide RetryAfter;
    hide Solved;
    if c.current <= c.limit {
      SolvedInBucket(c, now);
      RetryInBucket(c, now);
    } else {
      SolvedInNext(c);
      RetryInNext(c, now);
    }
  }

  /** Over the limit on its own: the solved instant is in the next bucket. */
  lemma SolvedInNext(c: Counted)
    requires c.width > 0 && c.limit >= 1 && c.current > c.limit
    ensures (c.start + c.width) as real <= Solved(c) <= (c.start + 2 * c.width) as real
  {
    RatioWithin(c.current - c.limit, c.current - 1, c.width);
  }

  lemma RetryInBucket(c: Counted, now: real)
    requires c.width > 0 && c.limit >= 1 && c.current <= c.limit && c.previous > 0 && now < Solved(c)
    requires (c.previous + c.current - c.limit) as real / c.previous as real <= 1.0
    ensures RetryAfter(c, now) == Ceil(Solved(c) - now) >= 1
  {
  }

  lemma RetryInNext(c: Counted, now: real)
    requires c.width > 0 && c.limit >= 1 && c.current > c.limit && now < Solved(c)
    ensures RetryAfter(c, now) == Ceil(Solved(c) - now) >= 1
  {
    Complement(c.limit - 1, c.current - 1);
  }

  /** In the bucket that rejected it, a retry fits exactly from the solved instant on. */
  lemma SameBucketSolved(c: Counted, now: real, t: real)
    requires Exceeded(c, now) && now <= t < (c.start + c.width) as real
    requires c.current > c.limit || c.previous > 0
    ensures !Over(c, t) <==> t >= Solved(c)
  {
    SameBucketFits(c, now, t);
    hide Over;
    if c.current > c.limit {
      RatioWithin(c.current - c.limit, c.current - 1, c.width);
    }
  }

  /** In the bucket after it, a retry fits if the rejected bucket was within the limit on its
      own, and otherwise exactly from the solved instant on. */
  lemma NextBucketSolved(c: Counted, t: real)
    requires c.width > 0 && c.limit >= 1 && c.current >= 1
    requires (c.start + c.width) as real <= t < (c.start + 2 * c.width) as real
    ensures c.current <= c.limit ==> !Over(Counted(c.limit, c.width, c.start + c.width, c.current - 1, 1), t)
    ensures c.current > c.limit ==>
      (!Over(Counted(c.limit, c.width, c.start + c.width, c.current - 1, 1), t) <==> t >= Solved(c))
  {
    if c.current > c.limit {
      FitsFromSolved(c.current - 1, 1, c.limit, c.start + c.width, c.width, t);
    } else {
      NextBucketFits(c.current, c.limit, Elapsed(t, c.start + c.width, c.width));
    }
  }

  /** Within reach of the solved instant, a retry fits exactly when it is not before it. */
  lemma RetryFitsFromSolved(b: Buckets, limit: int, width: int, now: real, n: int)
    requires Rejected(b, limit, width, now) && n >= 1
    requires var c := Count(b, limit, width, now).1;
      Exceeded(c, now) && c.limit == limit && c.width == width && c.start == BucketStart(now, width) &&
      (c.current > limit || c.previous > 0) && now + n as real < Solved(c) + 1.0
    ensures RetryFits(b, limit, width, now, n) <==> now + n as real >= Solved(Count(b, limit, width, now).1)
  {
    var c, t := Count(b, limit, width, now).1, now + n as real;
    RetryAfterSolves(c, now);
    hide RetryFits;
    hide Over;
    hide Count;
    hide Solved;
    if t < (c.start + width) as real {
      RetrySameBucket(b, limit, width, now, n);
      SameBucketSolved(c, now, t);
    } else if t < (c.start + 2 * width) as real {
      RetryNextBucket(b, limit, width, now, n);
      NextBucketSolved(c, t);
    } else {
      RetryTwoBucketsLater(b, limit, width, now, n);
    }
  }

  /** Retry-After is exact: with no other traffic, a retry after that many seconds fits, and
      a retry after any smaller positive whole number of seconds does not. */
  lemma RetryAfterExact(b: Buckets, limit: int, width: int, now: real)
    requires Rejected(b, limit, width, now)
    ensures var after := RetryAfter(Count(b, limit, width, now).1, now);
      && after >= 1
      && RetryFits(b, limit, width, now, after)
      && forall n :: 1 <= n < after ==> !RetryFits(b, limit, width, now, n)
  {
    var c := Count(b, limit, width, now).1;
    assert Exceeded(c, now) && c.limit == limit && c.width == width && c.start == BucketStart(now, width);
    RetryAfterSolves(c, now);
    var after := RetryAfter(c, now);
    hide Solved;
    hide RetryFits;
    hide Over;
    RetryFitsFromSolved(b, limit, width, now, after);
    forall n | 1 <= n < after ensures !RetryFits(b, limit, width, now, n) {
      RetryFitsFromSolved(b, limit, width, now, n);
    }
  }
}
