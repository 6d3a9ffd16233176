/** Reordering a chain where there is latency evidence: measured candidates trade places with
    each other and nothing else moves (app/routing/selection.py, `_rank` and `candidates`). */
module Ranking {
  import opened Common
  import opened Selecting
  import opened Selection
  import opened ConfigOrder

  datatype Sample = Sample(ewmaMs: real, samples: int)

  datatype Snapshot = Snapshot(entries: map<Key, Sample>, minSamples: int) {
    /** `ranking_for`: no opinion below the sample threshold. */
    function RankingFor(spec: ModelSpec): Option<real> {
      if spec.Id() !in entries || entries[spec.Id()].samples < minSamples then None
      else Some(entries[spec.Id()].ewmaMs)
    }
  }

  type Latency = Option<Snapshot>

  /** No snapshot has no opinion about anything. */
  function Opinion(latency: Latency, spec: ModelSpec): Option<real> {
    if latency.None? then None else latency.value.RankingFor(spec)
  }

  /** There is an opinion exactly about a pair with enough samples, and it is their average. */
  lemma {:induction false} OpinionIff(latency: Latency, spec: ModelSpec, ms: real)
    ensures Opinion(latency, spec) == Some(ms) <==> exists n ::
      latency.Some? && n >= latency.value.minSamples && (spec.Id(), Sample(ms, n)) in latency.value.entries.Items
  {
    if latency.Some? && spec.Id() in latency.value.entries {
      var sample := latency.value.entries[spec.Id()];
      assert (spec.Id(), Sample(sample.ewmaMs, sample.samples)) in latency.value.entries.Items;
    }
  }

  // ----- what a ranking is -------------------------------------------------------

  ghost predicate Permutes(p: seq<nat>, n: nat) {
    && |p| == n && Distinct(p)
    && (forall i :: 0 <= i < n ==> p[i] < n)
    && (forall v :: 0 <= v < n ==> v in p)
  }

  /** Position i goes before position j: faster, or as fast and earlier in the chain. */
  predicate Before(chain: seq<ModelSpec>, latency: Latency, i: nat, j: nat)
    requires i < |chain| && j < |chain|
  {
    var a, b := Opinion(latency, chain[i]), Opinion(latency, chain[j]);
    a.Some? && b.Some? && (a.value < b.value || (a.value == b.value && i < j))
  }

  ghost predicate Measured(chain: seq<ModelSpec>, latency: Latency, i: nat) {
    i < |chain| && Opinion(latency, chain[i]).Some?
  }

  /** p says where each result comes from: unmeasured candidates stay, and the measured
      positions hold the measured candidates in ascending latency, ties in chain order. */
  ghost predicate RankedBy(chain: seq<ModelSpec>, latency: Latency, result: seq<ModelSpec>, p: seq<nat>) {
    && |result| == |chain| && Permutes(p, |chain|)
    && (forall i :: 0 <= i < |chain| ==> result[i] == chain[p[i]])
    && (forall i :: 0 <= i < |chain| && !Measured(chain, latency, i) ==> p[i] == i)
    && (forall i, j :: 0 <= i < j < |chain| && Measured(chain, latency, i) && Measured(chain, latency, j) ==>
      Before(chain, latency, p[i], p[j]))
  }

  ghost predicate Ranked(chain: seq<ModelSpec>, latency: Latency, result: seq<ModelSpec>) {
    exists p :: RankedBy(chain, latency, result, p)
  }

  /** Nothing measured comes from anywhere unmeasured, or the other way round. */
  lemma {:induction false} MeasuredStayMeasured(
    chain: seq<ModelSpec>, latency: Latency, result: seq<ModelSpec>, p: seq<nat>, i: nat
  )
    requires RankedBy(chain, latency, result, p) && i < |chain|
    ensures Measured(chain, latency, p[i]) <==> Measured(chain, latency, i)
  {
    hide Opinion;
    assert p[p[i]] == p[i] ==> p[i] == i;
  }

  /** The two rankings agree position by position. */
  lemma {:induction false} SamePositions(
    chain: seq<ModelSpec>, latency: Latency, a: seq<ModelSpec>, p: seq<nat>, b: seq<ModelSpec>, q: seq<nat>, n: nat
  )
    requires RankedBy(chain, latency, a, p) && RankedBy(chain, latency, b, q) && n <= |chain|
    ensures p[..n] == q[..n]
  {
    if n > 0 {
      var i := n - 1;
      SamePositions(chain, latency, a, p, b, q, i);
      if p[i] != q[i] {
        LaterElsewhere(chain, latency, a, p, b, q, i);
        LaterElsewhere(chain, latency, b, q, a, p, i);
        assert false;
      }
    }
  }

  /** If the rankings first differ at i, then q's choice there goes before p's. */
  lemma {:induction false} LaterElsewhere(
    chain: seq<ModelSpec>, latency: Latency, a: seq<ModelSpec>, p: seq<nat>, b: seq<ModelSpec>, q: seq<nat>, i: nat
  )
    requires RankedBy(chain, latency, a, p) && RankedBy(chain, latency, b, q) && i < |chain|
    requires p[..i] == q[..i] && p[i] != q[i]
    ensures Before(chain, latency, q[i], p[i])
  {
    assert p[i] in q;
    var j :| 0 <= j < |q| && q[j] == p[i];
    assert forall l :: 0 <= l < i ==> q[l] == p[..i][l] == p[l] != p[i];
    MeasuredStayMeasured(chain, latency, a, p, i);
    MeasuredStayMeasured(chain, latency, b, q, j);
  }

  /** A chain has exactly one ranking. */
  lemma {:induction false} RankingIsUnique(
    chain: seq<ModelSpec>, latency: Latency, a: seq<ModelSpec>, b: seq<ModelSpec>
  )
    requires Ranked(chain, latency, a) && Ranked(chain, latency, b)
    ensures a == b
  {
    var p :| RankedBy(chain, latency, a, p);
    var q :| RankedBy(chain, latency, b, q);
    SamePositions(chain, latency, a, p, b, q, |chain|);
    assert p == p[..|chain|] && q == q[..|chain|];
  }

  /** What a ranking means for a caller: who has no latency stays put, those who have one come
      out fastest first, and equals keep the order they had. */
  lemma {:induction false} RankingMeans(chain: seq<ModelSpec>, latency: Latency, result: seq<ModelSpec>, i: nat, j: nat, u: nat, v: nat)
    requires Ranked(chain, latency, result) && i < j < |result|
    requires DistinctIds(chain) && u < |chain| && v < |chain| && result[i] == chain[u] && result[j] == chain[v]
    ensures Opinion(latency, chain[i]).None? ==> result[i] == chain[i]
    ensures Opinion(latency, result[i]).Some? && Opinion(latency, result[j]).Some? ==>
      && Opinion(latency, result[i]).value <= Opinion(latency, result[j]).value
      && (Opinion(latency, result[i]).value == Opinion(latency, result[j]).value ==> u < v)
  {
    hide Opinion;
    var p :| RankedBy(chain, latency, result, p);
    MeasuredStayMeasured(chain, latency, result, p, i);
    MeasuredStayMeasured(chain, latency, result, p, j);
    assert p[i] == u && p[j] == v;
  }

  function Identity(n: nat): seq<nat> {
    seq(n, i => i)
  }

  lemma {:induction false} IdentityPermutes(n: nat)
    ensures Permutes(Identity(n), n)
  {
    forall v | 0 <= v < n ensures v in Identity(n) {
      assert Identity(n)[v] == v;
    }
  }

  /** Ranking a ranked chain again changes nothing. */
  lemma {:induction false} RankingIsIdempotent(
    chain: seq<ModelSpec>, latency: Latency, once: seq<ModelSpec>, twice: seq<ModelSpec>
  )
    requires Ranked(chain, latency, once) && Ranked(once, latency, twice)
    ensures twice == once
  {
    var p :| RankedBy(chain, latency, once, p);
    forall i, j | 0 <= i < j < |once| && Measured(once, latency, i) && Measured(once, latency, j)
      ensures Before(once, latency, i, j)
    {
      hide Permutes;
      hide Opinion;
      MeasuredStayMeasured(chain, latency, once, p, i);
      MeasuredStayMeasured(chain, latency, once, p, j);
      assert Before(chain, latency, p[i], p[j]);
    }
    SortedIsRanked(once, latency);
    RankingIsUnique(once, latency, once, twice);
  }

  lemma {:induction false} SortedIsRanked(chain: seq<ModelSpec>, latency: Latency)
    requires forall i, j :: 0 <= i < j < |chain| && Measured(chain, latency, i) && Measured(chain, latency, j) ==>
      Before(chain, latency, i, j)
    ensures Ranked(chain, latency, chain)
  {
    hide Before;
    hide Measured;
    hide Permutes;
    IdentityPermutes(|chain|);
    assert RankedBy(chain, latency, chain, Identity(|chain|));
  }

  /** A ranking is the same candidates: none lost, none twice, ids still distinct. */
  lemma {:induction false} RankingPermutes(chain: seq<ModelSpec>, latency: Latency, result: seq<ModelSpec>)
    requires Ranked(chain, latency, result)
    ensures multiset(result) == multiset(chain)
    ensures DistinctIds(chain) <==> DistinctIds(result)
  {
    var p :| RankedBy(chain, latency, result, p);
    SameMultiset(chain, result, p);
    if DistinctIds(chain) {
      forall i, j | 0 <= i < j < |result| ensures result[i].Id() != result[j].Id() {
        var u, v := p[i], p[j];
        assert u != v;
        assert chain[u].Id() != chain[v].Id();
      }
    }
    if DistinctIds(result) {
      forall u, v | 0 <= u < v < |chain| ensures chain[u].Id() != chain[v].Id() {
        assert u in p && v in p;
        var i :| 0 <= i < |p| && p[i] == u;
        var j :| 0 <= j < |p| && p[j] == v;
        assert result[i].Id() != result[j].Id();
      }
    }
  }

  lemma {:induction false} SameMultiset<T>(xs: seq<T>, ys: seq<T>, p: seq<nat>)
    requires |xs| == |ys| && Permutes(p, |xs|)
    requires forall i :: 0 <= i < |ys| ==> ys[i] == xs[p[i]]
    ensures multiset(ys) == multiset(xs)
    decreases |xs|
  {
    if xs != [] {
      var n := |xs| - 1;
      assert n in p;
      var k :| 0 <= k < |p| && p[k] == n;
      var ys', p' := ys[..k] + ys[k + 1..], p[..k] + p[k + 1..];
      WithoutLast(p, k, n);
      StillFrom(xs, ys, p, k, n);
      hide Permutes;
      SameMultiset(xs[..n], ys', p');
      assert xs == xs[..n] + [xs[n]];
      TakenOut(ys, k);
    } else {
      assert ys == xs;
    }
  }

  lemma {:induction false} StillFrom<T>(xs: seq<T>, ys: seq<T>, p: seq<nat>, k: nat, n: nat)
    requires |xs| == |ys| == n + 1 && Permutes(p, n + 1) && k <= n && p[k] == n
    requires forall i :: 0 <= i < |ys| ==> ys[i] == xs[p[i]]
    requires Permutes(p[..k] + p[k + 1..], n)
    ensures var ys', p' := ys[..k] + ys[k + 1..], p[..k] + p[k + 1..];
      |ys'| == n && forall i :: 0 <= i < n ==> ys'[i] == xs[..n][p'[i]]
  {
    var ys', p' := ys[..k] + ys[k + 1..], p[..k] + p[k + 1..];
    forall i | 0 <= i < n ensures ys'[i] == xs[..n][p'[i]] {
      var j := if i < k then i else i + 1;
      assert ys'[i] == ys[j] && p'[i] == p[j];
    }
  }

  lemma {:induction false} TakenOut<T>(ys: seq<T>, k: nat)
    requires k < |ys|
    ensures multiset(ys) == multiset(ys[..k] + ys[k + 1..]) + multiset{ys[k]}
  {
    assert ys == ys[..k] + [ys[k]] + ys[k + 1..];
  }

  lemma {:induction false} WithoutLast(p: seq<nat>, k: nat, n: nat)
    requires Permutes(p, n + 1) && k <= n && p[k] == n
    ensures Permutes(p[..k] + p[k + 1..], n)
  {
    var q := p[..k] + p[k + 1..];
    forall i | 0 <= i < n ensures q[i] == p[if i < k then i else i + 1] {
    }
    forall v | 0 <= v < n ensures v in q {
      assert v in p;
      var i :| 0 <= i < |p| && p[i] == v;
      assert q[if i < k then i else i - 1] == v;
    }
  }

  // ----- the algorithm -----------------------------------------------------------

  datatype Entry = Entry(index: nat, ewmaMs: real, spec: ModelSpec)

  predicate Sooner(a: Entry, b: Entry) {
    a.ewmaMs < b.ewmaMs || (a.ewmaMs == b.ewmaMs && a.index < b.index)
  }

  ghost predicate InOrder(entries: seq<Entry>) {
    forall i, j :: 0 <= i < j < |entries| ==> Sooner(entries[i], entries[j])
  }

  /** Puts an entry behind every one at most as slow. */
  function Insert(e: Entry, entries: seq<Entry>): (r: seq<Entry>)
    requires InOrder(entries) && forall i :: 0 <= i < |entries| ==> entries[i].index < e.index
    ensures InOrder(r) && |r| == |entries| + 1
    ensures forall x :: x in r <==> x in entries || x == e
  {
    var n := |entries| - 1;
    if entries == [] || entries[n].ewmaMs <= e.ewmaMs then entries + [e]
    else
      var before := Insert(e, entries[..n]);
      assert forall i :: 0 <= i < |before| ==> before[i] in entries[..n] || before[i] == e;
      before + [entries[n]]
  }

  ghost predicate Ascending(entries: seq<Entry>) {
    forall i, j :: 0 <= i < j < |entries| ==> entries[i].index < entries[j].index
  }

  /** Python's stable `sorted` on the latency, for entries listed by index. */
  function StableSorted(entries: seq<Entry>): (r: seq<Entry>)
    requires Ascending(entries)
    ensures InOrder(r) && |r| == |entries|
    ensures forall x :: x in r <==> x in entries
  {
    if entries == [] then []
    else
      var n := |entries| - 1;
      var before := StableSorted(entries[..n]);
      assert forall x :: x in before ==> x.index < entries[n].index;
      Insert(entries[n], before)
  }

  /** The entries `measured` holds: exactly the measured positions, ascending. */
  ghost predicate Listed(chain: seq<ModelSpec>, latency: Latency, n: nat, measured: seq<Entry>)
    requires n <= |chain|
  {
    && (forall k :: 0 <= k < |measured| ==> (
         var e := measured[k]; e.index < n && e.spec == chain[e.index] && Opinion(latency, e.spec) == Some(e.ewmaMs)))
    && Ascending(measured)
    && (forall i :: 0 <= i < n && Measured(chain, latency, i) ==> exists k :: 0 <= k < |measured| && measured[k].index == i)
  }

  /** `_rank`. */
  method Rank(chain: seq<ModelSpec>, latency: Latency) returns (result: seq<ModelSpec>)
    ensures Ranked(chain, latency, result)
  {
    if latency.None? {
      SortedIsRanked(chain, latency);
      return chain;
    }
    hide Listed;
    hide StableSorted;
    hide WrittenBack;
    hide Ranked;
    var measured: seq<Entry> := [];
    ListedEnds(chain, latency, measured);
    for index := 0 to |chain|
      invariant Listed(chain, latency, index, measured)
    {
      var spec := chain[index];
      var ewmaMs := latency.value.RankingFor(spec);
      ListedNext(chain, latency, index, measured);
      if ewmaMs.Some? {
        measured := measured + [Entry(index, ewmaMs.value, spec)];
      }
    }
    if |measured| < 2 {
      UnmovedIsRanked(chain, latency, measured);
      return chain;
    }
    ListedEnds(chain, latency, measured);
    var ordered := StableSorted(measured);
    result := chain;
    ghost var p: seq<nat> := Identity(|chain|);
    assert WrittenBack(measured, ordered, 0, p) by {
      NothingWritten(measured, ordered, |chain|);
    }
    for k := 0 to |measured|
      invariant |result| == |p| == |chain| && WrittenBack(measured, ordered, k, p)
      invariant forall i :: 0 <= i < |chain| ==> p[i] < |chain| && result[i] == chain[p[i]]
    {
      var position := measured[k].index;
      WriteOne(chain, latency, measured, ordered, k, p);
      result := result[position := ordered[k].spec];
      p := p[position := ordered[k].index];
    }
    WrittenBackIsRanked(chain, latency, measured, ordered, result, p);
  }

  lemma {:induction false} ListedEnds(chain: seq<ModelSpec>, latency: Latency, measured: seq<Entry>)
    ensures Listed(chain, latency, 0, [])
    ensures Listed(chain, latency, |chain|, measured) ==> Ascending(measured)
  {
  }

  lemma {:induction false} ListedNext(chain: seq<ModelSpec>, latency: Latency, n: nat, measured: seq<Entry>)
    requires n < |chain| && Listed(chain, latency, n, measured)
    ensures var found := Opinion(latency, chain[n]);
      Listed(chain, latency, n + 1, if found.Some? then measured + [Entry(n, found.value, chain[n])] else measured)
  {
    hide Opinion;
    if Opinion(latency, chain[n]).Some? {
      hide Listed;
      ListedMore(chain, latency, n, measured, Opinion(latency, chain[n]).value);
    }
  }

  lemma {:induction false} ListedMore(chain: seq<ModelSpec>, latency: Latency, n: nat, measured: seq<Entry>, ewmaMs: real)
    requires n < |chain| && Listed(chain, latency, n, measured) && Opinion(latency, chain[n]) == Some(ewmaMs)
    ensures Listed(chain, latency, n + 1, measured + [Entry(n, ewmaMs, chain[n])])
  {
    hide Opinion;
    var more := measured + [Entry(n, ewmaMs, chain[n])];
    forall i | 0 <= i < n + 1 && Measured(chain, latency, i) ensures exists k :: 0 <= k < |more| && more[k].index == i {
      hide Measured;
      if i < n {
        var k :| 0 <= k < |measured| && measured[k].index == i;
        assert more[k].index == i;
      } else {
        assert more[|measured|].index == i;
      }
    }
    forall k | 0 <= k < |measured| ensures more[k] == measured[k] {
    }
  }

  lemma {:induction false} NothingWritten(measured: seq<Entry>, ordered: seq<Entry>, n: nat)
    requires |measured| == |ordered|
    ensures WrittenBack(measured, ordered, 0, Identity(n))
  {
  }

  /** With fewer than two measured candidates the chain is its own ranking. */
  lemma {:induction false} UnmovedIsRanked(chain: seq<ModelSpec>, latency: Latency, measured: seq<Entry>)
    requires Listed(chain, latency, |chain|, measured) && |measured| < 2
    ensures Ranked(chain, latency, chain)
  {
    SortedIsRanked(chain, latency);
  }

  /** The first n measured positions hold the entries sorted to their ranks. */
  ghost predicate WrittenBack(measured: seq<Entry>, ordered: seq<Entry>, n: nat, p: seq<nat>) {
    && n <= |measured| == |ordered|
    && (forall l :: 0 <= l < n && measured[l].index < |p| ==> p[measured[l].index] == ordered[l].index)
    && (forall i :: 0 <= i < |p| && (forall l :: 0 <= l < n ==> measured[l].index != i) ==> p[i] == i)
  }

  lemma {:induction false} WriteOne(
    chain: seq<ModelSpec>, latency: Latency, measured: seq<Entry>, ordered: seq<Entry>, n: nat, p: seq<nat>
  )
    requires Listed(chain, latency, |chain|, measured) && ordered == StableSorted(measured)
    requires n < |measured| && |p| == |chain| && WrittenBack(measured, ordered, n, p)
    ensures measured[n].index < |chain| && ordered[n].index < |chain|
    ensures chain[ordered[n].index] == ordered[n].spec
    ensures WrittenBack(measured, ordered, n + 1, p[measured[n].index := ordered[n].index])
  {
    hide StableSorted;
    hide Opinion;
    assert ordered[n] in measured;
    var q := p[measured[n].index := ordered[n].index];
    forall i | 0 <= i < |q| && forall l :: 0 <= l < n + 1 ==> measured[l].index != i ensures q[i] == i {
      assert measured[n].index != i;
    }
  }

  /** A position is either unmeasured and kept, or holds the entry of its rank. */
  lemma {:induction false} RankAt(
    chain: seq<ModelSpec>, latency: Latency, measured: seq<Entry>, ordered: seq<Entry>, p: seq<nat>, i: nat
  ) returns (rank: nat)
    requires Listed(chain, latency, |chain|, measured) && ordered == StableSorted(measured)
    requires i < |p| == |chain| && WrittenBack(measured, ordered, |measured|, p)
    ensures p[i] < |chain| && (Measured(chain, latency, p[i]) <==> Measured(chain, latency, i))
    ensures !Measured(chain, latency, i) ==> p[i] == i
    ensures Measured(chain, latency, i) ==> rank < |measured| && measured[rank].index == i && p[i] == ordered[rank].index
  {
    rank := 0;
    if Measured(chain, latency, i) {
      rank :| 0 <= rank < |measured| && measured[rank].index == i;
      assert ordered[rank] in measured;
    }
  }

  lemma {:induction false} OrderedByBefore(
    chain: seq<ModelSpec>, latency: Latency, measured: seq<Entry>, ordered: seq<Entry>, a: nat, b: nat
  )
    requires Listed(chain, latency, |chain|, measured) && ordered == StableSorted(measured) && a < b < |ordered|
    ensures ordered[a].index < |chain| && ordered[b].index < |chain|
    ensures Before(chain, latency, ordered[a].index, ordered[b].index)
  {
    assert ordered[a] in measured && ordered[b] in measured;
    assert Sooner(ordered[a], ordered[b]);
  }

  lemma {:induction false} RanksAscend(measured: seq<Entry>, a: nat, b: nat)
    requires Ascending(measured) && a < |measured| && b < |measured| && measured[a].index < measured[b].index
    ensures a < b
  {
  }

  lemma {:induction false} InBefore(
    chain: seq<ModelSpec>, latency: Latency, measured: seq<Entry>, ordered: seq<Entry>, p: seq<nat>, i: nat, j: nat
  )
    requires Listed(chain, latency, |chain|, measured) && ordered == StableSorted(measured)
    requires i < j < |p| == |chain| && WrittenBack(measured, ordered, |measured|, p)
    ensures p[i] < |chain| && p[j] < |chain| && p[i] != p[j]
    ensures Measured(chain, latency, i) && Measured(chain, latency, j) ==> Before(chain, latency, p[i], p[j])
  {
    hide Opinion;
    hide Measured;
    hide StableSorted;
    hide WrittenBack;
    var a := RankAt(chain, latency, measured, ordered, p, i);
    var b := RankAt(chain, latency, measured, ordered, p, j);
    if Measured(chain, latency, i) && Measured(chain, latency, j) {
      RanksAscend(measured, a, b);
      OrderedByBefore(chain, latency, measured, ordered, a, b);
    }
  }

  lemma {:induction false} WrittenBackCovers(
    chain: seq<ModelSpec>, latency: Latency, measured: seq<Entry>, ordered: seq<Entry>, p: seq<nat>, v: nat
  )
    requires Listed(chain, latency, |chain|, measured) && ordered == StableSorted(measured)
    requires v < |p| == |chain| && WrittenBack(measured, ordered, |measured|, p)
    ensures v in p
  {
    var rank := RankAt(chain, latency, measured, ordered, p, v);
    if Measured(chain, latency, v) {
      assert measured[rank] in ordered;
      var k :| 0 <= k < |ordered| && ordered[k] == measured[rank];
      assert p[measured[k].index] == v;
    } else {
      assert p[v] == v;
    }
  }

  lemma {:induction false} WrittenBackIsRanked(
    chain: seq<ModelSpec>, latency: Latency, measured: seq<Entry>, ordered: seq<Entry>, result: seq<ModelSpec>, p: seq<nat>
  )
    requires Listed(chain, latency, |chain|, measured) && ordered == StableSorted(measured)
    requires |result| == |p| == |chain| && WrittenBack(measured, ordered, |measured|, p)
    requires forall i :: 0 <= i < |chain| ==> p[i] < |chain| && result[i] == chain[p[i]]
    ensures Ranked(chain, latency, result)
  {
    hide Opinion;
    hide Before;
    hide StableSorted;
    hide Listed;
    hide WrittenBack;
    forall v | 0 <= v < |chain| ensures v in p {
      WrittenBackCovers(chain, latency, measured, ordered, p, v);
    }
    forall i | 0 <= i < |chain| && !Measured(chain, latency, i) ensures p[i] == i {
      var _ := RankAt(chain, latency, measured, ordered, p, i);
    }
    forall i, j | 0 <= i < j < |chain|
      ensures p[i] != p[j]
      ensures Measured(chain, latency, i) && Measured(chain, latency, j) ==> Before(chain, latency, p[i], p[j])
    {
      InBefore(chain, latency, measured, ordered, p, i, j);
    }
    assert RankedBy(chain, latency, result, p);
  }

  // ----- the whole choice --------------------------------------------------------

  datatype Choice = Chain(specs: seq<ModelSpec>) | UnknownSlot

  /** The name a pin is written as. */
  function PinName(spec: ModelSpec): string {
    spec.provider + "/" + spec.model
  }

  /** Every candidate a client could name, in declaration order. */
  function Pinnable(r: Registry): seq<ModelSpec>
    requires r.Valid()
  {
    SlotsKnown(r);
    Flattened(r, Slots(r), {})
  }

  /** The first candidate of that name, or none has it. */
  ghost predicate PinResolved(all: seq<ModelSpec>, pinned: string, choice: Choice) {
    match choice
    case UnknownSlot => forall i :: 0 <= i < |all| ==> PinName(all[i]) != pinned
    case Chain(specs) => exists i :: (
      && 0 <= i < |all| && specs == [all[i]] && PinName(all[i]) == pinned
      && forall j :: 0 <= j < i ==> PinName(all[j]) != pinned)
  }

  /** The same read off the table: private-key slots count here, internal ones do not. */
  ghost predicate PinnedTo(r: Registry, pinned: string, choice: Choice) {
    match choice
    case UnknownSlot => forall x :: IsOpen(r, r.internal, x) ==> SpecAt(r, x).provider + "/" + SpecAt(r, x).model != pinned
    case Chain(specs) => exists x :: (
      && IsOpen(r, r.internal, x) && specs == [SpecAt(r, x)]
      && SpecAt(r, x).provider + "/" + SpecAt(r, x).model == pinned
      && forall y :: IsOpen(r, r.internal, y) && Earlier(y, x) ==> SpecAt(r, y).provider + "/" + SpecAt(r, y).model != pinned)
  }

  lemma {:induction false} PinByPlace(r: Registry, pinned: string, choice: Choice)
    requires r.Valid() && PinResolved(Pinnable(r), pinned, choice)
    ensures PinnedTo(r, pinned, choice)
  {
    hide Pinnable;
    hide Spots;
    hide Holds;
    hide PinnedTo;
    hide PinName;
    PinnableHolds(r);
    match choice
    case UnknownSlot => NoPlaceNamed(r, Pinnable(r), pinned);
    case Chain(specs) =>
      var i :| 0 <= i < |Pinnable(r)| && specs == [Pinnable(r)[i]] && PinName(Pinnable(r)[i]) == pinned
        && forall j :: 0 <= j < i ==> PinName(Pinnable(r)[j]) != pinned;
      PlaceNamed(r, Pinnable(r), pinned, i);
  }

  lemma {:induction false} PinnableHolds(r: Registry)
    requires r.Valid()
    ensures Holds(r, Spots(r, r.internal, |r.order|), Pinnable(r))
  {
    hide Spots;
    hide Holds;
    hide Slots;
    hide Flattened;
    ClientFacing(r, {});
    assert r.internal + {} == r.internal;
  }

  lemma {:induction false} NoPlaceNamed(r: Registry, all: seq<ModelSpec>, pinned: string)
    requires r.Valid() && Holds(r, Spots(r, r.internal, |r.order|), all)
    requires forall i :: 0 <= i < |all| ==> PinName(all[i]) != pinned
    ensures PinnedTo(r, pinned, UnknownSlot)
  {
    hide Spots;
    forall x | IsOpen(r, r.internal, x) ensures PinName(SpecAt(r, x)) != pinned {
      var j := SpotIndex(r, r.internal, x);
      assert PinName(all[j]) != pinned;
    }
  }

  lemma {:induction false} PlaceNamed(r: Registry, all: seq<ModelSpec>, pinned: string, i: nat)
    requires r.Valid() && Holds(r, Spots(r, r.internal, |r.order|), all)
    requires i < |all| && PinName(all[i]) == pinned && forall j :: 0 <= j < i ==> PinName(all[j]) != pinned
    ensures PinnedTo(r, pinned, Chain([all[i]]))
  {
    SpotsAreOpen(r, r.internal, |r.order|);
    hide Spots;
    var x := Spots(r, r.internal, |r.order|)[i];
    forall y | IsOpen(r, r.internal, y) && Earlier(y, x) ensures PinName(SpecAt(r, y)) != pinned {
      var j := SpotIndex(r, r.internal, y);
      assert PinName(all[j]) != pinned;
    }
  }

  /** `_resolve_pin`. */
  method ResolvePin(r: Registry, pinned: string) returns (choice: Choice)
    requires r.Valid()
    ensures PinnedTo(r, pinned, choice)
  {
    choice := FindPin(r, pinned);
    PinByPlace(r, pinned, choice);
  }

  method FindPin(r: Registry, pinned: string) returns (choice: Choice)
    requires r.Valid()
    ensures PinResolved(Pinnable(r), pinned, choice)
  {
    hide PinName;
    hide PinResolved;
    hide Missed;
    hide Slots;
    hide Flattened;
    SlotsKnown(r);
    var slots := Slots(r);
    ghost var all := Flattened(r, slots, {});
    ghost var seen := FlattenedNone(r, slots);
    SearchAt(all, 0, pinned);
    for i := 0 to |slots|
      invariant seen == Flattened(r, slots[..i], {}) && Missed(all, |seen|, pinned)
    {
      var specs := r.specs[slots[i]];
      FlattenedNext(r, slots, i, seen);
      for j := 0 to |specs|
        invariant Missed(all, |seen| + j, pinned)
      {
        SearchAt(all, |seen| + j, pinned);
        if PinName(specs[j]) == pinned {
          return Chain([specs[j]]);
        }
      }
      seen := seen + specs;
    }
    assert slots[..|slots|] == slots;
    return UnknownSlot;
  }

  /** None of the first n has the name. */
  ghost predicate Missed(all: seq<ModelSpec>, n: nat, pinned: string) {
    n <= |all| && forall k :: 0 <= k < n ==> PinName(all[k]) != pinned
  }

  /** How the search stands after n: still missing, found, or through. */
  lemma SearchAt(all: seq<ModelSpec>, n: nat, pinned: string)
    ensures Missed(all, 0, pinned)
    ensures Missed(all, n, pinned) && n < |all| && PinName(all[n]) != pinned ==> Missed(all, n + 1, pinned)
    ensures Missed(all, n, pinned) && n < |all| && PinName(all[n]) == pinned ==> PinResolved(all, pinned, Chain([all[n]]))
    ensures Missed(all, |all|, pinned) ==> PinResolved(all, pinned, UnknownSlot)
  {
  }

  lemma {:induction false} FlattenedNone(r: Registry, slots: seq<string>) returns (seen: seq<ModelSpec>)
    ensures seen == [] == Flattened(r, slots[..0], {})
  {
    seen := [];
  }

  /** Behind what the slots before it list, a slot's own candidates follow. */
  lemma {:induction false} FlattenedNext(r: Registry, slots: seq<string>, n: nat, seen: seq<ModelSpec>)
    requires n < |slots| && (forall slot :: slot in slots ==> slot in r.specs) && seen == Flattened(r, slots[..n], {})
    ensures Flattened(r, slots[..n + 1], {}) == seen + r.specs[slots[n]]
    ensures |seen| + |r.specs[slots[n]]| <= |Flattened(r, slots, {})|
    ensures forall j :: 0 <= j < |r.specs[slots[n]]| ==> Flattened(r, slots, {})[|seen| + j] == r.specs[slots[n]][j]
  {
    assert slots[..n + 1][..n] == slots[..n];
    assert Flattened(r, slots[..n + 1], {}) == seen + r.specs[slots[n]];
    FlattenedGrows(r, slots, n + 1);
    hide Flattened;
    MiddleOf(seen, r.specs[slots[n]], Flattened(r, slots, {}));
  }

  lemma {:induction false} MiddleOf(a: seq<ModelSpec>, b: seq<ModelSpec>, all: seq<ModelSpec>)
    requires a + b <= all
    ensures forall j :: 0 <= j < |b| ==> all[|a| + j] == b[j]
  {
    forall j | 0 <= j < |b| ensures all[|a| + j] == b[j] {
      assert (a + b)[|a| + j] == b[j];
    }
  }

  lemma {:induction false} FlattenedGrows(r: Registry, slots: seq<string>, n: nat)
    requires n <= |slots| && forall slot :: slot in slots ==> slot in r.specs
    ensures Flattened(r, slots[..n], {}) <= Flattened(r, slots, {})
    decreases |slots| - n
  {
    if n == |slots| {
      assert slots[..n] == slots;
    } else {
      FlattenedGrows(r, slots, n + 1);
      assert slots[..n + 1][..n] == slots[..n];
    }
  }

  /** `candidates`: a pin wins outright; otherwise the ranked chain, or an unknown slot. */
  method Candidates(r: Registry, requested: string, pinned: Option<string>, latency: Latency) returns (choice: Choice)
    requires r.Valid()
    ensures pinned.Some? ==> PinnedTo(r, pinned.value, choice)
    ensures pinned.None? ==> (choice.UnknownSlot? <==> requested != AUTO && requested !in r.specs)
    ensures pinned.None? && choice.Chain? ==>
      exists chain :: ChainFor(r, requested, chain) && Ranked(chain, latency, choice.specs)
    ensures pinned.None? && choice.Chain? ==> forall q ::
      q in Ids(choice.specs) <==> Offered(r, q) || (requested != AUTO && q in Ids(r.specs[requested]))
  {
    hide ChainFor;
    hide Ranked;
    hide Offered;
    hide FleetOf;
    hide Spill;
    hide Ids;
    hide PinnedTo;
    if pinned.Some? {
      choice := ResolvePin(r, pinned.value);
      return;
    }
    var fleet := Fleet(r);
    var chain := fleet;
    if requested != AUTO {
      if requested !in r.specs {
        return UnknownSlot;
      }
      var named := r.specs[requested];
      chain := named + Spill(named, fleet);
    }
    var specs := Rank(chain, latency);
    choice := Chain(specs);
    UnrankedIsChain(r, requested);
    SameIds(chain, latency, specs);
    forall q ensures q in Ids(specs) <==> Offered(r, q) || (requested != AUTO && q in Ids(r.specs[requested])) {
      ChainHolds(r, requested, chain, q);
    }
  }

  lemma {:induction false} SameIds(chain: seq<ModelSpec>, latency: Latency, specs: seq<ModelSpec>)
    requires Ranked(chain, latency, specs)
    ensures Ids(specs) == Ids(chain)
  {
    RankingPermutes(chain, latency, specs);
    hide Ranked;
    assert forall x :: x in specs <==> x in multiset(specs);
    assert forall x :: x in chain <==> x in multiset(chain);
    forall q ensures q in Ids(specs) <==> q in Ids(chain) {
      if q in Ids(specs) {
        var i :| 0 <= i < |specs| && specs[i].Id() == q;
        assert specs[i] in chain;
        var j :| 0 <= j < |chain| && chain[j] == specs[i];
        assert chain[j].Id() in Ids(chain);
      }
      if q in Ids(chain) {
        var i :| 0 <= i < |chain| && chain[i].Id() == q;
        assert chain[i] in specs;
        var j :| 0 <= j < |specs| && specs[j] == chain[i];
        assert specs[j].Id() in Ids(specs);
      }
    }
  }

  /** The failover chain names no candidate twice exactly when the named slot names none twice. */
  lemma {:induction false} CandidatesOnce(r: Registry, requested: string, chain: seq<ModelSpec>, latency: Latency, specs: seq<ModelSpec>)
    requires ChainFor(r, requested, chain) && Ranked(chain, latency, specs)
    ensures DistinctIds(specs) <==> requested == AUTO || DistinctIds(r.specs[requested])
  {
    RankingPermutes(chain, latency, specs);
    hide Ranked;
    if requested == AUTO {
      OrderedOnce(r, chain, {});
    } else {
      var named := r.specs[requested];
      var tail := chain[|named|..];
      OrderedOnce(r, tail, Ids(named));
      assert chain == named + tail;
      ConcatIds(named, tail);
    }
  }

  lemma {:induction false} OrderedOnce(r: Registry, specs: seq<ModelSpec>, excluded: set<Key>)
    requires InConfigOrder(r, specs, excluded)
    ensures DistinctIds(specs) && Ids(specs) !! excluded
  {
    hide Offered;
    forall a, b | 0 <= a < b < |specs| ensures specs[a].Id() != specs[b].Id() {
      assert ListedFirst(r, specs[a]) && ListedFirst(r, specs[b]);
      var x :| FirstSpot(r, Closed(r), specs[a].Id(), x) && specs[a] == SpecAt(r, x);
      var y :| FirstSpot(r, Closed(r), specs[b].Id(), y) && specs[b] == SpecAt(r, y);
      assert FirstSpots(r, specs[a].Id(), x, specs[b].Id(), y);
    }
  }
}
