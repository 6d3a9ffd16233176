/** Which limits and counters the answer lane and the perception lane use (app/quota/windows.py,
    app/quota/tracker.py, app/quota/lanes.py). Fractions are reals; rounding error is not
    modelled. */
module Lanes {
  import opened Common
  import opened Quota
  import opened QuotaLedger
  import opened QuotaBounds

  const ALL_WINDOWS := [Rpm, Rpd, Tpm, Tpd]

  /** Where a window stands in the fixed order. */
  function Order(l: Label): nat {
    match l
    case Rpm => 0
    case Rpd => 1
    case Tpm => 2
    case Tpd => 3
  }

  /** The published windows in the fixed order. None is "not published". */
  function Declared(published: map<Label, int>): (labels: seq<Label>)
    ensures forall l :: l in labels <==> l in published
    ensures forall i, j :: 0 <= i < j < |labels| ==> Order(labels[i]) < Order(labels[j])
    ensures Distinct(labels)
  {
    DeclaredFacts(published, 4);
    DeclaredUpTo(published, 4)
  }

  function DeclaredUpTo(published: map<Label, int>, n: nat): seq<Label>
    requires n <= 4
  {
    if n == 0 then []
    else DeclaredUpTo(published, n - 1) + if ALL_WINDOWS[n - 1] in published then [ALL_WINDOWS[n - 1]] else []
  }

  lemma {:induction false} DeclaredFacts(published: map<Label, int>, n: nat)
    requires n <= 4
    ensures forall l :: l in DeclaredUpTo(published, n) <==> l in published && Order(l) < n
    ensures forall i, j :: 0 <= i < j < |DeclaredUpTo(published, n)| ==>
      Order(DeclaredUpTo(published, n)[i]) < Order(DeclaredUpTo(published, n)[j])
  {
    if n > 0 {
      DeclaredFacts(published, n - 1);
      var before, l := DeclaredUpTo(published, n - 1), ALL_WINDOWS[n - 1];
      assert Order(l) == n - 1 && forall m :: Order(m) == n - 1 ==> m == l;
      assert forall i :: 0 <= i < |before| ==> before[i] in before;
    }
  }

  /** `declared`: a published window without a reset kind is an error, not a guess. */
  method Declare(published: map<Label, int>, resets: set<Label>) returns (labels: Option<seq<Label>>)
    ensures labels.None? <==> exists l :: l in published && l !in resets
    ensures labels.Some? ==> labels.value == Declared(published)
  {
    var specs: seq<Label> := [];
    for n := 0 to 4
      invariant specs == DeclaredUpTo(published, n)
      invariant forall l :: l in published && Order(l) < n ==> l in resets
    {
      var window := ALL_WINDOWS[n];
      if window !in published {
        continue;
      }
      if window !in resets {
        return None;
      }
      specs := specs + [window];
    }
    return Some(specs);
  }

  // ----- the daily split -------------------------------------------------------

  /** What is left after the safety headroom. */
  function Trimmed(x: real, headroom: real): real {
    x * (1.0 - headroom)
  }

  /** `answer_share` of what is left after the headroom. */
  function AnswerShare(x: real, headroom: real, reserved: real): real {
    Trimmed(x, headroom) * (1.0 - reserved)
  }

  /** `_effective_limit`: what chat may spend, never below one. */
  function AnswerLimit(published: int, headroom: real, reserved: real): int {
    Max(1, AnswerShare(published as real, headroom, reserved).Floor)
  }

  /** `perception_budget` of one window. */
  function PerceptionBudget(published: int, reserved: real): int {
    (published as real * reserved).Floor
  }

  /** The lane's daily limit in `reserve_perception`, never below one. */
  function PerceptionDailyLimit(published: int, headroom: real, reserved: real): int {
    Max(1, Trimmed(PerceptionBudget(published, reserved) as real, headroom).Floor)
  }

  lemma Shrinks(x: real, f: real)
    requires x >= 0.0 && 0.0 <= f <= 1.0
    ensures 0.0 <= x * f <= x
    ensures x > 0.0 && f < 1.0 ==> x * f < x
  {
    var rest := 1.0 - f;
    assert x * f + x * rest == x;
    if x > 0.0 && f < 1.0 {
      Positive(x, rest);
    }
  }

  /** The two exact shares, before rounding: together at most the day, each below it. */
  lemma ExactShares(x: real, headroom: real, reserved: real, b: real)
    requires x >= 1.0 && 0.0 <= headroom < 1.0 && 0.0 <= reserved < 1.0 && 0.0 <= b <= x * reserved
    ensures var answer := AnswerShare(x, headroom, reserved);
      var perception := Trimmed(b, headroom);
      && 0.0 <= answer && 0.0 <= perception < x && answer + perception <= x
      && (answer < x <==> reserved > 0.0 || headroom > 0.0)
  {
    var keep, share, day := 1.0 - headroom, 1.0 - reserved, x * reserved;
    Shrinks(x, keep);
    Shrinks(x, reserved);
    Positive(x, keep);
    Splits(x, keep, reserved);
    Ordered(b, day, keep);
    Shrinks(b, keep);
    Shrinks(x * keep, share);
    SharesBelow(x, x * keep, x * keep * share, day * keep, b * keep, day, headroom > 0.0, reserved > 0.0);
    if reserved == 0.0 && headroom == 0.0 {
      assert x * keep * share == x;
    }
  }

  /** The same over the products themselves: `left` after headroom, `answer` and `lane` its
      two parts, `perception` the rounded lane. */
  lemma SharesBelow(
    x: real, left: real, answer: real, lane: real, perception: real, day: real, trimmed: bool, shared: bool
  )
    requires left <= x && (trimmed ==> left < x) && 0.0 <= answer <= left && (shared ==> answer < left)
    requires answer + lane == left && 0.0 <= perception <= lane && perception <= day < x
    ensures 0.0 <= answer && 0.0 <= perception < x && answer + perception <= x
    ensures trimmed || shared ==> answer < x
  {
  }

  /** The two lanes together stay within a published day exactly when the day has room for
      two and something is held back at all: both floors at one never cost more. */
  lemma LanesFitOneDay(p: int, headroom: real, reserved: real)
    requires p >= 1 && 0.0 <= headroom < 1.0 && 0.0 <= reserved < 1.0
    ensures var sum := AnswerLimit(p, headroom, reserved) + PerceptionDailyLimit(p, headroom, reserved);
      && (sum <= p <==> p >= 2 && (reserved > 0.0 || headroom > 0.0))
      && sum <= p + 1
  {
    hide AnswerShare;
    hide Trimmed;
    var b := PerceptionBudget(p, reserved) as real;
    Shrinks(p as real, reserved);
    ExactShares(p as real, headroom, reserved, b);
    RoundedShares(p, AnswerShare(p as real, headroom, reserved), Trimmed(b, headroom));
  }

  /** The largest whole number not above x, or one where that would be none. */
  predicate WholeShare(limit: int, x: real) {
    limit >= 1 && x < (limit + 1) as real && (limit as real <= x || limit == 1)
  }

  /** Every limit is the whole part of its exact share: chat's of the published limit less the
      headroom and less the reservation, a per-minute window's of that less the headroom. */
  lemma LimitsAreWholeShares(p: int, headroom: real, reserved: real, x: real, y: real)
    requires x == p as real * (1.0 - headroom) && y == x * (1.0 - reserved)
    ensures WholeShare(FullLimit(p, headroom), x) && WholeShare(AnswerLimit(p, headroom, reserved), y)
  {
    assert Trimmed(p as real, headroom) == x;
    AnswerShareOf(p as real, headroom, reserved, x);
    hide Trimmed;
    hide AnswerShare;
    RoundedIsWholeShare(x);
    RoundedIsWholeShare(y);
    hide WholeShare;
  }

  lemma AnswerShareOf(p: real, headroom: real, reserved: real, x: real)
    requires x == Trimmed(p, headroom)
    ensures AnswerShare(p, headroom, reserved) == x * (1.0 - reserved)
  {
    hide Trimmed;
  }

  /** And the lane's of the whole reserved part less the headroom. */
  lemma LaneLimitIsWholeShare(p: int, headroom: real, reserved: real, part: int)
    requires part as real <= p as real * reserved < (part + 1) as real
    ensures WholeShare(PerceptionDailyLimit(p, headroom, reserved), part as real * (1.0 - headroom))
  {
    assert PerceptionBudget(p, reserved) == part;
    RoundedIsWholeShare(Trimmed(part as real, headroom));
    hide WholeShare;
    hide PerceptionBudget;
  }

  lemma RoundedIsWholeShare(x: real)
    ensures WholeShare(Max(1, x.Floor), x)
  {
  }

  /** Nor is anything wasted: the two lanes together are less than three short of the day that
      is left after the headroom. */
  lemma LanesUseTheDay(p: int, headroom: real, reserved: real)
    requires p >= 1 && 0.0 <= headroom < 1.0 && 0.0 <= reserved < 1.0
    ensures (AnswerLimit(p, headroom, reserved) + PerceptionDailyLimit(p, headroom, reserved)) as real
      > Trimmed(p as real, headroom) - 3.0
  {
    var keep, x := 1.0 - headroom, p as real;
    var b := PerceptionBudget(p, reserved) as real;
    Splits(x, keep, reserved);
    Ordered(x * reserved, b + 1.0, keep);
    assert (b + 1.0) * keep == b * keep + keep;
    var answer, lane := AnswerShare(x, headroom, reserved), Trimmed(b, headroom);
    assert answer + x * reserved * keep == Trimmed(x, headroom);
    assert x * reserved * keep <= lane + keep;
    hide AnswerShare;
    hide Trimmed;
    assert Max(1, answer.Floor) as real > answer - 1.0 && Max(1, lane.Floor) as real > lane - 1.0;
  }

  /** Rounding both shares down, and up to one, fits the day exactly when the day has room
      for two and the larger share is not all of it. */
  lemma RoundedShares(p: int, answer: real, perception: real)
    requires p >= 1 && 0.0 <= answer && 0.0 <= perception < p as real && answer + perception <= p as real
    ensures var sum := Max(1, answer.Floor) + Max(1, perception.Floor);
      (sum <= p <==> p >= 2 && answer < p as real) && sum <= p + 1
  {
  }

  lemma Positive(x: real, f: real)
    requires x > 0.0 && f > 0.0
    ensures x * f > 0.0
  {
  }

  lemma Ordered(a: real, b: real, f: real)
    requires a <= b && f >= 0.0
    ensures a * f <= b * f
  {
  }

  lemma Splits(x: real, keep: real, r: real)
    ensures x * keep * (1.0 - r) + x * r * keep == x * keep
  {
  }

  // ----- the grants ------------------------------------------------------------

  /** `reserve`: chat's reduced limits on the model's own counters. */
  function AnswerGrants(published: map<Label, int>, headroom: real, reserved: real, keyOf: Label -> Key): seq<Grant> {
    var labels := Declared(published);
    seq(|labels|, i requires 0 <= i < |labels| =>
      Grant(labels[i], AnswerLimit(published[labels[i]], headroom, reserved), labels[i].IsToken(), keyOf(labels[i])))
  }

  /** The ceiling of a per-minute window, which is not split. */
  function FullLimit(published: int, headroom: real): int {
    Max(1, Trimmed(published as real, headroom).Floor)
  }

  /** What the perception lane may spend in a window: the daily fence, or the full ceiling. */
  function LaneLimit(l: Label, published: int, headroom: real, reserved: real): (limit: int)
    ensures limit >= 1
  {
    if l.Rpd? || l.Tpd? then PerceptionDailyLimit(published, headroom, reserved) else FullLimit(published, headroom)
  }

  /** One window of the perception lane: daily ones on the lane's key, the rest on chat's. */
  function PerceptionGrant(l: Label, published: int, headroom: real, reserved: real, keyOf: Label -> Key, lane: Key): Grant {
    Grant(l, LaneLimit(l, published, headroom, reserved), l.IsToken(), if l.Rpd? || l.Tpd? then lane else keyOf(l))
  }

  function PerceptionGrants(
    published: map<Label, int>, headroom: real, reserved: real, keyOf: Label -> Key, lane: Key
  ): seq<Grant>
  {
    var labels := Declared(published);
    seq(|labels|, i requires 0 <= i < |labels| =>
      PerceptionGrant(labels[i], published[labels[i]], headroom, reserved, keyOf, lane))
  }

  /** What a window charges: the estimate if it counts tokens, else one request. */
  function ChargeOf(l: Label, tokens: int): int {
    if l.Tpm? || l.Tpd? then tokens else 1
  }

  /** A chat reservation is granted exactly when every published window has room for its charge
      under chat's share, on the model's own counter. */
  lemma AnswerAffordableIff(
    c: Counters, published: map<Label, int>, headroom: real, reserved: real, keyOf: Label -> Key, tokens: int
  )
    ensures Affordable(c, AnswerGrants(published, headroom, reserved, keyOf), tokens) <==>
      forall l :: l in published ==>
        Value(c, keyOf(l)) + ChargeOf(l, tokens) <= AnswerLimit(published[l], headroom, reserved)
  {
    hide AnswerLimit;
    hide Declared;
    var labels, grants := Declared(published), AnswerGrants(published, headroom, reserved, keyOf);
    assert forall i :: 0 <= i < |labels| ==> (
      var l := labels[i]; grants[i] == Grant(l, AnswerLimit(published[l], headroom, reserved), l.IsToken(), keyOf(l)));
    hide AnswerGrants;
    if Affordable(c, grants, tokens) {
      forall l | l in published
        ensures Value(c, keyOf(l)) + ChargeOf(l, tokens) <= AnswerLimit(published[l], headroom, reserved)
      {
        var i :| 0 <= i < |labels| && labels[i] == l;
        assert Value(c, grants[i].key) + grants[i].Cost(tokens) <= grants[i].limit;
      }
    }
  }

  /** A perception reservation is granted exactly when the daily windows have room on the lane's
      counter under the lane's limit, and the others on chat's under the full one. */
  lemma PerceptionAffordableIff(
    c: Counters, published: map<Label, int>, headroom: real, reserved: real, keyOf: Label -> Key, lane: Key, tokens: int
  )
    ensures Affordable(c, PerceptionGrants(published, headroom, reserved, keyOf, lane), tokens) <==>
      forall l :: l in published ==>
        if l.Rpd? || l.Tpd?
        then Value(c, lane) + ChargeOf(l, tokens) <= PerceptionDailyLimit(published[l], headroom, reserved)
        else Value(c, keyOf(l)) + ChargeOf(l, tokens) <= FullLimit(published[l], headroom)
  {
    hide PerceptionDailyLimit;
    hide FullLimit;
    hide Declared;
    var labels, grants := Declared(published), PerceptionGrants(published, headroom, reserved, keyOf, lane);
    assert forall i :: 0 <= i < |labels| ==>
      grants[i] == PerceptionGrant(labels[i], published[labels[i]], headroom, reserved, keyOf, lane);
    hide PerceptionGrants;
    if Affordable(c, grants, tokens) {
      forall l | l in published
        ensures if l.Rpd? || l.Tpd?
          then Value(c, lane) + ChargeOf(l, tokens) <= PerceptionDailyLimit(published[l], headroom, reserved)
          else Value(c, keyOf(l)) + ChargeOf(l, tokens) <= FullLimit(published[l], headroom)
      {
        var i :| 0 <= i < |labels| && labels[i] == l;
        assert Value(c, grants[i].key) + grants[i].Cost(tokens) <= grants[i].limit;
      }
    }
  }

  /** The grant list `reserve_perception` builds before it spends it. */
  method BuildPerceptionGrants(published: map<Label, int>, headroom: real, reserved: real, keyOf: Label -> Key, lane: Key)
    returns (grants: seq<Grant>)
    ensures grants == PerceptionGrants(published, headroom, reserved, keyOf, lane)
  {
    var labels := Declared(published);
    grants := [];
    for i := 0 to |labels|
      invariant |grants| == i
      invariant forall j :: 0 <= j < i ==>
        grants[j] == PerceptionGrant(labels[j], published[labels[j]], headroom, reserved, keyOf, lane)
    {
      grants := grants + [PerceptionGrant(labels[i], published[labels[i]], headroom, reserved, keyOf, lane)];
    }
  }

  /** What a perception reservation looks like, whatever its limits come to. */
  ghost predicate LaneShaped(
    grants: seq<Grant>, labels: seq<Label>, limits: map<Label, int>, keyOf: Label -> Key, lane: Key
  ) {
    && |grants| == |labels| && Distinct(labels)
    && (forall l :: l in labels <==> l in limits)
    && (forall l :: l in limits ==> limits[l] >= 1)
    && forall i :: 0 <= i < |grants| ==> (
         var l := labels[i];
         l in limits && grants[i] == Grant(l, limits[l], l.IsToken(), if l.Rpd? || l.Tpd? then lane else keyOf(l)))
  }

  function LaneLimits(published: map<Label, int>, headroom: real, reserved: real): map<Label, int> {
    map l | l in published :: LaneLimit(l, published[l], headroom, reserved)
  }

  lemma PerceptionIsLaneShaped(published: map<Label, int>, headroom: real, reserved: real, keyOf: Label -> Key, lane: Key)
    ensures LaneShaped(PerceptionGrants(published, headroom, reserved, keyOf, lane), Declared(published),
                       LaneLimits(published, headroom, reserved), keyOf, lane)
  {
    hide Declared;
    hide LaneLimit;
  }

  /** The two daily windows, if both are there, are the only two on the lane's counter. */
  lemma LaneCounters(grants: seq<Grant>, labels: seq<Label>, limits: map<Label, int>, keyOf: Label -> Key, lane: Key)
    requires LaneShaped(grants, labels, limits, keyOf, lane)
    requires forall l, m :: keyOf(l) == keyOf(m) ==> l == m
    requires forall l :: keyOf(l) != lane
    ensures DistinctLabels(grants)
    ensures forall k :: k != lane ==> AloneOn(grants, k)
    ensures AloneOn(grants, lane) <==> !(Rpd in labels && Tpd in labels)
    ensures DistinctKeys(grants) <==> !(Rpd in labels && Tpd in labels)
  {
    if Rpd in labels && Tpd in labels {
      var i :| 0 <= i < |labels| && labels[i] == Rpd;
      var j :| 0 <= j < |labels| && labels[j] == Tpd;
      assert grants[i].key == grants[j].key == lane;
    } else {
      forall i, j | 0 <= i < j < |grants| ensures grants[i].key != grants[j].key {
        LaneKeys(grants, labels, limits, keyOf, lane, i, j);
      }
    }
    hide LaneShaped;
    forall k | k != lane ensures AloneOn(grants, k) {
      forall i, j | 0 <= i < j < |grants| && grants[i].key == k ensures grants[j].key != k {
        LaneKeys(grants, labels, limits, keyOf, lane, i, j);
      }
    }
  }

  /** Two windows are on one counter only if they are the two daily ones. */
  lemma LaneKeys(
    grants: seq<Grant>, labels: seq<Label>, limits: map<Label, int>, keyOf: Label -> Key, lane: Key, i: nat, j: nat
  )
    requires LaneShaped(grants, labels, limits, keyOf, lane) && i < j < |grants|
    requires forall l, m :: keyOf(l) == keyOf(m) ==> l == m
    requires forall l :: keyOf(l) != lane
    ensures grants[i].key == grants[j].key ==> grants[i].key == lane && {labels[i], labels[j]} == {Rpd, Tpd}
    ensures grants[i].key == grants[j].key ==> Rpd in labels && Tpd in labels
  {
    assert labels[i] != labels[j];
    assert grants[i].window == labels[i] && grants[j].window == labels[j];
  }

  /** A perception reservation's labels are distinct, so it settles exactly; its counters are
      distinct too unless the model publishes both daily windows, which share the lane's one
      key; and its per-minute counters are the ones chat uses. */
  lemma PerceptionGrantsShape(published: map<Label, int>, headroom: real, reserved: real, keyOf: Label -> Key, lane: Key)
    requires forall l, m :: keyOf(l) == keyOf(m) ==> l == m
    requires forall l :: keyOf(l) != lane
    ensures var grants := PerceptionGrants(published, headroom, reserved, keyOf, lane);
      && DistinctLabels(grants)
      && (DistinctKeys(grants) <==> !(Rpd in published && Tpd in published))
      && forall i :: 0 <= i < |grants| ==>
           grants[i].key == if grants[i].window.Rpd? || grants[i].window.Tpd? then lane else keyOf(grants[i].window)
  {
    hide PerceptionGrants;
    hide DistinctKeys;
    PerceptionIsLaneShaped(published, headroom, reserved, keyOf, lane);
    LaneCounters(PerceptionGrants(published, headroom, reserved, keyOf, lane), Declared(published),
                 LaneLimits(published, headroom, reserved), keyOf, lane);
  }

  lemma LanePair(
    grants: seq<Grant>, labels: seq<Label>, limits: map<Label, int>, keyOf: Label -> Key, lane: Key, tokens: int, i: nat, j: nat
  )
    requires LaneShaped(grants, labels, limits, keyOf, lane) && tokens >= 0
    requires forall l :: keyOf(l) != lane
    requires i < j < |labels| && {labels[i], labels[j]} == {Rpd, Tpd}
    ensures Overshoots(grants, tokens, lane) <==>
      && (forall m :: 0 <= m < |grants| ==> grants[m].Cost(tokens) <= grants[m].limit)
      && limits[Rpd] <= limits[Tpd] < limits[Rpd] + tokens
  {
    assert labels[i] in {Rpd, Tpd} && labels[j] in {Rpd, Tpd} && labels[i] != labels[j];
    PairOvershootsIff(grants, tokens, lane, i, j);
  }

  /** Each window affords its own cost exactly when the token windows afford the estimate. */
  lemma LaneAffords(
    grants: seq<Grant>, labels: seq<Label>, limits: map<Label, int>, keyOf: Label -> Key, lane: Key, tokens: int
  )
    requires LaneShaped(grants, labels, limits, keyOf, lane)
    ensures (forall m :: 0 <= m < |grants| ==> grants[m].Cost(tokens) <= grants[m].limit) <==>
      forall l :: l in limits && l.IsToken() ==> tokens <= limits[l]
  {
    if forall m :: 0 <= m < |grants| ==> grants[m].Cost(tokens) <= grants[m].limit {
      forall l | l in limits && l.IsToken() ensures tokens <= limits[l] {
        var m :| 0 <= m < |labels| && labels[m] == l;
        assert grants[m].Cost(tokens) <= grants[m].limit;
      }
    }
  }

  /** A perception reservation can take a counter past its limits exactly when that is the
      lane's, the model publishes both daily windows, the token windows afford the estimate,
      and the token limit is at least the request limit but within the estimate of it. */
  lemma PerceptionOvershootsIff(
    published: map<Label, int>, headroom: real, reserved: real, keyOf: Label -> Key, lane: Key, tokens: int, k: Key
  )
    requires tokens >= 0
    requires forall l, m :: keyOf(l) == keyOf(m) ==> l == m
    requires forall l :: keyOf(l) != lane
    ensures var limits := LaneLimits(published, headroom, reserved);
      Overshoots(PerceptionGrants(published, headroom, reserved, keyOf, lane), tokens, k) <==>
        && k == lane && Rpd in published && Tpd in published
        && (forall l :: l in limits && l.IsToken() ==> tokens <= limits[l])
        && limits[Rpd] <= limits[Tpd] < limits[Rpd] + tokens
  {
    var labels, limits := Declared(published), LaneLimits(published, headroom, reserved);
    var grants := PerceptionGrants(published, headroom, reserved, keyOf, lane);
    PerceptionIsLaneShaped(published, headroom, reserved, keyOf, lane);
    hide PerceptionGrants;
    hide LaneLimit;
    hide Overshoots;
    hide LaneShaped;
    LaneCounters(grants, labels, limits, keyOf, lane);
    if k == lane && Rpd in labels && Tpd in labels {
      var r :| 0 <= r < |labels| && labels[r] == Rpd;
      var t :| 0 <= t < |labels| && labels[t] == Tpd;
      LanePair(grants, labels, limits, keyOf, lane, tokens, if r < t then r else t, if r < t then t else r);
      LaneAffords(grants, labels, limits, keyOf, lane, tokens);
    } else {
      AloneNeverOvershoots(grants, tokens, k);
    }
  }
}
