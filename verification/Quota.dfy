/** Reserve, commit and release over shared counters (app/quota/tracker.py and the three Lua
    scripts it drives, app/quota/scripts). Each script is one atomic step, Redis answering.
    Window resets enter only as the expiry of a counter; TTL arithmetic is not modelled. */
module Quota {
  import opened Common

  datatype Label = Rpm | Rpd | Tpm | Tpd {
    /** `_TOKEN_WINDOWS`. */
    predicate IsToken() {
      Tpm? || Tpd?
    }
  }

  type Key = string
  type Counters = map<Key, int>
  type Record = map<Label, int>

  /** A WindowGrant: which counter, at what ceiling. */
  datatype Grant = Grant(window: Label, limit: int, costIsTokens: bool, key: Key) {
    function Cost(tokens: int): int {
      if costIsTokens then tokens else 1
    }
  }

  /** The receipt commit and release settle from. */
  datatype Reservation = Reservation(id: string, tokens: int, windows: seq<Label>, keys: seq<Key>)

  function Value(c: Counters, k: Key): int {
    if k in c then c[k] else 0
  }

  function Receipt(id: string, tokens: int, grants: seq<Grant>): (r: Reservation)
    ensures |r.windows| == |r.keys| == |grants|
  {
    Reservation(id, tokens,
                seq(|grants|, i requires 0 <= i < |grants| => grants[i].window),
                seq(|grants|, i requires 0 <= i < |grants| => grants[i].key))
  }

  // ----- reserve.lua -----------------------------------------------------------

  /** Pass 1: every window can afford its cost, before any is charged. */
  predicate Affordable(c: Counters, grants: seq<Grant>, tokens: int) {
    forall i :: 0 <= i < |grants| ==> Value(c, grants[i].key) + grants[i].Cost(tokens) <= grants[i].limit
  }

  /** Pass 2 on the first n windows: INCRBY each counter. */
  function Charge(c: Counters, grants: seq<Grant>, tokens: int, n: nat): Counters
    requires n <= |grants|
  {
    if n == 0 then c
    else
      var c' := Charge(c, grants, tokens, n - 1);
      var g := grants[n - 1];
      c'[g.key := Value(c', g.key) + g.Cost(tokens)]
  }

  /** HINCRBY of the reservation's field for each window. */
  function Note(r: Record, grants: seq<Grant>, tokens: int, n: nat): Record
    requires n <= |grants|
  {
    if n == 0 then r
    else
      var r' := Note(r, grants, tokens, n - 1);
      var g := grants[n - 1];
      r'[g.window := Reserved(r', g.window) + g.Cost(tokens)]
  }

  function Reserved(r: Record, l: Label): int {
    if l in r then r[l] else 0
  }

  // ----- release.lua and commit.lua --------------------------------------------

  /** `dict(zip(windows, keys))[label]`: the last of equal labels wins. */
  function KeyFor(windows: seq<Label>, keys: seq<Key>, l: Label): Key
    requires |windows| == |keys| && l in windows
  {
    var n := |windows| - 1;
    if windows[n] == l then keys[n]
    else
      assert l in windows[..n];
      KeyFor(windows[..n], keys[..n], l)
  }

  /** INCRBY by -amount, clamped at zero; an expired counter is left alone. */
  function GiveBack(c: Counters, k: Key, amount: int): Counters {
    if amount > 0 && k in c then c[k := if c[k] - amount < 0 then 0 else c[k] - amount] else c
  }

  /** release.lua over the first n windows. */
  function Refund(c: Counters, record: Record, r: Reservation, n: nat): Counters
    requires n <= |r.windows| == |r.keys|
  {
    if n == 0 then c
    else
      var l := r.windows[n - 1];
      GiveBack(Refund(c, record, r, n - 1), KeyFor(r.windows, r.keys, l), Reserved(record, l))
  }

  /** Move one token counter from the estimate to the actual. */
  function Correct(c: Counters, k: Key, delta: int): Counters {
    if delta > 0 then c[k := Value(c, k) + delta]
    else if delta < 0 && k in c then c[k := if c[k] + delta < 0 then 0 else c[k] + delta]
    else c
  }

  /** The reservation's token windows that limits.yaml still declares, in declared order. */
  function Settled(published: set<Label>, r: Reservation): (settled: seq<Label>)
    ensures forall j :: 0 <= j < |settled| ==> settled[j] in r.windows && settled[j].IsToken()
    ensures Distinct(settled)
  {
    (if Tpm in published && Tpm in r.windows then [Tpm] else []) +
    (if Tpd in published && Tpd in r.windows then [Tpd] else [])
  }

  /** A window is settled exactly when it counts tokens, is published and was reserved. */
  lemma SettledExactly(published: set<Label>, r: Reservation, l: Label)
    ensures l in Settled(published, r) <==> l.IsToken() && l in published && l in r.windows
  {
    var a, b := if Tpm in published && Tpm in r.windows then [Tpm] else [], if Tpd in published && Tpd in r.windows then [Tpd] else [];
    assert l in a + b <==> l in a || l in b;
  }

  /** commit.lua over the first n settled windows. */
  function Settle(c: Counters, record: Record, r: Reservation, settled: seq<Label>, actual: int, n: nat): Counters
    requires n <= |settled| && |r.windows| == |r.keys|
    requires forall j :: 0 <= j < |settled| ==> settled[j] in r.windows
  {
    if n == 0 then c
    else
      var l := settled[n - 1];
      Correct(Settle(c, record, r, settled, actual, n - 1), KeyFor(r.windows, r.keys, l), actual - Reserved(record, l))
  }

  // ----- the tracker -----------------------------------------------------------

  class QuotaTracker {
    var counters: Counters
    var reservations: map<string, Record>

    constructor ()
      ensures counters == map[] && reservations == map[]
    {
      counters, reservations := map[], map[];
    }

    /** `reserve_windows`: all or nothing. None stands for a refusal. */
    method ReserveWindows(grants: seq<Grant>, tokens: int, id: string) returns (r: Option<Reservation>)
      requires tokens >= 0
      modifies this
      ensures grants == [] || Affordable(old(counters), grants, tokens) <==> r.Some?
      ensures r.Some? ==> r.value == Receipt(id, tokens, grants)
      ensures counters == if r.Some? then Charge(old(counters), grants, tokens, |grants|) else old(counters)
      ensures reservations ==
        if r.Some? && grants != []
        then old(reservations)[id := Note(if id in old(reservations) then old(reservations)[id] else map[], grants, tokens, |grants|)]
        else old(reservations)
    {
      if grants == [] {
        return Some(Receipt(id, tokens, grants));
      }
      for i := 0 to |grants|
        invariant forall j :: 0 <= j < i ==> Value(counters, grants[j].key) + grants[j].Cost(tokens) <= grants[j].limit
        invariant counters == old(counters) && reservations == old(reservations)
      {
        if Value(counters, grants[i].key) + grants[i].Cost(tokens) > grants[i].limit {
          return None;
        }
      }
      var record: Record := if id in reservations then reservations[id] else map[];
      ghost var was := record;
      for i := 0 to |grants|
        invariant counters == Charge(old(counters), grants, tokens, i)
        invariant record == Note(was, grants, tokens, i)
        invariant reservations == old(reservations)
      {
        var g := grants[i];
        counters := counters[g.key := Value(counters, g.key) + g.Cost(tokens)];
        record := record[g.window := Reserved(record, g.window) + g.Cost(tokens)];
      }
      reservations := reservations[id := record];
      return Some(Receipt(id, tokens, grants));
    }

    /** `release`: everything back, or nothing when the record is gone. */
    method Release(r: Reservation)
      requires |r.windows| == |r.keys|
      modifies this
      ensures reservations == if r.windows == [] then old(reservations) else old(reservations) - {r.id}
      ensures counters ==
        if r.windows != [] && r.id in old(reservations) then Refund(old(counters), old(reservations)[r.id], r, |r.windows|)
        else old(counters)
    {
      if r.windows == [] || r.id !in reservations {
        return;
      }
      for i := 0 to |r.windows|
        invariant reservations == old(reservations)
        invariant counters == Refund(old(counters), reservations[r.id], r, i)
      {
        var l := r.windows[i];
        counters := GiveBack(counters, KeyFor(r.windows, r.keys, l), Reserved(reservations[r.id], l));
      }
      reservations := reservations - {r.id};
    }

    /** `commit`: the token estimate becomes the actual; request windows stay charged. */
    method Commit(r: Reservation, published: set<Label>, actual: int)
      requires |r.windows| == |r.keys|
      modifies this
      ensures reservations == if r.windows == [] then old(reservations) else old(reservations) - {r.id}
      ensures counters ==
        if r.windows != [] && r.id in old(reservations)
        then Settle(old(counters), old(reservations)[r.id], r, Settled(published, r), actual, |Settled(published, r)|)
        else old(counters)
    {
      if r.windows == [] || r.id !in reservations {
        return;
      }
      var settled := Settled(published, r);
      for j := 0 to |settled|
        invariant reservations == old(reservations)
        invariant counters == Settle(old(counters), reservations[r.id], r, settled, actual, j)
      {
        var l := settled[j];
        counters := Correct(counters, KeyFor(r.windows, r.keys, l), actual - Reserved(reservations[r.id], l));
      }
      reservations := reservations - {r.id};
    }
  }
}
