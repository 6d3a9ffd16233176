/** What the chain of a request holds and in which order, read off the registry's table itself:
    slots in declaration order, candidates in priority order (app/routing/selection.py). */
module ConfigOrder {
  import opened Common
  import opened Selecting
  import opened Selection

  /** A place in the table: which slot, and which of its candidates. */
  datatype Spot = Spot(slot: nat, place: nat)

  predicate Earlier(x: Spot, y: Spot) {
    x.slot < y.slot || (x.slot == y.slot && x.place < y.place)
  }

  predicate InTable(r: Registry, x: Spot) {
    x.slot < |r.order| && r.order[x.slot] in r.specs && x.place < |r.specs[r.order[x.slot]]|
  }

  function SpecAt(r: Registry, x: Spot): ModelSpec
    requires InTable(r, x)
  {
    r.specs[r.order[x.slot]][x.place]
  }

  /** A place whose slot is not among the closed ones. */
  predicate IsOpen(r: Registry, closed: set<string>, x: Spot) {
    InTable(r, x) && r.order[x.slot] !in closed
  }

  /** The first open place of a provider and model. */
  ghost predicate FirstSpot(r: Registry, closed: set<string>, q: Key, x: Spot) {
    && IsOpen(r, closed, x) && SpecAt(r, x).Id() == q
    && forall y :: IsOpen(r, closed, y) && Earlier(y, x) ==> SpecAt(r, y).Id() != q
  }

  /** A spec as the first open place of its pair lists it. */
  ghost predicate ListedFirst(r: Registry, spec: ModelSpec) {
    exists x :: FirstSpot(r, Closed(r), spec.Id(), x) && spec == SpecAt(r, x)
  }

  ghost predicate FirstSpots(r: Registry, q: Key, x: Spot, q': Key, y: Spot) {
    FirstSpot(r, Closed(r), q, x) && FirstSpot(r, Closed(r), q', y)
  }

  /** What `auto` may route to: some client-facing slot anyone can use lists the pair. */
  ghost predicate Offered(r: Registry, q: Key) {
    exists slot :: slot in r.order && slot !in r.internal && slot !in r.privateOnly && slot in r.specs && q in Ids(r.specs[slot])
  }

  /** Slots `auto` never routes to. */
  function Closed(r: Registry): set<string> {
    r.internal + r.privateOnly
  }

  /** The offered pairs that are not excluded, each as its first place lists it, by place. */
  ghost predicate InConfigOrder(r: Registry, specs: seq<ModelSpec>, excluded: set<Key>) {
    && (forall q :: q in Ids(specs) <==> Offered(r, q) && q !in excluded)
    && (forall a :: 0 <= a < |specs| ==> ListedFirst(r, specs[a]))
    && (forall a, b, x, y :: 0 <= a < b < |specs| && FirstSpots(r, specs[a].Id(), x, specs[b].Id(), y) ==> Earlier(x, y))
  }

  /** What a request's chain must be before ranking: for `auto` the offered pairs in config
      order; for a slot its own candidates, then the offered pairs it does not have. */
  ghost predicate ChainFor(r: Registry, requested: string, chain: seq<ModelSpec>) {
    if requested == AUTO then InConfigOrder(r, chain, {})
    else
      && requested in r.specs && r.specs[requested] <= chain
      && InConfigOrder(r, chain[|r.specs[requested]|..], Ids(r.specs[requested]))
  }

  // ----- the flattened list, place by place ---------------------------------------

  /** The places of one slot. */
  function Own(r: Registry, s: nat): seq<Spot>
    requires s < |r.order| && r.order[s] in r.specs
  {
    seq(|r.specs[r.order[s]]|, (p: nat) => Spot(s, p))
  }

  /** The open places of the first n slots, in order. */
  function Spots(r: Registry, closed: set<string>, n: nat): seq<Spot>
    requires r.Valid() && n <= |r.order|
  {
    if n == 0 then []
    else
      var slot := r.order[n - 1];
      Spots(r, closed, n - 1) + if slot in closed then [] else Own(r, n - 1)
  }

  lemma {:induction false} SpotsAreOpen(r: Registry, closed: set<string>, n: nat)
    requires r.Valid() && n <= |r.order|
    ensures forall i :: 0 <= i < |Spots(r, closed, n)| ==> IsOpen(r, closed, Spots(r, closed, n)[i]) && Spots(r, closed, n)[i].slot < n
    ensures forall i, j :: 0 <= i < j < |Spots(r, closed, n)| ==> Earlier(Spots(r, closed, n)[i], Spots(r, closed, n)[j])
  {
    if n > 0 {
      SpotsAreOpen(r, closed, n - 1);
    }
  }

  lemma {:induction false} SpotsAreAll(r: Registry, closed: set<string>, n: nat, x: Spot)
    requires r.Valid() && n <= |r.order| && IsOpen(r, closed, x) && x.slot < n
    ensures x in Spots(r, closed, n)
  {
    if x.slot < n - 1 {
      SpotsAreAll(r, closed, n - 1, x);
    } else {
      var own := Own(r, n - 1);
      assert own[x.place] == x;
    }
  }

  /** Every open place has its index, and earlier places come first. */
  lemma SpotIndex(r: Registry, closed: set<string>, x: Spot) returns (j: nat)
    requires r.Valid() && IsOpen(r, closed, x)
    ensures var spots := Spots(r, closed, |r.order|);
      && j < |spots| && spots[j] == x
      && forall i :: 0 <= i < |spots| && Earlier(x, spots[i]) ==> j < i
  {
    hide Spots;
    SpotsAreAll(r, closed, |r.order|, x);
    SpotsAreOpen(r, closed, |r.order|);
    j :| 0 <= j < |Spots(r, closed, |r.order|)| && Spots(r, closed, |r.order|)[j] == x;
  }

  /** A list of specs is what these places hold. */
  ghost predicate Holds(r: Registry, spots: seq<Spot>, specs: seq<ModelSpec>) {
    |spots| == |specs| && forall i :: 0 <= i < |spots| ==> InTable(r, spots[i]) && specs[i] == SpecAt(r, spots[i])
  }

  function Facing(r: Registry): seq<bool> {
    seq(|r.order|, i requires 0 <= i < |r.order| => r.order[i] !in r.internal)
  }

  /** The client-facing ones of the first n slots. */
  function Front(r: Registry, n: nat): seq<string>
    requires n <= |r.order|
  {
    Select(r.order[..n], Facing(r)[..n])
  }

  lemma FrontNext(r: Registry, n: nat)
    requires 0 < n <= |r.order|
    ensures Front(r, n) == if r.order[n - 1] in r.internal then Front(r, n - 1) else Front(r, n - 1) + [r.order[n - 1]]
  {
    assert r.order[..n][..n - 1] == r.order[..n - 1] && Facing(r)[..n][..n - 1] == Facing(r)[..n - 1];
    assert Front(r, n - 1) + [] == Front(r, n - 1);
  }

  lemma NoFront(r: Registry)
    ensures Front(r, 0) == [] && Holds(r, [], [])
  {
  }

  lemma {:induction false} FrontIsKnown(r: Registry, n: nat)
    requires r.Valid() && n <= |r.order|
    ensures forall slot :: slot in Front(r, n) ==> slot in r.specs
  {
    NoFront(r);
    if n > 0 {
      FrontIsKnown(r, n - 1);
      FrontNext(r, n);
      assert r.order[n - 1] in r.order;
      hide Front;
    }
  }

  lemma {:induction false} FlattenedHolds(r: Registry, skipped: set<string>, n: nat)
    requires r.Valid() && n <= |r.order|
    ensures forall slot :: slot in Front(r, n) ==> slot in r.specs
    ensures Holds(r, Spots(r, r.internal + skipped, n), Flattened(r, Front(r, n), skipped))
  {
    hide Front;
    hide Holds;
    FrontIsKnown(r, n);
    NoFront(r);
    if n > 0 {
      hide Flattened;
      hide Own;
      FlattenedHolds(r, skipped, n - 1);
      FrontNext(r, n);
      assert r.order[n - 1] in r.order;
      var slot := r.order[n - 1];
      if slot in r.internal {
        assert Spots(r, r.internal + skipped, n - 1) + [] == Spots(r, r.internal + skipped, n - 1);
      } else {
        FlattenedSnoc(r, Front(r, n - 1), slot, skipped);
        OneSlotHolds(r, n - 1);
        HoldsTogether(r, Spots(r, r.internal + skipped, n - 1), Flattened(r, Front(r, n - 1), skipped),
                      if slot in skipped then [] else Own(r, n - 1), if slot in skipped then [] else r.specs[slot]);
      }
    }
  }

  lemma FlattenedSnoc(r: Registry, slots: seq<string>, slot: string, skipped: set<string>)
    requires slot in r.specs && forall x :: x in slots ==> x in r.specs
    ensures Flattened(r, slots + [slot], skipped) == Flattened(r, slots, skipped) + if slot in skipped then [] else r.specs[slot]
  {
    assert (slots + [slot])[..|slots|] == slots;
  }

  lemma OneSlotHolds(r: Registry, s: nat)
    requires s < |r.order| && r.order[s] in r.specs
    ensures Holds(r, Own(r, s), r.specs[r.order[s]])
  {
  }

  lemma HoldsTogether(r: Registry, a: seq<Spot>, x: seq<ModelSpec>, b: seq<Spot>, y: seq<ModelSpec>)
    requires Holds(r, a, x) && Holds(r, b, y)
    ensures Holds(r, a + b, x + y)
  {
  }

  lemma ClientFacing(r: Registry, skipped: set<string>)
    requires r.Valid()
    ensures forall slot :: slot in Slots(r) ==> slot in r.specs
    ensures Holds(r, Spots(r, r.internal + skipped, |r.order|), Flattened(r, Slots(r), skipped))
  {
    FlattenedHolds(r, skipped, |r.order|);
    assert r.order[..|r.order|] == r.order && Facing(r)[..|r.order|] == Facing(r);
  }

  // ----- first occurrences --------------------------------------------------------

  lemma OriginsAscend(alive: seq<bool>, i: nat, j: nat)
    requires i < |alive| && j < |alive| && alive[j] && CountAlive(alive[..i]) < CountAlive(alive[..j])
    ensures i < j
  {
    if j < i {
      CountAliveMonotone(alive, j, i);
    }
  }

  /** A first occurrence in the flattened list stands at its pair's first place. */
  lemma FirstInList(r: Registry, closed: set<string>, flat: seq<ModelSpec>, i: nat)
    requires r.Valid() && Holds(r, Spots(r, closed, |r.order|), flat) && i < |flat| && Firsts(flat)[i]
    ensures FirstSpot(r, closed, flat[i].Id(), Spots(r, closed, |r.order|)[i])
  {
    var spots := Spots(r, closed, |r.order|);
    SpotsAreOpen(r, closed, |r.order|);
    forall y | IsOpen(r, closed, y) && Earlier(y, spots[i]) ensures SpecAt(r, y).Id() != flat[i].Id() {
      var j := SpotIndex(r, closed, y);
      assert flat[..i][j] == flat[j];
      assert flat[..i][j].Id() in Ids(flat[..i]);
    }
  }

  lemma FirstSpotUnique(r: Registry, closed: set<string>, q: Key, x: Spot, y: Spot)
    requires FirstSpot(r, closed, q, x) && FirstSpot(r, closed, q, y)
    ensures x == y
  {
    assert !Earlier(x, y) && !Earlier(y, x);
  }

  lemma OfferedFrom(r: Registry, flat: seq<ModelSpec>, i: nat)
    requires r.Valid() && Holds(r, Spots(r, Closed(r), |r.order|), flat) && i < |flat|
    ensures Offered(r, flat[i].Id())
  {
    hide Spots;
    SpotsAreOpen(r, Closed(r), |r.order|);
    var x := Spots(r, Closed(r), |r.order|)[i];
    var slot := r.order[x.slot];
    assert slot in r.order && r.specs[slot][x.place].Id() in Ids(r.specs[slot]);
  }

  lemma OfferedIsListed(r: Registry, flat: seq<ModelSpec>, q: Key)
    requires r.Valid() && Holds(r, Spots(r, Closed(r), |r.order|), flat) && Offered(r, q)
    ensures q in Ids(flat)
  {
    hide Spots;
    var slot :| slot in r.order && slot !in r.internal && slot !in r.privateOnly && slot in r.specs && q in Ids(r.specs[slot]);
    var s :| 0 <= s < |r.order| && r.order[s] == slot;
    var p :| 0 <= p < |r.specs[slot]| && r.specs[slot][p].Id() == q;
    var i := SpotIndex(r, Closed(r), Spot(s, p));
    assert flat[i].Id() == q;
  }

  /** A pair is in the flattened list exactly when it is offered. */
  lemma FlattenedOffers(r: Registry, flat: seq<ModelSpec>, q: Key)
    requires r.Valid() && Holds(r, Spots(r, Closed(r), |r.order|), flat)
    ensures q in Ids(flat) <==> Offered(r, q)
  {
    hide Spots;
    hide Offered;
    hide Holds;
    if q in Ids(flat) {
      var i :| 0 <= i < |flat| && flat[i].Id() == q;
      OfferedFrom(r, flat, i);
    }
    if Offered(r, q) {
      OfferedIsListed(r, flat, q);
    }
  }

  // ----- the theorems -------------------------------------------------------------

  /** Every first occurrence that is kept is listed as at its pair's first place. */
  lemma {:induction false} KeptIsFirst(r: Registry, flat: seq<ModelSpec>, keep: seq<bool>, a: nat) returns (i: nat)
    requires r.Valid() && Holds(r, Spots(r, Closed(r), |r.order|), flat) && |keep| == |flat|
    requires forall i :: 0 <= i < |flat| && keep[i] ==> Firsts(flat)[i]
    requires a < |Select(flat, keep)|
    ensures i < |flat| && keep[i] && CountAlive(keep[..i]) == a && Select(flat, keep)[a] == flat[i]
    ensures var x := Spots(r, Closed(r), |r.order|)[i];
      FirstSpot(r, Closed(r), flat[i].Id(), x) && flat[i] == SpecAt(r, x)
    ensures ListedFirst(r, flat[i])
  {
    hide Spots;
    hide Firsts;
    i := SelectOrigin(flat, keep, a);
    hide Select;
    FirstInList(r, Closed(r), flat, i);
  }

  lemma KeptInOrder(r: Registry, flat: seq<ModelSpec>, keep: seq<bool>, a: nat, b: nat, x: Spot, y: Spot)
    requires r.Valid() && Holds(r, Spots(r, Closed(r), |r.order|), flat) && |keep| == |flat|
    requires forall i :: 0 <= i < |flat| && keep[i] ==> Firsts(flat)[i]
    requires a < b < |Select(flat, keep)|
    requires FirstSpots(r, Select(flat, keep)[a].Id(), x, Select(flat, keep)[b].Id(), y)
    ensures Earlier(x, y)
  {
    hide Spots;
    hide Firsts;
    hide Select;
    var spots := Spots(r, Closed(r), |r.order|);
    var i := KeptIsFirst(r, flat, keep, a);
    var j := KeptIsFirst(r, flat, keep, b);
    OriginsAscend(keep, i, j);
    hide FirstSpot;
    FirstSpotUnique(r, Closed(r), flat[i].Id(), x, spots[i]);
    FirstSpotUnique(r, Closed(r), flat[j].Id(), y, spots[j]);
    SpotsAreOpen(r, Closed(r), |r.order|);
  }

  /** A selection of the first occurrences keeps the config order. */
  lemma SelectionInOrder(r: Registry, flat: seq<ModelSpec>, keep: seq<bool>, excluded: set<Key>)
    requires r.Valid() && Holds(r, Spots(r, Closed(r), |r.order|), flat) && |keep| == |flat|
    requires forall i :: 0 <= i < |flat| && keep[i] ==> Firsts(flat)[i]
    requires forall q :: q in Ids(Select(flat, keep)) <==> q in Ids(flat) && q !in excluded
    ensures InConfigOrder(r, Select(flat, keep), excluded)
  {
    hide Holds;
    hide Spots;
    hide Firsts;
    hide Select;
    hide Offered;
    hide Ids;
    hide Earlier;
    var specs := Select(flat, keep);
    forall q ensures q in Ids(specs) <==> Offered(r, q) && q !in excluded {
      FlattenedOffers(r, flat, q);
    }
    forall a | 0 <= a < |specs| ensures ListedFirst(r, specs[a]) {
      var _ := KeptIsFirst(r, flat, keep, a);
    }
    forall a, b, x, y | 0 <= a < b < |specs| && FirstSpots(r, specs[a].Id(), x, specs[b].Id(), y)
      ensures Earlier(x, y)
    {
      KeptInOrder(r, flat, keep, a, b, x, y);
    }
  }

  function Keeping(flat: seq<ModelSpec>, alive: seq<bool>, named: seq<ModelSpec>): seq<bool>
    requires |alive| == |flat|
  {
    seq(|flat|, i requires 0 <= i < |flat| => alive[i] && flat[i].Id() !in Ids(named))
  }

  lemma SpillSnoc(named: seq<ModelSpec>, specs: seq<ModelSpec>, x: ModelSpec)
    ensures Spill(named, specs + [x]) == Spill(named, specs) + if x.Id() in Ids(named) then [] else [x]
  {
    hide Ids;
    var all := specs + [x];
    var flags := seq(|all|, i requires 0 <= i < |all| => all[i].Id() !in Ids(named));
    assert all[..|specs|] == specs;
    assert flags[..|specs|] == seq(|specs|, i requires 0 <= i < |specs| => specs[i].Id() !in Ids(named));
  }

  /** Leaving the named slot's pairs out of the first occurrences is one selection. */
  lemma {:induction false} SpillIsSelection(named: seq<ModelSpec>, flat: seq<ModelSpec>, alive: seq<bool>)
    requires |alive| == |flat|
    ensures Spill(named, Select(flat, alive)) == Select(flat, Keeping(flat, alive, named))
  {
    hide Ids;
    if flat != [] {
      var n := |flat| - 1;
      SpillIsSelection(named, flat[..n], alive[..n]);
      assert Keeping(flat, alive, named)[..n] == Keeping(flat[..n], alive[..n], named);
      var before := Select(flat[..n], alive[..n]);
      if alive[n] {
        SpillSnoc(named, before, flat[n]);
      } else {
        assert before + [] == before;
      }
      hide Spill;
      hide Keeping;
    }
  }

  /** The `auto` chain is the offered pairs in config order. */
  lemma FleetInOrder(r: Registry)
    requires r.Valid()
    ensures InConfigOrder(r, FleetOf(r), {})
  {
    ClientFacing(r, r.privateOnly);
    var flat := Flattened(r, Slots(r), r.privateOnly);
    FirstsOnce(flat);
    hide InConfigOrder;
    SelectionInOrder(r, flat, Firsts(flat), {});
  }

  lemma SpillInOrder(r: Registry, named: seq<ModelSpec>)
    requires r.Valid()
    ensures InConfigOrder(r, Spill(named, FleetOf(r)), Ids(named))
  {
    ClientFacing(r, r.privateOnly);
    var flat := Flattened(r, Slots(r), r.privateOnly);
    FirstsOnce(flat);
    SpillIds(named, FleetOf(r));
    SpillIsSelection(named, flat, Firsts(flat));
    hide InConfigOrder;
    SelectionInOrder(r, flat, Keeping(flat, Firsts(flat), named), Ids(named));
  }

  /** The chain before ranking is the one the table asks for. */
  lemma UnrankedIsChain(r: Registry, requested: string)
    requires r.Valid() && Unranked(r, requested).Some?
    ensures ChainFor(r, requested, Unranked(r, requested).value)
  {
    hide InConfigOrder;
    hide FleetOf;
    hide Spill;
    if requested == AUTO {
      FleetInOrder(r);
    } else {
      var named := r.specs[requested];
      SpillInOrder(r, named);
      assert (named + Spill(named, FleetOf(r)))[|named|..] == Spill(named, FleetOf(r));
    }
  }

  /** What a chain of that description holds: every pair `auto` may route to, the named slot's
      own, and no other - in particular nothing only an internal or private-key slot lists. */
  lemma ChainHolds(r: Registry, requested: string, chain: seq<ModelSpec>, q: Key)
    requires ChainFor(r, requested, chain)
    ensures q in Ids(chain) <==> Offered(r, q) || (requested != AUTO && q in Ids(r.specs[requested]))
  {
    hide Offered;
    if requested != AUTO {
      var named := r.specs[requested];
      assert chain == named + chain[|named|..];
      ConcatIds(named, chain[|named|..]);
    }
  }
}
