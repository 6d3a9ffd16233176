/** The failover chain of a request and its reordering by measured latency
    (app/routing/selection.py, over app/providers/registry.py and app/usage/metrics.py). */
module Selection {
  import opened Common
  import opened Selecting

  const AUTO := "auto"

  datatype Key = Key(provider: string, model: string)

  datatype ModelSpec = ModelSpec(slot: string, provider: string, model: string) {
    function Id(): Key {
      Key(provider, model)
    }
  }

  /** The routable table: slot names in declaration order and each slot's candidates. */
  datatype Registry = Registry(
    order: seq<string>, specs: map<string, seq<ModelSpec>>, internal: set<string>, privateOnly: set<string>
  ) {
    ghost predicate Valid() {
      Distinct(order) && forall slot :: slot in order <==> slot in specs
    }
  }

  ghost predicate DistinctIds(specs: seq<ModelSpec>) {
    forall i, j :: 0 <= i < j < |specs| ==> specs[i].Id() != specs[j].Id()
  }

  function Ids(specs: seq<ModelSpec>): set<Key> {
    set i | 0 <= i < |specs| :: specs[i].Id()
  }

  // ----- the chain -------------------------------------------------------------

  /** Client-facing slots: everything but the internal ones. */
  function Slots(r: Registry): seq<string> {
    Select(r.order, seq(|r.order|, i requires 0 <= i < |r.order| => r.order[i] !in r.internal))
  }

  /** The candidates of the given slots one after the other, except of those in `skipped`. */
  function Flattened(r: Registry, slots: seq<string>, skipped: set<string>): seq<ModelSpec>
    requires forall slot :: slot in slots ==> slot in r.specs
  {
    if slots == [] then []
    else
      var last := slots[|slots| - 1];
      Flattened(r, slots[..|slots| - 1], skipped) + (if last in skipped then [] else r.specs[last])
  }

  /** Which specs are the first with their provider and model. */
  function Firsts(specs: seq<ModelSpec>): seq<bool> {
    seq(|specs|, i requires 0 <= i < |specs| => specs[i].Id() !in Ids(specs[..i]))
  }

  /** Only the first occurrences, in order. */
  function Deduped(specs: seq<ModelSpec>): seq<ModelSpec> {
    Select(specs, Firsts(specs))
  }

  /** The `auto` chain. */
  function FleetOf(r: Registry): seq<ModelSpec>
    requires r.Valid()
  {
    SlotsKnown(r);
    Deduped(Flattened(r, Slots(r), r.privateOnly))
  }

  lemma SelectMembers<T>(xs: seq<T>, alive: seq<bool>)
    requires |xs| == |alive|
    ensures forall x :: x in Select(xs, alive) ==> exists i :: 0 <= i < |xs| && alive[i] && xs[i] == x
    ensures forall i :: 0 <= i < |xs| && alive[i] ==> xs[i] in Select(xs, alive)
  {
    forall x | x in Select(xs, alive) ensures exists i :: 0 <= i < |xs| && alive[i] && xs[i] == x {
      var a :| 0 <= a < |Select(xs, alive)| && Select(xs, alive)[a] == x;
      var _ := SelectOrigin(xs, alive, a);
    }
    forall i | 0 <= i < |xs| && alive[i] ensures xs[i] in Select(xs, alive) {
      SelectAt(xs, alive, i);
    }
  }

  lemma SlotsKnown(r: Registry)
    requires r.Valid()
    ensures forall slot :: slot in Slots(r) <==> slot in r.specs && slot !in r.internal
  {
    SelectMembers(r.order, seq(|r.order|, i requires 0 <= i < |r.order| => r.order[i] !in r.internal));
  }

  /** `_fleet`. */
  method Fleet(r: Registry) returns (flattened: seq<ModelSpec>)
    requires r.Valid()
    ensures flattened == FleetOf(r)
  {
    hide Ids;
    hide Deduped;
    hide Slots;
    SlotsKnown(r);
    var slots := Slots(r);
    NoSpecs();
    ghost var flat := [];
    flattened := [];
    var seen: set<Key> := {};
    for i := 0 to |slots|
      invariant flat == Flattened(r, slots[..i], r.privateOnly)
      invariant seen == Ids(flat) && flattened == Deduped(flat)
    {
      assert slots[..i + 1][..i] == slots[..i];
      if slots[i] in r.privateOnly {
        continue;
      }
      var specs := r.specs[slots[i]];
      ghost var before := flat;
      for j := 0 to |specs|
        invariant flat == before + specs[..j]
        invariant seen == Ids(flat) && flattened == Deduped(flat)
      {
        var spec := specs[j];
        OneMoreSpec(flat, spec);
        flat := flat + [spec];
        assert specs[..j + 1] == specs[..j] + [spec];
        if spec.Id() in seen {
          continue;
        }
        seen := seen + {spec.Id()};
        flattened := flattened + [spec];
      }
      assert specs[..|specs|] == specs;
    }
    assert slots[..|slots|] == slots;
  }

  lemma NoSpecs()
    ensures Ids([]) == {} && Deduped([]) == []
  {
  }

  lemma OneMoreSpec(flat: seq<ModelSpec>, spec: ModelSpec)
    ensures Ids(flat + [spec]) == Ids(flat) + {spec.Id()}
    ensures Deduped(flat + [spec]) ==
      Deduped(flat) + (if spec.Id() in Ids(flat) then [] else [spec])
  {
    var more := flat + [spec];
    assert forall i :: 0 <= i < |flat| ==> more[i] == flat[i] && more[..i] == flat[..i];
    assert more[..|flat|] == flat && more[|flat|] == spec;
    assert Firsts(more)[..|flat|] == Firsts(flat);
    assert forall k :: k in Ids(more) ==> k in Ids(flat) + {spec.Id()};
    assert forall i :: 0 <= i < |flat| ==> more[i].Id() in Ids(more);
  }

  /** First occurrences have distinct ids and lose none. */
  lemma {:induction false} FirstsOnce(flat: seq<ModelSpec>)
    ensures DistinctIds(Deduped(flat))
    ensures Ids(Deduped(flat)) == Ids(flat)
  {
    hide Ids;
    hide Deduped;
    NoSpecs();
    if flat != [] {
      var before, last := flat[..|flat| - 1], flat[|flat| - 1];
      FirstsOnce(before);
      assert flat == before + [last];
      OneMoreSpec(before, last);
      assert last.Id() in Ids(before) ==> Ids(flat) == Ids(before);
      assert Deduped(before) + [] == Deduped(before);
      Appended(Deduped(before), last);
    }
  }

  lemma Appended(specs: seq<ModelSpec>, last: ModelSpec)
    ensures Ids(specs + [last]) == Ids(specs) + {last.Id()}
    ensures DistinctIds(specs) && last.Id() !in Ids(specs) ==> DistinctIds(specs + [last])
  {
    OneMoreSpec(specs, last);
    assert forall i :: 0 <= i < |specs| ==> specs[i].Id() in Ids(specs);
  }

  /** The rest of the fleet behind a named slot's own candidates. */
  function Spill(named: seq<ModelSpec>, fleet: seq<ModelSpec>): seq<ModelSpec> {
    Select(fleet, seq(|fleet|, i requires 0 <= i < |fleet| => fleet[i].Id() !in Ids(named)))
  }

  /** The chain before ranking, or nothing for an unknown slot. */
  function Unranked(r: Registry, requested: string): Option<seq<ModelSpec>>
    requires r.Valid()
  {
    if requested == AUTO then Some(FleetOf(r))
    else if requested !in r.specs then None
    else Some(r.specs[requested] + Spill(r.specs[requested], FleetOf(r)))
  }

  lemma SpillIds(named: seq<ModelSpec>, fleet: seq<ModelSpec>)
    ensures Ids(Spill(named, fleet)) == Ids(fleet) - Ids(named)
  {
    var spill := Spill(named, fleet);
    SelectMembers(fleet, seq(|fleet|, i requires 0 <= i < |fleet| => fleet[i].Id() !in Ids(named)));
    forall i | 0 <= i < |spill| ensures spill[i].Id() in Ids(fleet) - Ids(named) {
      assert spill[i] in spill;
    }
    forall k | k in Ids(fleet) - Ids(named) ensures k in Ids(spill) {
      var i :| 0 <= i < |fleet| && fleet[i].Id() == k;
      assert fleet[i] in spill;
      var j :| 0 <= j < |spill| && spill[j] == fleet[i];
      assert spill[j].Id() == k;
    }
  }

  lemma ConcatIds(a: seq<ModelSpec>, b: seq<ModelSpec>)
    ensures Ids(a + b) == Ids(a) + Ids(b)
    ensures Ids(a) !! Ids(b) && DistinctIds(b) ==> (DistinctIds(a + b) <==> DistinctIds(a))
  {
    var all := a + b;
    assert forall i :: 0 <= i < |a| ==> all[i] == a[i] && a[i].Id() in Ids(a) && all[i].Id() in Ids(all);
    forall i | 0 <= i < |b| ensures all[|a| + i] == b[i] && b[i].Id() in Ids(b) && b[i].Id() in Ids(all) {
      assert all[|a| + i].Id() in Ids(all);
    }
    forall i | 0 <= i < |all| ensures all[i].Id() in Ids(a) + Ids(b) {
      if i >= |a| {
        assert all[i] == b[i - |a|];
      }
    }
  }
}
