/** What dropping whole turns promises about the history that is left. */
module DroppingTheorems {
  import opened Common
  import opened Canonical
  import opened Selecting
  import opened Measuring
  import opened Dropping

  function DroppedBy(ms: seq<Message>, k: nat): (d: nat)
    requires k <= |Groups(ms)|
    ensures d <= |All(ms)|
  {
    TurnsPartition(ms, Pins(ms), 0, k);
    Size(Groups(ms), k)
  }

  /** Whether message i is still there after k turns went. */
  predicate Survives(ms: seq<Message>, k: nat, i: nat)
    requires k <= |Groups(ms)| && i < |ms|
  {
    Alive(ms, DroppedBy(ms, k))[i]
  }

  /** Where message i lands: behind exactly the earlier survivors. */
  function Place(ms: seq<Message>, k: nat, i: nat): nat
    requires k <= |Groups(ms)| && i <= |ms|
  {
    CountAlive(Alive(ms, DroppedBy(ms, k))[..i])
  }

  lemma AllAlive(ms: seq<Message>)
    ensures forall i :: 0 <= i < |ms| ==> Alive(ms, 0)[i]
    ensures All(ms) != [] ==> ms != []
  {
  }

  lemma AnchorSurvives(ms: seq<Message>, k: nat)
    requires ms != [] && k <= |Groups(ms)|
    ensures Survives(ms, k, Anchor(ms))
  {
    DroppableFacts(ms, Pins(ms), 0);
  }

  lemma SomethingSurvives(ms: seq<Message>, k: nat)
    requires ms != [] && k <= |Groups(ms)|
    ensures CountAlive(Alive(ms, DroppedBy(ms, k))) > 0
  {
    AnchorSurvives(ms, k);
    SelectAt(ms, Alive(ms, DroppedBy(ms, k)), Anchor(ms));
    SelectLength(ms, Alive(ms, DroppedBy(ms, k)));
  }

  /** What the dropped messages reported missing themselves. */
  function Carried(ms: seq<Message>, k: nat): int
    requires k <= |Groups(ms)|
  {
    Omitted(Select(ms, Flip(Alive(ms, DroppedBy(ms, k)))))
  }

  /** Message i opens what the model sees: it is the first survivor, unless that is a system
      prompt with something behind it, and then it is the second. */
  ghost predicate Opens(ms: seq<Message>, k: nat, i: nat)
    requires k <= |Groups(ms)| && i < |ms|
  {
    OpensAmong(ms, Alive(ms, DroppedBy(ms, k)), i)
  }

  ghost predicate OpensAmong(ms: seq<Message>, alive: seq<bool>, i: nat)
    requires i < |ms| == |alive|
  {
    && alive[i]
    && (|| (&& (forall j :: 0 <= j < i ==> !alive[j])
            && !(ms[i].role.System? && exists j :: i < j < |ms| && alive[j]))
        || (exists s :: 0 <= s < i && ms[s].role.System? && OnlyBefore(alive, s, i)))
  }

  /** Survivors are all there and in their order; the counts add up. What is dropped is
      reported in the message that opens the rest, and every other one is unchanged. */
  lemma SurvivorsKeepOrder(ms: seq<Message>, attached: Attached, measure: Measure, k: nat, i: nat)
    requires k <= |Groups(ms)| && i < |ms| && Survives(ms, k, i)
    ensures var r := Trimmed(ms, attached, measure, k);
      && |r| + DroppedBy(ms, k) == |ms|
      && Place(ms, k, i) < |r|
      && r[Place(ms, k, i)] == ms[i].(content := r[Place(ms, k, i)].content)
      && (if DroppedBy(ms, k) > 0 && Opens(ms, k, i)
          then MarkerRaised(r[Place(ms, k, i)].content, ms[i].content, DroppedBy(ms, k) + Carried(ms, k))
          else r[Place(ms, k, i)] == ms[i])
      && forall j :: i < j < |ms| ==> Place(ms, k, i) < Place(ms, k, j)
  {
    var d := DroppedBy(ms, k);
    var alive := Alive(ms, d);
    AliveCount(ms, d);
    SelectLength(ms, alive);
    SelectAt(ms, alive, i);
    forall j | i < j < |ms| ensures Place(ms, k, i) < Place(ms, k, j) {
      CountAliveMonotone(alive, i, j);
    }
    MarkedSurvivor(ms, attached, measure, k, Place(ms, k, i));
    OpensIsTarget(ms, k, i);
  }

  lemma MarkedSurvivor(ms: seq<Message>, attached: Attached, measure: Measure, k: nat, p: nat)
    requires k <= |Groups(ms)| && p < |Select(ms, Alive(ms, DroppedBy(ms, k)))|
    ensures var r := Trimmed(ms, attached, measure, k);
      var survivors := Select(ms, Alive(ms, DroppedBy(ms, k)));
      && p < |r| && r[p] == survivors[p].(content := r[p].content)
      && (if DroppedBy(ms, k) > 0 && p == MarkerTarget(survivors)
          then MarkerRaised(r[p].content, survivors[p].content, DroppedBy(ms, k) + Carried(ms, k))
          else r[p] == survivors[p])
  {
    var d := DroppedBy(ms, k);
    var alive := Alive(ms, d);
    hide Alive;
    hide WithOmissionMarker;
    hide MarkerRaised;
    hide Select;
    hide Groups;
    hide All;
    hide Costs;
    hide MarkerTarget;
    var survivors := Select(ms, alive);
    SelectLength(ms, alive);
    if d > 0 {
      var t := MarkerTarget(survivors);
      MarkingRaises(survivors[t], d + Omitted(Select(ms, Flip(alive))));
    }
  }

  /** The message that opens the rest is the one the marker goes to. */
  lemma OpensIsTarget(ms: seq<Message>, k: nat, i: nat)
    requires k <= |Groups(ms)| && i < |ms| && Survives(ms, k, i)
    ensures var survivors := Select(ms, Alive(ms, DroppedBy(ms, k)));
      survivors != [] && (Opens(ms, k, i) <==> Place(ms, k, i) == MarkerTarget(survivors))
  {
    hide Alive;
    hide OpensAmong;
    hide Groups;
    OpensAmongIsTarget(ms, Alive(ms, DroppedBy(ms, k)), i);
  }

  lemma OpensAmongIsTarget(ms: seq<Message>, alive: seq<bool>, i: nat)
    requires i < |ms| == |alive| && alive[i]
    ensures Select(ms, alive) != []
    ensures OpensAmong(ms, alive, i) <==> CountAlive(alive[..i]) == MarkerTarget(Select(ms, alive))
  {
    hide Select;
    hide CountAlive;
    SelectAt(ms, alive, i);
    CountNone(alive, i);
    CountOne(alive, i);
    if CountAlive(alive[..i]) == 0 {
      AnotherSurvives(ms, alive, i);
    } else if CountAlive(alive[..i]) == 1 {
      var s :| 0 <= s < i && OnlyBefore(alive, s, i);
      CountNone(alive, s);
      SelectAt(ms, alive, s);
      assert forall t :: 0 <= t < i && OnlyBefore(alive, t, i) ==> t == s;
    }
  }

  /** Behind the first survivor there is another exactly when there are two. */
  lemma AnotherSurvives(ms: seq<Message>, alive: seq<bool>, i: nat)
    requires |ms| == |alive| && i < |ms| && alive[i] && CountAlive(alive[..i]) == 0
    ensures |Select(ms, alive)| > 1 <==> exists j: nat :: i < j < |ms| && alive[j]
  {
    SelectLength(ms, alive);
    assert alive[..|alive|] == alive;
    CountNone(alive, i);
    CountOne(alive, |alive|);
    CountAliveMonotone(alive, i, |alive|);
    if forall j: nat :: i < j < |ms| ==> !alive[j] {
      assert OnlyBefore(alive, i, |alive|);
    }
  }

  /** Only unpinned messages go, and the oldest of them first. */
  lemma OldestGoFirst(ms: seq<Message>, k: nat, i: nat, j: nat)
    requires k <= |Groups(ms)| && i < |ms| && j < |ms| && !Survives(ms, k, i)
    ensures i !in Pins(ms)
    ensures Survives(ms, k, j) && j !in Pins(ms) ==> i < j
  {
    DroppableFacts(ms, Pins(ms), 0);
    var all, d := All(ms), DroppedBy(ms, k);
    var p :| 0 <= p < d && all[p] == i;
    if Survives(ms, k, j) && j !in Pins(ms) {
      var q :| 0 <= q < |all| && all[q] == j;
      assert q >= d;
    }
  }

  /** The last user message is never dropped. */
  lemma LastUserSurvives(ms: seq<Message>, k: nat, i: nat)
    requires k <= |Groups(ms)| && i < |ms|
    requires ms[i].role.User? && forall j :: i < j < |ms| ==> !ms[j].role.User?
    ensures Survives(ms, k, i)
  {
    LastUserIsLast(ms, |ms|, i);
    AnchorSurvives(ms, k);
  }

  /** The last message dropped never leaves its own answer behind. */
  lemma LastDroppedEndsTurn(ms: seq<Message>, k: nat)
    requires k <= |Groups(ms)| && DroppedBy(ms, k) > 0
    ensures !OpensTurn(ms, Pins(ms), All(ms)[DroppedBy(ms, k) - 1])
  {
    TurnsPartition(ms, Pins(ms), 0, k - 1);
    TurnsAreWhole(ms, Pins(ms), 0, k - 1);
    var g := Groups(ms)[k - 1];
    assert g[|g| - 1] == All(ms)[DroppedBy(ms, k) - 1];
  }

  lemma NeighboursInDroppable(ms: seq<Message>, p: nat)
    requires p < |All(ms)|
    requires OpensTurn(ms, Pins(ms), All(ms)[p])
    ensures p + 1 < |All(ms)| && All(ms)[p + 1] == All(ms)[p] + 1
  {
    DroppableFacts(ms, Pins(ms), 0);
    var all := All(ms);
    var q :| 0 <= q < |all| && all[q] == all[p] + 1;
    assert p < q;
    assert all[p] < all[p + 1] <= all[q];
  }

  /** No answer survives the question right before it. */
  lemma NoOrphanedAnswer(ms: seq<Message>, k: nat, i: nat)
    requires k <= |Groups(ms)| && i + 1 < |ms|
    requires ms[i].role.User? && ms[i + 1].role.Assistant?
    requires !Survives(ms, k, i)
    ensures !Survives(ms, k, i + 1)
  {
    var d, all := DroppedBy(ms, k), All(ms);
    assert OpensTurn(ms, Pins(ms), i) by {
      DroppableFacts(ms, Pins(ms), 0);
      LastUserIsLast(ms, |ms|, i);
    }
    var p :| 0 <= p < d && all[p] == i;
    NeighboursInDroppable(ms, p);
    LastDroppedEndsTurn(ms, k);
    assert all[..d][p + 1] == i + 1;
  }

  /** On a history `validate` accepts, no system message is ever dropped. */
  lemma SystemSurvives(ms: seq<Message>, k: nat, i: nat)
    requires CanonicalHistory(ms) && k <= |Groups(ms)| && i < |ms| && ms[i].role.System?
    ensures Survives(ms, k, i)
  {
    assert CanonicalAt(ms, i);
    DroppableFacts(ms, Pins(ms), 0);
  }

  /** When anything is dropped, what the history reports missing grows by exactly that
      many, including what dropped messages themselves reported. */
  lemma OmissionsConserved(ms: seq<Message>, attached: Attached, measure: Measure, k: nat)
    requires k <= |Groups(ms)|
    ensures Omitted(Trimmed(ms, attached, measure, k)) == Omitted(ms) + DroppedBy(ms, k)
  {
    hide Alive;
    hide WithOmissionMarker;
    var d := DroppedBy(ms, k);
    var alive := Alive(ms, d);
    var survivors := Select(ms, alive);
    SelectLength(ms, alive);
    AllAlive(ms);
    if d == 0 {
      SelectAll(ms, alive);
    } else {
      SomethingSurvives(ms, k);
      OmittedSplits(ms, alive);
      var t := MarkerTarget(survivors);
      var extra := d + Omitted(Select(ms, Flip(alive)));
      MarkingAdds(survivors[t], extra);
      OmittedUpdate(survivors, t, WithOmissionMarker(survivors[t], extra));
    }
  }

  /** Dropping stops at the shortest non-empty prefix of turns that fits, or takes them all. */
  lemma ShortestPrefix(ms: seq<Message>, attached: Attached, measure: Measure, budget: int)
    ensures var k := TurnsDropped(ms, attached, measure, budget);
      && (Groups(ms) != [] ==> k >= 1)
      && (forall j :: 1 <= j < k ==> !FitsAfter(ms, attached, measure, budget, j))
      && (k < |Groups(ms)| ==> FitsAfter(ms, attached, measure, budget, k))
      && (k == |Groups(ms)| ==> DroppedBy(ms, k) == |All(ms)|)
  {
    hide FitsAfter;
    var k := TurnsDropped(ms, attached, measure, budget);
    TurnsPartition(ms, Pins(ms), 0, k);
    var flags := FitFlags(ms, attached, measure, budget);
    forall j | 1 <= j < k ensures !FitsAfter(ms, attached, measure, budget, j) {
      assert !flags[j];
    }
  }
}
