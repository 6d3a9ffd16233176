/** Dropping whole turns, oldest first, and marking the gap (app/memory/fitting.py). */
module Dropping {
  import opened Common
  import opened Canonical
  import opened Selecting
  import opened Measuring

  // ----- pinning ---------------------------------------------------------------

  /** The last user message before position n, if any. */
  function LastUser(ms: seq<Message>, n: nat): (r: Option<nat>)
    requires n <= |ms|
    ensures r.Some? ==> r.value < n && ms[r.value].role.User?
  {
    if n == 0 then None
    else if ms[n - 1].role.User? then Some(n - 1)
    else LastUser(ms, n - 1)
  }

  lemma {:induction false} LastUserIsLast(ms: seq<Message>, n: nat, i: nat)
    requires i < n <= |ms| && ms[i].role.User?
    ensures LastUser(ms, n).Some? && i <= LastUser(ms, n).value
  {
    if i < n - 1 {
      LastUserIsLast(ms, n - 1, i);
    }
  }

  /** The question, or the tail of a history that asks none. */
  function Anchor(ms: seq<Message>): (a: nat)
    requires ms != []
    ensures a < |ms|
  {
    LastUser(ms, |ms|).GetOr(|ms| - 1)
  }

  /** Never dropped: the system message in front, and the question. */
  function Pins(ms: seq<Message>): (pins: set<nat>)
    ensures forall i :: i in pins ==> i < |ms|
  {
    if ms == [] then {}
    else (if ms[0].role.System? then {0} else {}) + {Anchor(ms)}
  }

  /** Pinned is exactly a system message in front, the last user message, and, in a history
      without a user message, its tail. */
  lemma PinnedExactly(ms: seq<Message>, i: nat)
    requires i < |ms|
    ensures i in Pins(ms) <==>
      || (i == 0 && ms[i].role.System?)
      || (ms[i].role.User? && forall j :: i < j < |ms| ==> !ms[j].role.User?)
      || (i == |ms| - 1 && forall j :: 0 <= j < |ms| ==> !ms[j].role.User?)
  {
    forall j: nat | j < |ms| && ms[j].role.User? ensures LastUser(ms, |ms|).Some? && j <= LastUser(ms, |ms|).value {
      LastUserIsLast(ms, |ms|, j);
    }
  }

  method PinnedIndices(ms: seq<Message>) returns (pinned: set<nat>)
    ensures pinned == Pins(ms)
  {
    pinned := {};
    if ms != [] && ms[0].role.System? {
      pinned := pinned + {0};
    }
    var index := |ms|;
    while index > 0 && !ms[index - 1].role.User?
      invariant 0 <= index <= |ms|
      invariant LastUser(ms, index) == LastUser(ms, |ms|)
    {
      index := index - 1;
    }
    if index > 0 {
      pinned := pinned + {index - 1};
    } else if ms != [] {
      pinned := pinned + {|ms| - 1};
    }
  }

  // ----- turns -----------------------------------------------------------------

  /** Droppable positions from i on, ascending. */
  function Droppable(ms: seq<Message>, pins: set<nat>, i: nat): seq<nat>
    requires i <= |ms|
    decreases |ms| - i
  {
    if i == |ms| then []
    else if i in pins then Droppable(ms, pins, i + 1)
    else [i] + Droppable(ms, pins, i + 1)
  }

  /** Droppable lists exactly the unpinned positions, in strictly ascending order. */
  lemma {:induction false} DroppableFacts(ms: seq<Message>, pins: set<nat>, i: nat)
    requires i <= |ms|
    ensures forall k :: 0 <= k < |Droppable(ms, pins, i)| ==> i <= Droppable(ms, pins, i)[k] < |ms| && Droppable(ms, pins, i)[k] !in pins
    ensures forall k, l :: 0 <= k < l < |Droppable(ms, pins, i)| ==> Droppable(ms, pins, i)[k] < Droppable(ms, pins, i)[l]
    ensures forall j: nat :: i <= j < |ms| && j !in pins ==> j in Droppable(ms, pins, i)
    decreases |ms| - i
  {
    if i < |ms| {
      DroppableFacts(ms, pins, i + 1);
      var rest := Droppable(ms, pins, i + 1);
      if i !in pins {
        assert Droppable(ms, pins, i) == [i] + rest;
        assert forall j: nat :: i + 1 <= j < |ms| && j !in pins ==> j in [i] + rest;
      }
    }
  }

  /** A droppable question followed by its droppable answer. */
  predicate OpensTurn(ms: seq<Message>, pins: set<nat>, i: nat) {
    && i + 1 < |ms|
    && i !in pins && i + 1 !in pins
    && ms[i].role.User? && ms[i + 1].role.Assistant?
  }

  /** Droppable positions from i on, bundled into whole turns. */
  function Turns(ms: seq<Message>, pins: set<nat>, i: nat): seq<seq<nat>>
    requires i <= |ms|
    decreases |ms| - i
  {
    if i == |ms| then []
    else if i in pins then Turns(ms, pins, i + 1)
    else if OpensTurn(ms, pins, i) then [[i, i + 1]] + Turns(ms, pins, i + 2)
    else [[i]] + Turns(ms, pins, i + 1)
  }

  /** The turn that starts at a droppable position. */
  function TurnAt(ms: seq<Message>, pins: set<nat>, i: nat): seq<nat> {
    if OpensTurn(ms, pins, i) then [i, i + 1] else [i]
  }

  lemma UnfoldTurn(ms: seq<Message>, pins: set<nat>, i: nat)
    requires i < |ms| && i !in pins
    ensures i + |TurnAt(ms, pins, i)| <= |ms|
    ensures Turns(ms, pins, i) == [TurnAt(ms, pins, i)] + Turns(ms, pins, i + |TurnAt(ms, pins, i)|)
    ensures Droppable(ms, pins, i) == TurnAt(ms, pins, i) + Droppable(ms, pins, i + |TurnAt(ms, pins, i)|)
  {
    if OpensTurn(ms, pins, i) {
      assert Droppable(ms, pins, i + 1) == [i + 1] + Droppable(ms, pins, i + 2);
      assert [i] + ([i + 1] + Droppable(ms, pins, i + 2)) == [i, i + 1] + Droppable(ms, pins, i + 2);
    }
  }

  /** How many messages the first k groups hold. */
  function Size(groups: seq<seq<nat>>, k: nat): nat
    requires k <= |groups|
  {
    if k == 0 then 0 else Size(groups, k - 1) + |groups[k - 1]|
  }

  lemma {:induction false} SizeShift(g: seq<nat>, rest: seq<seq<nat>>, k: nat)
    requires k <= |rest|
    ensures Size([g] + rest, k + 1) == |g| + Size(rest, k)
  {
    if k > 0 {
      SizeShift(g, rest, k - 1);
    } else {
      assert Size([g] + rest, 1) == Size([g] + rest, 0) + |g|;
    }
  }

  /** Group k of a list of groups is the next piece of the list they were cut from. */
  ghost predicate NextPiece(groups: seq<seq<nat>>, all: seq<nat>, k: nat)
    requires k <= |groups|
  {
    var at := Size(groups, k);
    && at <= |all|
    && (k == |groups| ==> at == |all|)
    && (k < |groups| ==> groups[k] != [] && at + |groups[k]| <= |all| && groups[k] == all[at..at + |groups[k]|])
  }

  lemma NextPieceShift(g: seq<nat>, groups: seq<seq<nat>>, all: seq<nat>, k: nat)
    requires k <= |groups| && NextPiece(groups, all, k)
    ensures NextPiece([g] + groups, g + all, k + 1)
  {
    SizeShift(g, groups, k);
    if k < |groups| {
      var at, h := Size(groups, k), groups[k];
      assert ([g] + groups)[k + 1] == h;
      assert (g + all)[|g| + at..|g| + at + |h|] == all[at..at + |h|];
    }
  }

  /** The groups cut the ascending droppable list into consecutive, non-empty pieces. */
  lemma {:induction false} TurnsPartition(ms: seq<Message>, pins: set<nat>, i: nat, k: nat)
    requires i <= |ms| && k <= |Turns(ms, pins, i)|
    ensures NextPiece(Turns(ms, pins, i), Droppable(ms, pins, i), k)
    decreases |ms| - i
  {
    if i < |ms| {
      if i in pins {
        TurnsPartition(ms, pins, i + 1, k);
      } else {
        var g := TurnAt(ms, pins, i);
        UnfoldTurn(ms, pins, i);
        if k > 0 {
          TurnsPartition(ms, pins, i + |g|, k - 1);
          NextPieceShift(g, Turns(ms, pins, i + |g|), Droppable(ms, pins, i + |g|), k - 1);
        } else {
          assert (g + Droppable(ms, pins, i + |g|))[..|g|] == g;
        }
      }
    }
  }

  /** A group never ends on a question whose answer comes right after it. */
  lemma {:induction false} TurnsAreWhole(ms: seq<Message>, pins: set<nat>, i: nat, k: nat)
    requires i <= |ms| && k < |Turns(ms, pins, i)|
    ensures var g := Turns(ms, pins, i)[k]; g != [] && !OpensTurn(ms, pins, g[|g| - 1])
    decreases |ms| - i
  {
    hide Droppable;
    if i in pins {
      TurnsAreWhole(ms, pins, i + 1, k);
    } else {
      UnfoldTurn(ms, pins, i);
      if k > 0 {
        TurnsAreWhole(ms, pins, i + |TurnAt(ms, pins, i)|, k - 1);
      }
    }
  }

  /** A group is no more than a turn: one message, or a question and its answer. */
  lemma {:induction false} TurnsAreMinimal(ms: seq<Message>, pins: set<nat>, i: nat, k: nat)
    requires i <= |ms| && k < |Turns(ms, pins, i)|
    ensures var g := Turns(ms, pins, i)[k];
      g != [] && g == if OpensTurn(ms, pins, g[0]) then [g[0], g[0] + 1] else [g[0]]
    decreases |ms| - i
  {
    hide Droppable;
    if i in pins {
      TurnsAreMinimal(ms, pins, i + 1, k);
    } else {
      UnfoldTurn(ms, pins, i);
      if k > 0 {
        TurnsAreMinimal(ms, pins, i + |TurnAt(ms, pins, i)|, k - 1);
      }
    }
  }

  /** `[index for index in range(len(messages)) if index not in pinned]`. */
  method DroppableIndices(ms: seq<Message>, pins: set<nat>) returns (droppable: seq<nat>)
    ensures droppable == Droppable(ms, pins, 0)
  {
    droppable := [];
    for index := 0 to |ms|
      invariant droppable + Droppable(ms, pins, index) == Droppable(ms, pins, 0)
    {
      if index !in pins {
        droppable := droppable + [index];
      }
    }
  }

  /** `_droppable_groups`. */
  method DroppableGroups(ms: seq<Message>, pins: set<nat>) returns (groups: seq<seq<nat>>)
    ensures groups == Turns(ms, pins, 0)
  {
    var droppable := DroppableIndices(ms, pins);
    groups := [];
    var position := 0;
    ghost var next: nat := 0;
    hide Droppable;
    hide Turns;
    while position < |droppable|
      invariant 0 <= position <= |droppable| && next <= |ms|
      invariant droppable[position..] == Droppable(ms, pins, next)
      invariant groups + Turns(ms, pins, next) == Turns(ms, pins, 0)
    {
      AtPosition(ms, pins, next, droppable, position);
      ghost var expected := GroupAt(ms, droppable, position);
      var index := droppable[position];
      var group := [index];
      position := position + 1;
      if ms[index].role.User? && position < |droppable| && droppable[position] == index + 1
         && ms[index + 1].role.Assistant? {
        group := group + [droppable[position]];
        position := position + 1;
      }
      assert group == expected;
      next := index + |group|;
      OneMoreGroup(groups, group, Turns(ms, pins, next));
      groups := groups + [group];
    }
    NoneLeft(ms, pins, next);
  }

  lemma OneMoreGroup(groups: seq<seq<nat>>, group: seq<nat>, rest: seq<seq<nat>>)
    ensures (groups + [group]) + rest == groups + ([group] + rest)
  {
  }

  /** The next group as the loop reads it off the droppable list. */
  function GroupAt(ms: seq<Message>, droppable: seq<nat>, position: nat): seq<nat>
    requires position < |droppable| && droppable[position] < |ms|
  {
    var i := droppable[position];
    if position + 1 < |droppable| && droppable[position + 1] == i + 1 && i + 1 < |ms|
       && ms[i].role.User? && ms[i + 1].role.Assistant?
    then [i, i + 1] else [i]
  }

  /** That group is the next turn. */
  lemma AtPosition(ms: seq<Message>, pins: set<nat>, next: nat, droppable: seq<nat>, position: nat)
    requires next <= |ms| && position < |droppable| && droppable[position..] == Droppable(ms, pins, next)
    ensures var i := droppable[position];
      && i < |ms| && (position + 1 < |droppable| && droppable[position + 1] == i + 1 ==> i + 1 < |ms|)
      && var g := GroupAt(ms, droppable, position);
        && i + |g| <= |ms| && position + |g| <= |droppable|
        && Turns(ms, pins, next) == [g] + Turns(ms, pins, i + |g|)
        && droppable[position + |g|..] == Droppable(ms, pins, i + |g|)
  {
    hide Droppable;
    hide Turns;
    var rest := droppable[position..];
    NextTurn(ms, pins, next);
    assert rest[0] == droppable[position];
    assert |rest| > 1 ==> rest[1] == droppable[position + 1];
    var g := TurnAt(ms, pins, rest[0]);
    assert rest[|g|..] == droppable[position + |g|..];
  }

  /** How the next droppable entries form the next turn. */
  lemma NextTurn(ms: seq<Message>, pins: set<nat>, next: nat)
    requires next <= |ms| && Droppable(ms, pins, next) != []
    ensures var d := Droppable(ms, pins, next);
      var i := d[0];
      var g := TurnAt(ms, pins, i);
      && next <= i < |ms|
      && (|d| > 1 && d[1] == i + 1 ==> i + 1 < |ms|)
      && (OpensTurn(ms, pins, i) <==> |d| > 1 && d[1] == i + 1 && ms[i].role.User? && ms[i + 1].role.Assistant?)
      && i + |g| <= |ms| && |g| <= |d|
      && Turns(ms, pins, next) == [g] + Turns(ms, pins, i + |g|)
      && d[|g|..] == Droppable(ms, pins, i + |g|)
  {
    SkipPinned(ms, pins, next);
    var i := Droppable(ms, pins, next)[0];
    AnswerIsNext(ms, pins, i);
    UnfoldTurn(ms, pins, i);
  }

  /** The entry after a droppable question is its neighbour exactly when that is droppable. */
  lemma AnswerIsNext(ms: seq<Message>, pins: set<nat>, i: nat)
    requires i < |ms| && i !in pins
    ensures var d := Droppable(ms, pins, i);
      |d| > 0 && d[0] == i &&
      ((|d| > 1 && d[1] == i + 1) <==> (i + 1 < |ms| && i + 1 !in pins))
  {
    DroppableFacts(ms, pins, i + 1);
    assert Droppable(ms, pins, i) == [i] + Droppable(ms, pins, i + 1);
  }

  /** Pinned positions in front of the next droppable one contribute nothing. */
  lemma {:induction false} SkipPinned(ms: seq<Message>, pins: set<nat>, i: nat)
    requires i <= |ms| && Droppable(ms, pins, i) != []
    ensures var j := Droppable(ms, pins, i)[0];
      i <= j < |ms| && j !in pins && Droppable(ms, pins, j) == Droppable(ms, pins, i) && Turns(ms, pins, j) == Turns(ms, pins, i)
    decreases |ms| - i
  {
    if i in pins {
      assert Droppable(ms, pins, i) == Droppable(ms, pins, i + 1);
      assert Turns(ms, pins, i) == Turns(ms, pins, i + 1);
      SkipPinned(ms, pins, i + 1);
    } else {
      assert Droppable(ms, pins, i)[0] == i;
    }
  }

  lemma {:induction false} NoneLeft(ms: seq<Message>, pins: set<nat>, i: nat)
    requires i <= |ms| && Droppable(ms, pins, i) == []
    ensures Turns(ms, pins, i) == []
    decreases |ms| - i
  {
    if i < |ms| {
      NoneLeft(ms, pins, i + 1);
    }
  }

  /** Every droppable position of a history, and the turns they form. */
  function All(ms: seq<Message>): seq<nat> {
    Droppable(ms, Pins(ms), 0)
  }

  function Groups(ms: seq<Message>): seq<seq<nat>> {
    Turns(ms, Pins(ms), 0)
  }

  // ----- the omission marker ---------------------------------------------------

  function OmittedIn(content: seq<Block>): int {
    if content == [] then 0
    else
      (if content[0].OmissionMarker? then content[0].omittedCount else 0) + OmittedIn(content[1..])
  }

  /** Everything the history says is missing. */
  function Omitted(ms: seq<Message>): int {
    if ms == [] then 0 else Omitted(ms[..|ms| - 1]) + OmittedIn(ms[|ms| - 1].content)
  }

  /** Replace the first marker by a bigger one; None when there is no marker to merge into. */
  function MergeMarker(content: seq<Block>, extra: int): Option<seq<Block>> {
    if content == [] then None
    else if content[0].OmissionMarker? then
      Some([OmissionMarker(content[0].omittedCount + extra)] + content[1..])
    else
      match MergeMarker(content[1..], extra)
      case None => None
      case Some(rest) => Some([content[0]] + rest)
  }

  /** `_with_omission_marker`. */
  function WithOmissionMarker(m: Message, extra: int): Message {
    m.(content := MergeMarker(m.content, extra).GetOr([OmissionMarker(extra)] + m.content))
  }

  lemma {:induction false} MergeMarkerAdds(content: seq<Block>, extra: int)
    ensures MergeMarker(content, extra).Some? ==>
      OmittedIn(MergeMarker(content, extra).value) == OmittedIn(content) + extra
  {
    if content != [] {
      if content[0].OmissionMarker? {
        assert ([OmissionMarker(content[0].omittedCount + extra)] + content[1..])[1..] == content[1..];
      } else if MergeMarker(content[1..], extra).Some? {
        MergeMarkerAdds(content[1..], extra);
        var rest := MergeMarker(content[1..], extra).value;
        assert ([content[0]] + rest)[1..] == rest;
      }
    }
  }

  /** Marking a message adds exactly `extra` to what it reports missing. */
  lemma MarkingAdds(m: Message, extra: int)
    ensures OmittedIn(WithOmissionMarker(m, extra).content) == OmittedIn(m.content) + extra
  {
    MergeMarkerAdds(m.content, extra);
    var prepended := [OmissionMarker(extra)] + m.content;
    assert prepended[1..] == m.content;
  }

  /** Position p holds the content's first marker. */
  ghost predicate FirstMarker(content: seq<Block>, p: nat) {
    p < |content| && content[p].OmissionMarker? && forall q :: 0 <= q < p ==> !content[q].OmissionMarker?
  }

  ghost predicate Unmarked(content: seq<Block>) {
    forall q :: 0 <= q < |content| ==> !content[q].OmissionMarker?
  }

  /** `now` is `was` with `extra` more reported missing: the first marker raised and nothing
      else touched, or one marker put in front of content that had none. */
  ghost predicate MarkerRaised(now: seq<Block>, was: seq<Block>, extra: int) {
    || (exists p: nat :: FirstMarker(was, p) && now == was[p := OmissionMarker(was[p].omittedCount + extra)])
    || (Unmarked(was) && now == [OmissionMarker(extra)] + was)
  }

  lemma {:induction false} MergeMarkerRaises(content: seq<Block>, extra: int)
    ensures MergeMarker(content, extra).None? ==> Unmarked(content)
    ensures MergeMarker(content, extra).Some? ==> MarkerRaised(MergeMarker(content, extra).value, content, extra)
  {
    if content != [] {
      if content[0].OmissionMarker? {
        assert FirstMarker(content, 0);
        assert MergeMarker(content, extra).value == content[0 := OmissionMarker(content[0].omittedCount + extra)];
      } else {
        hide MarkerRaised;
        var rest := content[1..];
        MergeMarkerRaises(rest, extra);
        assert content == [content[0]] + rest;
        if MergeMarker(rest, extra).Some? {
          UnmarkedHasNoFirst(rest, extra);
          RaisedBehind(content[0], MergeMarker(rest, extra).value, rest, extra);
        }
      }
    }
  }

  lemma RaisedBehind(b: Block, now: seq<Block>, was: seq<Block>, extra: int)
    requires !b.OmissionMarker? && !Unmarked(was) && MarkerRaised(now, was, extra)
    ensures MarkerRaised([b] + now, [b] + was, extra)
  {
    var p: nat :| FirstMarker(was, p) && now == was[p := OmissionMarker(was[p].omittedCount + extra)];
    assert FirstMarker([b] + was, p + 1);
    assert [b] + now == ([b] + was)[p + 1 := OmissionMarker(was[p].omittedCount + extra)];
  }

  lemma {:induction false} UnmarkedHasNoFirst(content: seq<Block>, extra: int)
    requires MergeMarker(content, extra).Some?
    ensures !Unmarked(content)
  {
    if !content[0].OmissionMarker? {
      UnmarkedHasNoFirst(content[1..], extra);
      assert !Unmarked(content[1..]);
    }
  }

  /** Marking a message touches nothing but its first marker. */
  lemma MarkingRaises(m: Message, extra: int)
    ensures WithOmissionMarker(m, extra) == m.(content := WithOmissionMarker(m, extra).content)
    ensures MarkerRaised(WithOmissionMarker(m, extra).content, m.content, extra)
  {
    MergeMarkerRaises(m.content, extra);
  }

  /** The blocks that are no markers, in order. */
  function Others(content: seq<Block>): seq<Block> {
    if content == [] then []
    else
      var last := content[|content| - 1];
      Others(content[..|content| - 1]) + if last.OmissionMarker? then [] else [last]
  }

  lemma {:induction false} OthersConcat(a: seq<Block>, b: seq<Block>)
    ensures Others(a + b) == Others(a) + Others(b)
  {
    if b == [] {
      assert a + b == a;
    } else {
      assert (a + b)[..|a + b| - 1] == a + b[..|b| - 1];
      OthersConcat(a, b[..|b| - 1]);
    }
  }

  /** Raising a marker keeps every other block, text and file references alike. */
  lemma RaisedKeepsOthers(now: seq<Block>, was: seq<Block>, extra: int)
    requires MarkerRaised(now, was, extra)
    ensures Others(now) == Others(was)
  {
    if p: nat :| FirstMarker(was, p) && now == was[p := OmissionMarker(was[p].omittedCount + extra)] {
      var marker := OmissionMarker(was[p].omittedCount + extra);
      assert was == was[..p] + ([was[p]] + was[p + 1..]) && now == was[..p] + ([marker] + was[p + 1..]);
      OthersConcat(was[..p], [was[p]] + was[p + 1..]);
      OthersConcat(was[..p], [marker] + was[p + 1..]);
      OneMarkerHasNone(was[p], was[p + 1..]);
      OneMarkerHasNone(marker, was[p + 1..]);
    } else {
      OneMarkerHasNone(OmissionMarker(extra), was);
    }
  }

  lemma OneMarkerHasNone(marker: Block, rest: seq<Block>)
    requires marker.OmissionMarker?
    ensures Others([marker] + rest) == Others(rest)
  {
    OthersConcat([marker], rest);
    assert Others([marker]) == [] by {
      assert [marker][..0] == [];
    }
  }

  lemma {:induction false} OmittedUpdate(ms: seq<Message>, i: nat, m: Message)
    requires i < |ms|
    ensures Omitted(ms[i := m]) == Omitted(ms) - OmittedIn(ms[i].content) + OmittedIn(m.content)
  {
    var n := |ms| - 1;
    if i == n {
      assert ms[i := m][..n] == ms[..n];
    } else {
      assert ms[i := m][..n] == ms[..n][i := m];
      OmittedUpdate(ms[..n], i, m);
    }
  }

  lemma SelectSnoc(ms: seq<Message>, alive: seq<bool>, n: nat)
    requires |ms| == |alive| == n + 1
    ensures Omitted(Select(ms, alive)) ==
      Omitted(Select(ms[..n], alive[..n])) + if alive[n] then OmittedIn(ms[n].content) else 0
  {
    var a := Select(ms[..n], alive[..n]);
    if alive[n] {
      assert (a + [ms[n]])[..|a|] == a;
    } else {
      assert a + [] == a;
    }
  }

  lemma {:induction false} OmittedSplits(ms: seq<Message>, alive: seq<bool>)
    requires |ms| == |alive|
    ensures Omitted(Select(ms, alive)) + Omitted(Select(ms, Flip(alive))) == Omitted(ms)
  {
    if ms != [] {
      var n := |ms| - 1;
      OmittedSplits(ms[..n], alive[..n]);
      assert Flip(alive)[..n] == Flip(alive[..n]);
      SelectSnoc(ms, alive, n);
      SelectSnoc(ms, Flip(alive), n);
    }
  }

  /** The first surviving turn, past the system prompt when something follows it. */
  function MarkerTarget(survivors: seq<Message>): (t: nat)
    requires survivors != []
    ensures t < |survivors|
  {
    if survivors[0].role.System? && |survivors| > 1 then 1 else 0
  }

  /** `_apply_marker`: survivors with one merged marker, and their costs kept in step. */
  function ApplyMarker(
    ms: seq<Message>, alive: seq<bool>, costs: seq<int>, attached: Attached, measure: Measure, dropped: nat
  ): (r: (seq<Message>, seq<int>))
    requires |ms| == |alive| == |costs|
    ensures |r.0| == |r.1| == CountAlive(alive)
  {
    SelectLength(ms, alive);
    SelectLength(costs, alive);
    var survivors, survivorCosts := Select(ms, alive), Select(costs, alive);
    if dropped == 0 || survivors == [] then (survivors, survivorCosts)
    else
      var carried := Omitted(Select(ms, Flip(alive)));
      var t := MarkerTarget(survivors);
      var marked := WithOmissionMarker(survivors[t], dropped + carried);
      (survivors[t := marked], survivorCosts[t := Cost(marked, attached, measure)])
  }

  /** Cached costs that were right stay right. */
  lemma ApplyMarkerCosts(ms: seq<Message>, alive: seq<bool>, attached: Attached, measure: Measure, dropped: nat)
    requires |ms| == |alive|
    ensures var r := ApplyMarker(ms, alive, Costs(ms, attached, measure), attached, measure, dropped);
      r.1 == Costs(r.0, attached, measure)
  {
    SelectedCosts(ms, alive, attached, measure);
    SelectLength(ms, alive);
    var survivors := Select(ms, alive);
    if dropped > 0 && survivors != [] {
      var t := MarkerTarget(survivors);
      var marked := WithOmissionMarker(survivors[t], dropped + Omitted(Select(ms, Flip(alive))));
      hide WithOmissionMarker;
      assert Costs(survivors, attached, measure)[t := Cost(marked, attached, measure)]
          == Costs(survivors[t := marked], attached, measure);
    }
  }

  // ----- dropping --------------------------------------------------------------

  /** Which messages are left once the first d droppable ones are gone. */
  function Alive(ms: seq<Message>, d: nat): (r: seq<bool>)
    requires d <= |All(ms)|
    ensures |r| == |ms|
  {
    seq(|ms|, i requires 0 <= i < |ms| => i !in All(ms)[..d])
  }

  lemma AliveStep(ms: seq<Message>, d: nat)
    requires d < |All(ms)|
    ensures All(ms)[d] < |ms| && Alive(ms, d)[All(ms)[d]]
    ensures Alive(ms, d + 1) == Alive(ms, d)[All(ms)[d] := false]
  {
    DroppableFacts(ms, Pins(ms), 0);
    var all := All(ms);
    assert all[..d + 1] == all[..d] + [all[d]];
  }

  lemma {:induction false} AliveCount(ms: seq<Message>, d: nat)
    requires d <= |All(ms)|
    ensures CountAlive(Alive(ms, d)) + d == |ms|
  {
    if d == 0 {
      SelectAll(ms, Alive(ms, 0));
      SelectLength(ms, Alive(ms, 0));
    } else {
      AliveCount(ms, d - 1);
      AliveStep(ms, d - 1);
      CountAliveClear(Alive(ms, d - 1), All(ms)[d - 1]);
    }
  }

  /** The history after dropping the first k turns. */
  function Trimmed(ms: seq<Message>, attached: Attached, measure: Measure, k: nat): seq<Message>
    requires k <= |Groups(ms)|
  {
    TurnsPartition(ms, Pins(ms), 0, k);
    var d := Size(Groups(ms), k);
    ApplyMarker(ms, Alive(ms, d), Costs(ms, attached, measure), attached, measure, d).0
  }

  /** Whether the history fits once k turns are gone. */
  predicate FitsAfter(ms: seq<Message>, attached: Attached, measure: Measure, budget: int, k: nat)
    requires k <= |Groups(ms)|
  {
    Total(Trimmed(ms, attached, measure, k), attached, measure) <= budget
  }

  /** For each number of turns dropped, whether that fits. */
  function FitFlags(ms: seq<Message>, attached: Attached, measure: Measure, budget: int): (flags: seq<bool>)
    ensures |flags| == |Groups(ms)| + 1
  {
    seq(|Groups(ms)| + 1, k requires 0 <= k <= |Groups(ms)| => FitsAfter(ms, attached, measure, budget, k))
  }

  /** The first set flag from k on, or the last position. */
  function FirstSet(flags: seq<bool>, k: nat): (r: nat)
    requires k < |flags|
    ensures k <= r < |flags|
    ensures forall j :: k <= j < r ==> !flags[j]
    ensures r < |flags| - 1 ==> flags[r]
    decreases |flags| - k
  {
    if k == |flags| - 1 || flags[k] then k else FirstSet(flags, k + 1)
  }

  /** How many turns `_drop_oldest_turns` removes: never none while there is one to remove. */
  function TurnsDropped(ms: seq<Message>, attached: Attached, measure: Measure, budget: int): (k: nat)
    ensures k <= |Groups(ms)|
  {
    if Groups(ms) == [] then 0 else FirstSet(FitFlags(ms, attached, measure, budget), 1)
  }

  /** The inner loop of `_drop_oldest_turns`: group k goes, whole. */
  method ClearGroup(ms: seq<Message>, before: seq<bool>, group: seq<nat>, ghost k: nat) returns (alive: seq<bool>)
    requires k < |Groups(ms)| && group == Groups(ms)[k]
    requires Size(Groups(ms), k) <= |All(ms)| && before == Alive(ms, Size(Groups(ms), k))
    ensures Size(Groups(ms), k + 1) <= |All(ms)| && alive == Alive(ms, Size(Groups(ms), k + 1))
  {
    TurnsPartition(ms, Pins(ms), 0, k);
    ghost var d := Size(Groups(ms), k);
    alive := before;
    for p := 0 to |group|
      invariant alive == Alive(ms, d + p)
    {
      assert group[p] == All(ms)[d + p];
      AliveStep(ms, d + p);
      alive := alive[group[p] := false];
    }
  }

  /** One application of the marker inside `_drop_oldest_turns`. */
  method Rebuild(
    ms: seq<Message>, alive: seq<bool>, costs: seq<int>, attached: Attached, measure: Measure, dropped: nat,
    ghost budget: int, ghost k: nat
  )
    returns (survivors: seq<Message>, survivorCosts: seq<int>)
    requires costs == Costs(ms, attached, measure)
    requires k <= |Groups(ms)| && dropped == Size(Groups(ms), k) <= |All(ms)|
    requires alive == Alive(ms, dropped)
    ensures survivors == Trimmed(ms, attached, measure, k)
    ensures survivorCosts == Costs(survivors, attached, measure)
    ensures SumOf(survivorCosts) <= budget <==> FitFlags(ms, attached, measure, budget)[k]
  {
    ApplyMarkerCosts(ms, alive, attached, measure, dropped);
    var (s, c) := ApplyMarker(ms, alive, costs, attached, measure, dropped);
    return s, c;
  }

  /** The loop of `_drop_oldest_turns` over groups that are already known. */
  method DropGroups(
    ms: seq<Message>, groups: seq<seq<nat>>, costs: seq<int>, attached: Attached, measure: Measure, budget: int,
    ghost flags: seq<bool>
  )
    returns (survivors: seq<Message>, survivorCosts: seq<int>, dropped: nat, ghost k: nat)
    requires groups == Groups(ms) && costs == Costs(ms, attached, measure)
    requires flags == FitFlags(ms, attached, measure, budget)
    ensures k <= |groups| && k == (if groups == [] then 0 else FirstSet(flags, 1))
    ensures survivors == Trimmed(ms, attached, measure, k) && dropped == Size(groups, k)
    ensures survivorCosts == Costs(survivors, attached, measure)
  {
    hide Trimmed;
    hide FitFlags;
    var alive := seq(|ms|, _ => true);
    dropped := 0;
    assert alive == Alive(ms, 0);
    var j := 0;
    while j < |groups|
      invariant 0 <= j <= |groups|
      invariant dropped == Size(groups, j) <= |All(ms)|
      invariant alive == Alive(ms, dropped)
      invariant j < |groups| ==> FirstSet(flags, 1) == FirstSet(flags, j + 1)
      invariant 0 < j == |groups| ==> FirstSet(flags, 1) == j
    {
      alive := ClearGroup(ms, alive, groups[j], j);
      dropped := dropped + |groups[j]|;
      j := j + 1;
      survivors, survivorCosts := Rebuild(ms, alive, costs, attached, measure, dropped, budget, j);
      if SumOf(survivorCosts) <= budget {
        k := j;
        return;
      }
    }
    survivors, survivorCosts := Rebuild(ms, alive, costs, attached, measure, dropped, budget, j);
    k := j;
  }

  /** `_drop_oldest_turns`, handed costs that are right for `ms`. */
  method DropOldestTurns(ms: seq<Message>, costs: seq<int>, attached: Attached, measure: Measure, budget: int)
    returns (survivors: seq<Message>, survivorCosts: seq<int>, dropped: nat)
    requires costs == Costs(ms, attached, measure)
    ensures var k := TurnsDropped(ms, attached, measure, budget);
      survivors == Trimmed(ms, attached, measure, k) && dropped == Size(Groups(ms), k)
    ensures survivorCosts == Costs(survivors, attached, measure)
  {
    var pinned := PinnedIndices(ms);
    var groups := DroppableGroups(ms, pinned);
    ghost var k;
    survivors, survivorCosts, dropped, k :=
      DropGroups(ms, groups, costs, attached, measure, budget, FitFlags(ms, attached, measure, budget));
  }
}
