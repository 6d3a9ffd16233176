/** Keeping the flagged elements of a list, in order: the comprehension both halves of
    the fitting step filter histories and costs with. */
module Selecting {
  import opened Common

  function Select<T>(xs: seq<T>, alive: seq<bool>): (r: seq<T>)
    requires |xs| == |alive|
  {
    if xs == [] then []
    else
      var n := |xs| - 1;
      Select(xs[..n], alive[..n]) + (if alive[n] then [xs[n]] else [])
  }

  function CountAlive(alive: seq<bool>): nat {
    if alive == [] then 0
    else CountAlive(alive[..|alive| - 1]) + (if alive[|alive| - 1] then 1 else 0)
  }

  function Flip(alive: seq<bool>): seq<bool> {
    seq(|alive|, i requires 0 <= i < |alive| => !alive[i])
  }

  lemma {:induction false} SelectLength<T>(xs: seq<T>, alive: seq<bool>)
    requires |xs| == |alive|
    ensures |Select(xs, alive)| == CountAlive(alive)
  {
    if xs != [] {
      SelectLength(xs[..|xs| - 1], alive[..|xs| - 1]);
    }
  }

  /** The kept element at i lands behind exactly the kept elements before it. */
  lemma {:induction false} SelectAt<T>(xs: seq<T>, alive: seq<bool>, i: nat)
    requires i < |xs| == |alive| && alive[i]
    ensures CountAlive(alive[..i]) < |Select(xs, alive)|
    ensures Select(xs, alive)[CountAlive(alive[..i])] == xs[i]
  {
    var n := |xs| - 1;
    SelectLength(xs[..n], alive[..n]);
    if i < n {
      SelectAt(xs[..n], alive[..n], i);
      assert alive[..n][..i] == alive[..i];
    }
  }

  /** Where an element of a selection comes from. */
  lemma {:induction false} SelectOrigin<T>(xs: seq<T>, alive: seq<bool>, a: nat) returns (i: nat)
    requires |xs| == |alive| && a < |Select(xs, alive)|
    ensures i < |xs| && alive[i] && xs[i] == Select(xs, alive)[a] && CountAlive(alive[..i]) == a
  {
    var n := |xs| - 1;
    SelectLength(xs[..n], alive[..n]);
    if a < |Select(xs[..n], alive[..n])| {
      i := SelectOrigin(xs[..n], alive[..n], a);
      assert alive[..n][..i] == alive[..i];
    } else {
      i := n;
    }
  }

  lemma {:induction false} CountAliveMonotone(alive: seq<bool>, i: nat, j: nat)
    requires i < j <= |alive| && alive[i]
    ensures CountAlive(alive[..i]) < CountAlive(alive[..j])
    decreases j
  {
    assert alive[..j][..j - 1] == alive[..j - 1];
    if i < j - 1 {
      CountAliveMonotone(alive, i, j - 1);
    }
  }

  lemma {:induction false} CountNone(alive: seq<bool>, i: nat)
    requires i <= |alive|
    ensures CountAlive(alive[..i]) == 0 <==> forall j :: 0 <= j < i ==> !alive[j]
  {
    if i > 0 {
      CountNone(alive, i - 1);
      assert alive[..i][..i - 1] == alive[..i - 1];
    }
  }

  /** One is kept before i exactly when there is a kept position that is the only one. */
  lemma {:induction false} CountOne(alive: seq<bool>, i: nat)
    requires i <= |alive|
    ensures CountAlive(alive[..i]) == 1 <==> exists s :: 0 <= s < i && OnlyBefore(alive, s, i)
  {
    if i > 0 {
      CountOne(alive, i - 1);
      CountNone(alive, i - 1);
      assert alive[..i][..i - 1] == alive[..i - 1];
      if CountAlive(alive[..i]) == 1 {
        if alive[i - 1] {
          assert OnlyBefore(alive, i - 1, i);
        } else {
          var s :| 0 <= s < i - 1 && OnlyBefore(alive, s, i - 1);
          assert OnlyBefore(alive, s, i);
        }
      }
      if exists s :: 0 <= s < i && OnlyBefore(alive, s, i) {
        var s :| 0 <= s < i && OnlyBefore(alive, s, i);
        if s < i - 1 {
          assert OnlyBefore(alive, s, i - 1);
        }
      }
    }
  }

  /** Of the first i, position s is the one that is kept. */
  ghost predicate OnlyBefore(alive: seq<bool>, s: int, i: nat)
    requires 0 <= s < i <= |alive|
  {
    alive[s] && forall j :: 0 <= j < i && j != s ==> !alive[j]
  }

  lemma {:induction false} CountAliveClear(alive: seq<bool>, i: nat)
    requires i < |alive| && alive[i]
    ensures CountAlive(alive[i := false]) == CountAlive(alive) - 1
  {
    var n := |alive| - 1;
    if i == n {
      assert alive[i := false][..n] == alive[..n];
    } else {
      assert alive[i := false][..n] == alive[..n][i := false];
      CountAliveClear(alive[..n], i);
    }
  }

  /** Selecting all positions changes nothing. */
  lemma {:induction false} SelectAll<T>(xs: seq<T>, alive: seq<bool>)
    requires |xs| == |alive| && forall i :: 0 <= i < |alive| ==> alive[i]
    ensures Select(xs, alive) == xs
  {
    if xs != [] {
      SelectAll(xs[..|xs| - 1], alive[..|xs| - 1]);
    }
  }
}
