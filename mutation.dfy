/** The swap mutation of Program.cs (`mutationFunction`): exchanges two distinct positions of
    the tour it is given, in place, and returns that same array.

    The positions come from `Number.Rnd()`: the first from the draw `ri`, the second from
    the draws `draws`, taken one after the other until one names a position other than the
    first. */
module Mutation {
  import opened Tours

  /** The exception the mutation throws. */
  datatype MutationError = TooShort  // a tour of fewer than two cities has nothing to swap

  /** Every draw of `Number.Rnd()` lies in [0, 1). */
  predicate InUnit(draws: seq<real>) {
    forall k :: 0 <= k < |draws| ==> 0.0 <= draws[k] < 1.0
  }

  /** Some draw names a position other than `i`, so the redraw loop stops. */
  predicate SomeOther(i: int, n: int, draws: seq<real>)
    requires n > 0 && InUnit(draws)
  {
    exists k :: 0 <= k < |draws| && ScaledDraw(draws[k], n) != i
  }

  /** The second position: the first draw that names a position other than `i`. */
  function Redraw(i: int, n: int, draws: seq<real>): (j: int)
    requires n > 0 && InUnit(draws) && SomeOther(i, n, draws)
    ensures 0 <= j < n && j != i
    ensures exists k :: 0 <= k < |draws| && j == ScaledDraw(draws[k], n)
    decreases |draws|
  {
    var d := ScaledDraw(draws[0], n);
    if d != i then d
    else
      assert SomeOther(i, n, draws[1..]) by {
        var k :| 0 <= k < |draws| && ScaledDraw(draws[k], n) != i;
        assert draws[1..][k - 1] == draws[k];
      }
      var j := Redraw(i, n, draws[1..]);
      assert forall k :: 0 <= k < |draws[1..]| ==> draws[1..][k] == draws[k + 1];
      j
  }

  /** `s` with the values at positions `i` and `j` exchanged. */
  function Swapped(s: seq<Int16>, i: int, j: int): (r: seq<Int16>)
    requires 0 <= i < |s| && 0 <= j < |s|
    ensures |r| == |s| && r[i] == s[j] && r[j] == s[i]
    ensures forall k :: 0 <= k < |s| && k != i && k != j ==> r[k] == s[k]
    ensures multiset(r) == multiset(s)
  {
    s[i := s[j]][j := s[i]]
  }

  /** Swapping the same two positions again restores the tour. */
  lemma SwapTwice(s: seq<Int16>, i: int, j: int)
    requires 0 <= i < |s| && 0 <= j < |s|
    ensures Swapped(Swapped(s, i, j), i, j) == s
  {
    var t := Swapped(Swapped(s, i, j), i, j);
    assert forall k :: 0 <= k < |s| ==> t[k] == s[k];
  }

  /** A swap of two positions of a tour is a tour. */
  lemma SwapKeepsTour(s: seq<Int16>, i: int, j: int)
    requires 0 <= i < |s| && 0 <= j < |s| && IsTour(s)
    ensures IsTour(Swapped(s, i, j))
  {
    var r := Swapped(s, i, j);
    // the position each entry of the swapped tour came from
    var from := (k: int) => if k == i then j else if k == j then i else k;
    assert forall k :: 0 <= k < |s| ==> r[k] == s[from(k)];
    forall a, b | 0 <= a < b < |r|
      ensures r[a] != r[b]
    {
      assert from(a) != from(b);
      if from(a) < from(b) {
        assert s[from(a)] != s[from(b)];
      } else {
        assert s[from(b)] != s[from(a)];
      }
    }
  }

  /** Swapping two different cities of a tour changes it. */
  lemma SwapChanges(s: seq<Int16>, i: int, j: int)
    requires 0 <= i < |s| && 0 <= j < |s| && i != j && Distinct(s)
    ensures Swapped(s, i, j) != s
  {
    if i < j {
      assert s[i] != s[j];
    } else {
      assert s[j] != s[i];
    }
  }

  /** The mutation: throws on a tour of fewer than two cities; otherwise draws the first
      position from `ri`, redraws the second from `draws` until it differs from the first,
      swaps the two entries of `sol` in place and returns `sol` itself. */
  method Mutate(sol: array<Int16>, ri: real, draws: seq<real>)
    returns (r: Result<array<Int16>, MutationError>)
    requires 0.0 <= ri < 1.0 && InUnit(draws)
    requires sol.Length > 1 ==> SomeOther(ScaledDraw(ri, sol.Length), sol.Length, draws)
    modifies sol
    ensures sol.Length <= 1 ==> r == Failure(TooShort) && sol[..] == old(sol[..])
    ensures sol.Length > 1 ==>
              var i := ScaledDraw(ri, sol.Length);
              r == Success(sol) && sol[..] == Swapped(old(sol[..]), i, Redraw(i, sol.Length, draws))
  {
    if sol.Length <= 1 {
      return Failure(TooShort);
    }
    var n := sol.Length;
    var i := ScaledDraw(ri, n);
    var k := 0;
    assert draws[k..] == draws;
    var j := ScaledDraw(draws[k], n);
    while i == j
      invariant 0 <= k < |draws| && SomeOther(i, n, draws[k..])
      invariant Redraw(i, n, draws[k..]) == Redraw(i, n, draws)
      invariant j == ScaledDraw(draws[k], n)
      decreases |draws| - k
    {
      assert draws[k..][1..] == draws[k + 1..];
      k := k + 1;
      j := ScaledDraw(draws[k], n);
    }
    var third := sol[i];
    sol[i] := sol[j];
    sol[j] := third;
    return Success(sol);
  }
}
