/** Making and copying solutions, Program.cs `initializeSolutionFunction` and
    `cloneFunction`: the first tour is the identity permutation of the 15 cities, and a clone
    is a new array holding the same cities. */
module Solutions {
  import opened Tours
  import Mutation

  /** The number of cities of the initial tour, `Enumerable.Range(0, 15)`. */
  const TourSize: nat := 15

  /** The cities 0 .. n - 1 in order, each converted to `Int16`. */
  function Identity(n: nat): seq<Int16>
    requires n <= 0x8000
  {
    seq(n, k requires 0 <= k < n => k as Int16)
  }

  /** The identity sequence is a tour, and it starts each city at its own position. */
  lemma IdentityIsTour(n: nat)
    requires n <= 0x8000
    ensures IsTour(Identity(n))
    ensures forall k :: 0 <= k < n ==> Identity(n)[k] as int == k
  {
  }

  /** `initializeSolutionFunction`: a new array holding the identity tour of 15 cities. */
  method InitializeSolution() returns (a: array<Int16>)
    ensures fresh(a) && a[..] == Identity(TourSize)
    ensures IsTour(a[..]) && a.Length == TourSize
  {
    a := new Int16[TourSize](k => if 0 <= k < TourSize then k as Int16 else Empty);
    IdentityIsTour(TourSize);
  }

  /** `cloneFunction`: a new array with the same entries as `sol`. */
  method Clone(sol: array<Int16>) returns (c: array<Int16>)
    ensures fresh(c) && c[..] == sol[..]
  {
    var list := sol[..];
    c := new Int16[|list|](k => if 0 <= k < |list| then list[k] else Empty);
  }

  /** Mutating a clone leaves the original untouched: the two arrays never alias, and the
      clone stays a rearrangement of the original. */
  method MutateClone(sol: array<Int16>, ri: real, draws: seq<real>)
    returns (c: array<Int16>, r: Result<array<Int16>, Mutation.MutationError>)
    requires 0.0 <= ri < 1.0 && Mutation.InUnit(draws)
    requires sol.Length > 1 ==>
               Mutation.SomeOther(ScaledDraw(ri, sol.Length), sol.Length, draws)
    ensures fresh(c) && sol[..] == old(sol[..])
    ensures multiset(c[..]) == multiset(sol[..])
    ensures IsTour(sol[..]) ==> IsTour(c[..])
  {
    c := Clone(sol);
    r := Mutation.Mutate(c, ri, draws);
    if sol.Length > 1 {
      var i := ScaledDraw(ri, sol.Length);
      if IsTour(sol[..]) {
        Mutation.SwapKeepsTour(sol[..], i, Mutation.Redraw(i, sol.Length, draws));
      }
    }
  }
}
