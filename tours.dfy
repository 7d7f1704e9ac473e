/** Tours: the `Int16[]` city-index arrays every operator of the program works on,
    the error wrapper the operators use, and the counting facts about tours. */
module Tours {

  /** The element type of a tour, `Int16` in the program: a signed 16-bit integer. */
  newtype Int16 = x: int | -0x8000 <= x < 0x8000

  /** `default(Int16)`: the value every slot of a freshly allocated `Int16[]` holds. */
  const Empty: Int16 := 0

  /** An operation that either returns a value or throws (one error kind per exception). */
  datatype Result<T, E> = Success(value: T) | Failure(error: E)

  /** No value occurs twice. */
  predicate Distinct(s: seq<Int16>) {
    forall a, b :: 0 <= a < b < |s| ==> s[a] != s[b]
  }

  /** A tour over `|s|` cities: every entry is a city index in [0, |s|), and no index repeats. */
  predicate IsTour(s: seq<Int16>) {
    (forall a :: 0 <= a < |s| ==> 0 <= s[a] && (s[a] as int) < |s|) && Distinct(s)
  }

  /** The values occurring in `s`. */
  function Elems(s: seq<Int16>): set<Int16> {
    set x | x in s
  }

  /** The city indices 0 .. n - 1. */
  function Below(n: int): (b: set<Int16>)
    requires n <= 0x8000
    ensures forall v :: v in b <==> 0 <= v && (v as int) < n
    ensures |b| == if n < 0 then 0 else n
  {
    if n <= 0 then {} else Below(n - 1) + {(n - 1) as Int16}
  }

  /** Models `Convert.ToInt32(Math.Floor(rnd * m))` for a draw `rnd` of `Number.Rnd()` in
      [0, 1), with the product taken exactly rather than as a `double`: always an index in
      [0, m). */
  function ScaledDraw(rnd: real, m: int): (d: int)
    requires 0.0 <= rnd < 1.0 && m > 0
    ensures 0 <= d < m
  {
    assert rnd * m as real < m as real by {
      assert rnd * m as real <= 1.0 * m as real;
    }
    (rnd * m as real).Floor
  }

  /** A sequence without repeats has as many distinct values as entries. */
  lemma {:induction false} DistinctCard(s: seq<Int16>)
    requires Distinct(s)
    ensures |Elems(s)| == |s|
  {
    if s != [] {
      DistinctCard(s[1..]);
      assert Elems(s) == {s[0]} + Elems(s[1..]);
      assert s[0] !in Elems(s[1..]);
    }
  }

  /** Removing a subset removes as many elements as the subset has. */
  lemma SubsetCard(a: set<Int16>, b: set<Int16>)
    requires a <= b
    ensures |b - a| == |b| - |a|
  {
  }

  /** A subset as large as the whole set is the whole set. */
  lemma SameSizeSubset(a: set<Int16>, b: set<Int16>)
    requires a <= b && |a| >= |b|
    ensures a == b
  {
    SubsetCard(a, b);
    assert b - a == {};
    assert forall x :: x in b ==> x in a;
  }

  /** A tour contains every city index 0 .. |s| - 1, each exactly once; in particular
      no tour is longer than the number of non-negative `Int16` values. */
  lemma {:induction false} TourCoversAll(s: seq<Int16>)
    requires IsTour(s)
    ensures |s| <= 0x8000 && Elems(s) == Below(|s|)
  {
    DistinctCard(s);
    assert Elems(s) <= Below(0x8000);
    SubsetCard(Elems(s), Below(0x8000));
    assert Elems(s) <= Below(|s|);
    SameSizeSubset(Elems(s), Below(|s|));
  }
}
