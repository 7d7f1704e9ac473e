/** The objective of Program.cs (`objectiveFunction`): the length of the closed tour, the
    sum of the straight-line distances between consecutive cities plus the distance from
    the last city back to the first.

    The distance between two cities is `Math.Sqrt` of the sum of the squared coordinate
    differences. The squared distance is computed exactly on integers; the square root is a
    parameter `sqrt`, and the sums are exact sums of reals rather than `double` additions. */
module Objective {
  import opened Tours

  /** A city's coordinates, one `(int x, int y)` entry of `data`. */
  datatype Coord = Coord(x: int, y: int)

  /** `Math.Pow(c2.y - c1.y, 2) + Math.Pow(c2.x - c1.x, 2)`. */
  function SquaredDistance(c1: Coord, c2: Coord): (d: int)
    ensures d >= 0
    ensures d == 0 <==> c1 == c2
  {
    (c2.y - c1.y) * (c2.y - c1.y) + (c2.x - c1.x) * (c2.x - c1.x)
  }

  /** The length of the edge between two cities. */
  function Edge(sqrt: int -> real, c1: Coord, c2: Coord): real
  {
    sqrt(SquaredDistance(c1, c2))
  }

  /** The coordinates of the cities of `sol`, in tour order. */
  function Cities(data: seq<Coord>, sol: seq<Int16>): seq<Coord>
    requires forall k :: 0 <= k < |sol| ==> 0 <= sol[k] && (sol[k] as int) < |data|
  {
    seq(|sol|, k requires 0 <= k < |sol| => data[sol[k]])
  }

  /** The length of the open path through `cs`: the edges between consecutive cities. */
  function PathLength(sqrt: int -> real, cs: seq<Coord>): real
  {
    if |cs| <= 1 then 0.0
    else PathLength(sqrt, cs[..|cs| - 1]) + Edge(sqrt, cs[|cs| - 2], cs[|cs| - 1])
  }

  /** The length of the closed tour through `cs`: 0 for no city, otherwise the open path
      plus the edge from the last city back to the first. */
  function TourLength(sqrt: int -> real, cs: seq<Coord>): real
  {
    if cs == [] then 0.0 else PathLength(sqrt, cs) + Edge(sqrt, cs[|cs| - 1], cs[0])
  }

  /** The objective as the program computes it: one loop over `sol` carrying the previous
      city `c1` and the running `distance`, then the closing edge. */
  method Evaluate(data: seq<Coord>, sol: array<Int16>, sqrt: int -> real) returns (distance: real)
    requires forall k :: 0 <= k < sol.Length ==> 0 <= sol[k] && (sol[k] as int) < |data|
    ensures distance == TourLength(sqrt, Cities(data, sol[..]))
    ensures sol.Length == 0 ==> distance == 0.0
  {
    distance := 0.0;
    if sol.Length == 0 {
      return 0.0;
    }
    ghost var cs := Cities(data, sol[..]);
    var c1 := data[sol[0]];
    var i := 1;
    while i < sol.Length
      invariant 1 <= i <= sol.Length
      invariant c1 == cs[i - 1]
      invariant distance == PathLength(sqrt, cs[..i])
    {
      var c2 := data[sol[i]];
      assert cs[..i + 1][..i] == cs[..i];
      distance := distance + Edge(sqrt, c1, c2);
      c1 := c2;
      i := i + 1;
    }
    assert cs[..sol.Length] == cs;
    var first := data[sol[0]];
    distance := distance + Edge(sqrt, c1, first);
  }

  /** The open path through `[c] + cs` is the edge from `c` to the first city of `cs`
      followed by the path through `cs`. */
  lemma {:induction false} PathCons(sqrt: int -> real, c: Coord, cs: seq<Coord>)
    requires cs != []
    ensures PathLength(sqrt, [c] + cs) == Edge(sqrt, c, cs[0]) + PathLength(sqrt, cs)
  {
    if |cs| > 1 {
      PathCons(sqrt, c, cs[..|cs| - 1]);
      assert ([c] + cs)[..|cs|] == [c] + cs[..|cs| - 1];
    } else {
      assert [c] + cs == [c, cs[0]];
    }
  }

  /** Moving the first city of a closed tour to the end does not change its length. */
  lemma TourLengthRotate(sqrt: int -> real, cs: seq<Coord>)
    requires cs != []
    ensures TourLength(sqrt, cs[1..] + [cs[0]]) == TourLength(sqrt, cs)
  {
    var rotated := cs[1..] + [cs[0]];
    if |cs| > 1 {
      assert rotated[..|rotated| - 1] == cs[1..];
      PathCons(sqrt, cs[0], cs[1..]);
      assert [cs[0]] + cs[1..] == cs;
    }
  }

  /** A closed tour has the same length whichever city it starts from: starting at position
      `k` instead of 0 changes nothing. */
  lemma {:induction false} TourLengthRotations(sqrt: int -> real, cs: seq<Coord>, k: int)
    requires 0 <= k <= |cs|
    ensures TourLength(sqrt, cs[k..] + cs[..k]) == TourLength(sqrt, cs)
  {
    if k == 0 {
      assert cs[k..] + cs[..k] == cs;
    } else {
      TourLengthRotations(sqrt, cs, k - 1);
      var prev := cs[k - 1..] + cs[..k - 1];
      TourLengthRotate(sqrt, prev);
      assert prev[1..] + [prev[0]] == cs[k..] + cs[..k];
    }
  }

  /** `cs` in reverse order. */
  function Reversed(cs: seq<Coord>): (r: seq<Coord>)
    ensures |r| == |cs|
    ensures forall k :: 0 <= k < |cs| ==> r[k] == cs[|cs| - 1 - k]
  {
    if cs == [] then [] else [cs[|cs| - 1]] + Reversed(cs[..|cs| - 1])
  }

  /** The edge lengths do not depend on the direction of travel. */
  lemma EdgeSymmetric(sqrt: int -> real, c1: Coord, c2: Coord)
    ensures Edge(sqrt, c1, c2) == Edge(sqrt, c2, c1)
  {
    assert SquaredDistance(c1, c2) == SquaredDistance(c2, c1);
  }

  /** The open path has the same length walked backwards. */
  lemma {:induction false} PathLengthReversed(sqrt: int -> real, cs: seq<Coord>)
    ensures PathLength(sqrt, Reversed(cs)) == PathLength(sqrt, cs)
  {
    if |cs| > 1 {
      var init := cs[..|cs| - 1];
      PathLengthReversed(sqrt, init);
      PathCons(sqrt, cs[|cs| - 1], Reversed(init));
      EdgeSymmetric(sqrt, cs[|cs| - 1], cs[|cs| - 2]);
    } else if |cs| == 1 {
      assert Reversed(cs) == cs;
    }
  }

  /** A closed tour has the same length travelled in the opposite direction. */
  lemma TourLengthReversed(sqrt: int -> real, cs: seq<Coord>)
    ensures TourLength(sqrt, Reversed(cs)) == TourLength(sqrt, cs)
  {
    if cs != [] {
      PathLengthReversed(sqrt, cs);
      EdgeSymmetric(sqrt, cs[0], cs[|cs| - 1]);
    }
  }
}
