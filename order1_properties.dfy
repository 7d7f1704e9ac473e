/** What the children of `Order1` (Program.cs:93-121) look like, proved on the reference
    definition `Crossover.Order1Child` that the method `Crossover.Order1` computes. */
module Order1Properties {
  import opened Tours
  import opened Crossover

  /** No value other than `Empty` occurs twice. */
  predicate DistinctFilled(s: seq<Int16>) {
    forall a, b :: 0 <= a < b < |s| && s[a] != Empty ==> s[a] != s[b]
  }

  /** The values a child receives in its empty slots, read left to right: `r[j]` for every
      slot `j` where `child[j]` is `Empty`. */
  function Gather(child: seq<Int16>, r: seq<Int16>): seq<Int16>
    requires |r| == |child|
  {
    if child == [] then []
    else (if child[0] == Empty then [r[0]] else []) + Gather(child[1..], r[1..])
  }

  /** `a` is a subsequence of `b`: its values occur in `b` in the same order. */
  predicate SubSeq(a: seq<Int16>, b: seq<Int16>)
  {
    if a == [] then true
    else if b == [] then false
    else (a[|a| - 1] == b[|b| - 1] && SubSeq(a[..|a| - 1], b[..|b| - 1]))
         || SubSeq(a, b[..|b| - 1])
  }

  // ---------------------------------------------------------------------------------------
  // Counting empty slots

  /** The empty slots of a sequence are those of its two halves. */
  lemma {:induction false} ZerosSplit(s: seq<Int16>, i: int)
    requires 0 <= i <= |s|
    ensures Zeros(s) == Zeros(s[..i]) + Zeros(s[i..])
  {
    if i > 0 {
      ZerosSplit(s[1..], i - 1);
      assert s[..i][1..] == s[1..][..i - 1];
      assert s[1..][i - 1..] == s[i..];
    } else {
      assert s[..i] == [] && s[i..] == s;
    }
  }

  /** A sequence of nothing but `Empty` is all empty slots. */
  lemma {:induction false} ZerosAllEmpty(s: seq<Int16>)
    requires forall j :: 0 <= j < |s| ==> s[j] == Empty
    ensures Zeros(s) == |s|
  {
    if s != [] {
      ZerosAllEmpty(s[1..]);
    }
  }

  /** An empty slot counts. */
  lemma {:induction false} ZerosAtLeastOne(s: seq<Int16>, a: int)
    requires 0 <= a < |s| && s[a] == Empty
    ensures Zeros(s) >= 1
  {
    if a > 0 {
      ZerosAtLeastOne(s[1..], a - 1);
    }
  }

  /** A sequence without repeats holds `Empty` at most once. */
  lemma {:induction false} ZerosDistinct(s: seq<Int16>)
    requires Distinct(s)
    ensures Zeros(s) == if Empty in s then 1 else 0
  {
    if s != [] {
      ZerosDistinct(s[1..]);
      assert s[0] !in s[1..];
      assert Empty in s <==> s[0] == Empty || Empty in s[1..];
    }
  }

  /** The empty slots of a sequence are those of its three parts. */
  lemma ZerosThree(s: seq<Int16>, i: int, j: int)
    requires 0 <= i <= j <= |s|
    ensures Zeros(s) == Zeros(s[..i]) + Zeros(s[i..j]) + Zeros(s[j..])
  {
    ZerosSplit(s, j);
    ZerosSplit(s[..j], i);
    assert s[..j][..i] == s[..i] && s[..j][i..] == s[i..j];
  }

  /** A sequence holding `Empty` everywhere outside `start .. end - 1` has an empty slot
      for each of those positions plus those inside. */
  lemma ZerosPadded(s: seq<Int16>, start: int, end: int)
    requires 0 <= start <= end <= |s|
    requires forall j :: 0 <= j < |s| && !(start <= j < end) ==> s[j] == Empty
    ensures Zeros(s) == |s| - (end - start) + Zeros(s[start..end])
  {
    ZerosThree(s, start, end);
    var before, after := s[..start], s[end..];
    forall j | 0 <= j < |before|
      ensures before[j] == Empty
    {
      assert before[j] == s[j];
    }
    forall j | 0 <= j < |after|
      ensures after[j] == Empty
    {
      assert after[j] == s[end + j];
    }
    ZerosAllEmpty(before);
    ZerosAllEmpty(after);
  }

  /** The seeded child has an empty slot everywhere outside the segment, plus one for every
      `Empty` the segment itself holds. */
  lemma ZerosSeeded(sol1: seq<Int16>, start: int, k: int)
    requires k > 0 ==> 0 <= start && start + k <= |sol1|
    ensures var segment := Segment(sol1, start, k);
            Zeros(Seeded(sol1, start, k)) == |sol1| - |segment| + Zeros(segment)
  {
    var child := Seeded(sol1, start, k);
    if k <= 0 {
      ZerosAllEmpty(child);
    } else {
      ZerosPadded(child, start, start + k);
      assert child[start..start + k] == Segment(sol1, start, k);
    }
  }

  /** With no value other than `Empty` repeated and at most one `Empty`, nothing repeats. */
  lemma DistinctFromFilled(s: seq<Int16>)
    requires DistinctFilled(s) && Zeros(s) <= 1
    ensures Distinct(s)
  {
    forall a, b | 0 <= a < b < |s|
      ensures s[a] != s[b]
    {
      if s[a] == Empty && s[b] == Empty {
        ZerosSplit(s, b);
        ZerosAtLeastOne(s[..b], a);
      }
    }
  }

  // ---------------------------------------------------------------------------------------
  // The second loop writes every value at most once

  /** A value neither in the child nor among the fill values is nowhere in the result. */
  lemma SpreadAvoids(child: seq<Int16>, fills: seq<Int16>, v: Int16)
    requires v !in child && v !in fills
    ensures v !in Spread(child, fills)
  {
    var r := Spread(child, fills);
    SpreadShape(child, fills);
    forall j | 0 <= j < |r|
      ensures r[j] != v
    {
      assert r[j] == child[j] || r[j] in fills;
    }
  }

  /** `Empty`, or a value not in it, put in front of a sequence without repeats repeats
      nothing. */
  lemma ConsDistinctFilled(h: Int16, t: seq<Int16>)
    requires DistinctFilled(t) && (h != Empty ==> h !in t)
    ensures DistinctFilled([h] + t)
  {
    var s := [h] + t;
    forall a, b | 0 <= a < b < |s| && s[a] != Empty
      ensures s[a] != s[b]
    {
      if a > 0 {
        assert s[a] == t[a - 1] && s[b] == t[b - 1];
      } else {
        assert s[b] == t[b - 1];
      }
    }
  }

  /** Spreading fill values that repeat nothing, and that the child does not hold already,
      over a child whose values do not repeat, repeats no value. */
  lemma {:induction false} SpreadDistinct(child: seq<Int16>, fills: seq<Int16>)
    requires DistinctFilled(child) && Distinct(fills) && Empty !in fills
    requires forall x :: x in fills ==> x !in child
    ensures DistinctFilled(Spread(child, fills))
  {
    if child != [] {
      var rest := child[1..];
      assert forall x :: x in rest ==> x in child;
      if child[0] == Empty && fills != [] {
        var h, fills' := fills[0], fills[1..];
        assert forall x :: x in fills' ==> x in fills;
        SpreadDistinct(rest, fills');
        assert h !in fills' by {
          forall p | 0 <= p < |fills'|
            ensures fills'[p] != h
          {
            assert fills'[p] == fills[p + 1];
          }
        }
        SpreadAvoids(rest, fills', h);
        ConsDistinctFilled(h, Spread(rest, fills'));
      } else {
        var h := child[0];
        SpreadDistinct(rest, fills);
        if h != Empty {
          assert h !in rest by {
            forall p | 0 <= p < |rest|
              ensures rest[p] != h
            {
              assert rest[p] == child[p + 1];
            }
          }
          assert h in child;
          SpreadAvoids(rest, fills, h);
          ConsDistinctFilled(h, Spread(rest, fills));
        } else {
          ConsDistinctFilled(h, Spread(rest, fills));
        }
      }
    }
  }

  /** The seeded child repeats no value when the segment repeats none. */
  lemma SeededDistinct(sol1: seq<Int16>, start: int, k: int)
    requires k > 0 ==> 0 <= start && start + k <= |sol1|
    requires Distinct(Segment(sol1, start, k))
    ensures DistinctFilled(Seeded(sol1, start, k))
  {
    var child, segment := Seeded(sol1, start, k), Segment(sol1, start, k);
    forall a, b | 0 <= a < b < |child| && child[a] != Empty
      ensures child[a] != child[b]
    {
      if child[b] != Empty {
        assert segment[a - start] == child[a] && segment[b - start] == child[b];
      }
    }
  }

  /** Every value of the child `Order1` returns, other than `Empty`, occurs once: the segment
      repeats nothing (or `record.Add` throws), and the second loop writes only values the
      `record` does not hold yet and records each one it writes. */
  lemma Order1NoRepeats(sol1: seq<Int16>, sol2: seq<Int16>, noOfCrossOver: int, rnd: real)
    requires 0.0 <= rnd < 1.0
    ensures var r := Order1Child(sol1, sol2, noOfCrossOver, rnd);
            r.Success? ==> DistinctFilled(r.value)
  {
    if |sol1| == |sol2| > noOfCrossOver {
      var start := ScaledDraw(rnd, |sol1| - noOfCrossOver);
      var segment := Segment(sol1, start, noOfCrossOver);
      if Distinct(segment) {
        var child := Seeded(sol1, start, noOfCrossOver);
        var fills := Fills(Elems(segment), sol2);
        SeededDistinct(sol1, start, noOfCrossOver);
        SeededValues(sol1, start, noOfCrossOver);
        FillsShape(Elems(segment), sol2);
        SpreadDistinct(child, fills);
      }
    }
  }

  // ---------------------------------------------------------------------------------------
  // The segment stays, the rest follows the second parent's order

  /** Every value of the segment other than `Empty` stays where the first loop put it; in
      particular a segment without a 0 is kept verbatim. */
  lemma Order1KeepsSegment(sol1: seq<Int16>, sol2: seq<Int16>, noOfCrossOver: int, rnd: real)
    requires 0.0 <= rnd < 1.0
    ensures var r := Order1Child(sol1, sol2, noOfCrossOver, rnd);
            r.Success? ==>
              var start := ScaledDraw(rnd, |sol1| - noOfCrossOver);
              forall j :: start <= j < start + noOfCrossOver && sol1[j] != Empty ==> r.value[j] == sol1[j]
  {
    if |sol1| == |sol2| > noOfCrossOver {
      var start := ScaledDraw(rnd, |sol1| - noOfCrossOver);
      var segment := Segment(sol1, start, noOfCrossOver);
      SpreadShape(Seeded(sol1, start, noOfCrossOver), Fills(Elems(segment), sol2));
    }
  }

  /** The empty slots receive the fill values in order, and keep `Empty` once they run out. */
  lemma {:induction false} SpreadGather(child: seq<Int16>, fills: seq<Int16>)
    ensures var g := Gather(child, Spread(child, fills));
            |g| == Zeros(child) &&
            forall t :: 0 <= t < |g| ==> g[t] == if t < |fills| then fills[t] else Empty
  {
    if child != [] {
      var rest := child[1..];
      var r := Spread(child, fills);
      var g := Gather(child, r);
      if child[0] == Empty {
        var fills' := if fills != [] then fills[1..] else fills;
        SpreadGather(rest, fills');
        assert r == [if fills != [] then fills[0] else Empty] + Spread(rest, fills');
        var g' := Gather(rest, Spread(rest, fills'));
        assert g == [r[0]] + g';
        forall t | 0 < t < |g|
          ensures g[t] == if t < |fills| then fills[t] else Empty
        {
          assert g[t] == g'[t - 1];
        }
      } else {
        SpreadGather(rest, fills);
        assert r == [child[0]] + Spread(rest, fills);
        assert g == Gather(rest, Spread(rest, fills));
      }
    }
  }

  /** The fill values are the values of `s` in their order in `s`. */
  lemma {:induction false} FillsSubSeq(used: set<Int16>, s: seq<Int16>)
    ensures SubSeq(Fills(used, s), s)
  {
    if s != [] {
      var s' := s[..|s| - 1];
      FillsSubSeq(used, s');
      var f := Fills(used, s');
      if f != [] && Fills(used, s) == f {
        assert s[..|s| - 1] == s';
      }
      if Fills(used, s) == f + [s[|s| - 1]] {
        assert (f + [s[|s| - 1]])[..|f|] == f;
      }
    }
  }

  /** The slots the segment leaves empty receive, left to right, the values of `sol2` that
      are neither 0 nor in the segment, each at its first occurrence and in `sol2`'s order;
      slots left over keep 0. */
  lemma Order1FillOrder(sol1: seq<Int16>, sol2: seq<Int16>, noOfCrossOver: int, rnd: real)
    requires 0.0 <= rnd < 1.0
    ensures var r := Order1Child(sol1, sol2, noOfCrossOver, rnd);
            r.Success? ==>
              var start := ScaledDraw(rnd, |sol1| - noOfCrossOver);
              var fills := Fills(Elems(Segment(sol1, start, noOfCrossOver)), sol2);
              var g := Gather(Seeded(sol1, start, noOfCrossOver), r.value);
              SubSeq(fills, sol2) &&
              (forall x :: x in fills <==> x in sol2 && x != Empty && x !in Segment(sol1, start, noOfCrossOver)) &&
              forall t :: 0 <= t < |g| ==> g[t] == if t < |fills| then fills[t] else Empty
  {
    if |sol1| == |sol2| > noOfCrossOver {
      var start := ScaledDraw(rnd, |sol1| - noOfCrossOver);
      var segment := Segment(sol1, start, noOfCrossOver);
      FillsSubSeq(Elems(segment), sol2);
      FillsShape(Elems(segment), sol2);
      SpreadGather(Seeded(sol1, start, noOfCrossOver), Fills(Elems(segment), sol2));
    }
  }

  // ---------------------------------------------------------------------------------------
  // Tours in, tour out

  /** Of a tour of length `n`, the fill values are the cities not in `used` and other
      than 0, each once. */
  lemma FillsOfTour(used: set<Int16>, sol2: seq<Int16>)
    requires IsTour(sol2) && |sol2| > 0
    requires forall x :: x in used ==> 0 <= x && (x as int) < |sol2|
    ensures |Fills(used, sol2)| == |sol2| - |used + {Empty}|
  {
    var fills := Fills(used, sol2);
    var taken := used + {Empty};
    TourCoversAll(sol2);
    assert taken <= Below(|sol2|);
    FillsShape(used, sol2);
    assert Elems(fills) == Below(|sol2|) - taken;
    SubsetCard(taken, Below(|sol2|));
    DistinctCard(fills);
  }

  /** For two tours of length `n > 0`, the seeded child has exactly one empty slot more
      than there are fill values: the fill values are the cities other than 0 outside the
      segment, and the empty slots are the positions outside the segment plus the one
      holding 0 when the segment has it. */
  lemma FillCount(sol1: seq<Int16>, sol2: seq<Int16>, noOfCrossOver: int, rnd: real)
    requires 0.0 <= rnd < 1.0
    requires IsTour(sol1) && IsTour(sol2) && |sol1| == |sol2| > noOfCrossOver && |sol1| > 0
    requires Distinct(Segment(sol1, ScaledDraw(rnd, |sol1| - noOfCrossOver), noOfCrossOver))
    ensures var start := ScaledDraw(rnd, |sol1| - noOfCrossOver);
            var segment := Segment(sol1, start, noOfCrossOver);
            Zeros(Seeded(sol1, start, noOfCrossOver)) == |Fills(Elems(segment), sol2)| + 1
  {
    var start := ScaledDraw(rnd, |sol1| - noOfCrossOver);
    var segment := Segment(sol1, start, noOfCrossOver);
    var used := Elems(segment);
    assert forall x :: x in segment ==> x in sol1;
    FillsOfTour(used, sol2);
    DistinctCard(segment);
    ZerosDistinct(segment);
    ZerosSeeded(sol1, start, noOfCrossOver);
    if Empty in segment {
      assert used + {Empty} == used;
    } else {
      assert |used + {Empty}| == |used| + 1;
    }
  }

  /** Every entry of the child is an entry of one of the parents, or 0. */
  lemma Order1Values(sol1: seq<Int16>, sol2: seq<Int16>, noOfCrossOver: int, rnd: real)
    requires 0.0 <= rnd < 1.0
    ensures var r := Order1Child(sol1, sol2, noOfCrossOver, rnd);
            r.Success? ==>
              forall j :: 0 <= j < |r.value| ==> r.value[j] == Empty || r.value[j] in sol1 || r.value[j] in sol2
  {
    if |sol1| == |sol2| > noOfCrossOver {
      var start := ScaledDraw(rnd, |sol1| - noOfCrossOver);
      var segment := Segment(sol1, start, noOfCrossOver);
      var child := Seeded(sol1, start, noOfCrossOver);
      FillsShape(Elems(segment), sol2);
      SpreadShape(child, Fills(Elems(segment), sol2));
    }
  }

  /** A segment of a sequence without repeats has none. */
  lemma SegmentDistinct(sol1: seq<Int16>, start: int, k: int)
    requires k > 0 ==> 0 <= start && start + k <= |sol1|
    requires Distinct(sol1)
    ensures Distinct(Segment(sol1, start, k))
  {
    var segment := Segment(sol1, start, k);
    forall a, b | 0 <= a < b < |segment|
      ensures segment[a] != segment[b]
    {
      assert segment[a] == sol1[start + a] && segment[b] == sol1[start + b];
    }
  }

  /** Crossing two tours of the same length `n` over a segment shorter than `n` never throws
      and yields a tour: the empty slots outnumber the fill values by exactly one, so the
      0 of the tour ends up in the last slot left empty, whether or not the segment held it. */
  lemma Order1Permutation(sol1: seq<Int16>, sol2: seq<Int16>, noOfCrossOver: int, rnd: real)
    requires 0.0 <= rnd < 1.0
    requires IsTour(sol1) && IsTour(sol2) && |sol1| == |sol2| > noOfCrossOver
    ensures var r := Order1Child(sol1, sol2, noOfCrossOver, rnd);
            r.Success? && IsTour(r.value)
  {
    var n := |sol1|;
    var start := ScaledDraw(rnd, n - noOfCrossOver);
    var segment := Segment(sol1, start, noOfCrossOver);
    SegmentDistinct(sol1, start, noOfCrossOver);
    var child := Seeded(sol1, start, noOfCrossOver);
    var fills := Fills(Elems(segment), sol2);
    var r := Spread(child, fills);
    assert Order1Child(sol1, sol2, noOfCrossOver, rnd) == Success(r);
    Order1Values(sol1, sol2, noOfCrossOver, rnd);
    Order1NoRepeats(sol1, sol2, noOfCrossOver, rnd);
    if n > 0 {
      FillCount(sol1, sol2, noOfCrossOver, rnd);
      FillsShape(Elems(segment), sol2);
      SpreadZeros(child, fills);
    }
    DistinctFromFilled(r);
  }
}
