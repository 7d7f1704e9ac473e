/** A worked example of `Order1` (Program.cs:93-121) on the reference definition, showing city 0
    taken for an empty slot. */
module Order1Example {
  import opened Tours
  import opened Crossover

  /** City 0 in the segment is taken for an empty slot: crossing [1, 0, 2, 3, 4] with
      [3, 4, 0, 1, 2] over the segment at positions 0 .. 2 overwrites the 0 the segment
      put at position 1, and the 0 ends up in the last slot instead. */
  lemma SegmentZeroOverwritten()
    ensures Order1Child([1, 0, 2, 3, 4], [3, 4, 0, 1, 2], 3, 0.0) == Success([1, 3, 2, 4, 0])
  {
    var sol1: seq<Int16> := [1, 0, 2, 3, 4];
    var sol2: seq<Int16> := [3, 4, 0, 1, 2];
    assert ScaledDraw(0.0, 2) == 0;
    var segment := Segment(sol1, 0, 3);
    assert segment == [1, 0, 2];
    assert Seeded(sol1, 0, 3) == [1, 0, 2, 0, 0];
    assert Elems(segment) == {0, 1, 2};
    FillsExample();
    SpreadExample();
  }

  /** The second parent's values other than 0 and outside the segment {0, 1, 2}. */
  lemma FillsExample()
    ensures Fills({0, 1, 2}, [3, 4, 0, 1, 2]) == [3, 4]
  {
    var used: set<Int16> := {0, 1, 2};
    var s1, s2, s3, s4, s5: seq<Int16> := [3], [3, 4], [3, 4, 0], [3, 4, 0, 1], [3, 4, 0, 1, 2];
    assert Fills(used, s1) == [3] by {
      assert s1[..0] == [] && 3 !in used;
    }
    assert Fills(used, s2) == [3, 4] by {
      assert s2[..1] == s1 && 4 !in used && 4 !in [3 as Int16];
    }
    assert Fills(used, s3) == [3, 4] by {
      assert s3[..2] == s2;
    }
    assert Fills(used, s4) == [3, 4] by {
      assert s4[..3] == s3 && 1 in used;
    }
    assert s5[..4] == s4 && 2 in used;
  }

  /** The two fill values go to the first two of the three slots holding 0. */
  lemma SpreadExample()
    ensures Spread([1, 0, 2, 0, 0], [3, 4]) == [1, 3, 2, 4, 0]
  {
    var child: seq<Int16> := [1, 0, 2, 0, 0];
    assert child[1..] == [0, 2, 0, 0] && child[2..] == [2, 0, 0];
    assert child[3..] == [0, 0] && child[4..] == [0] && child[5..] == [];
    assert Spread([0], []) == [0];
    assert Spread([0, 0], []) == [0, 0];
    assert Spread([0, 0], [4]) == [4, 0];
    assert Spread([2, 0, 0], [4]) == [2, 4, 0];
    assert Spread([0, 2, 0, 0], [3, 4]) == [3, 2, 4, 0];
  }
}
