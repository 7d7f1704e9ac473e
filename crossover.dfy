/** The order-1 crossover `Order1` of Program.cs: one child tour from two parent tours.

    The child starts as a fresh `Int16[]`, so every slot holds `default(Int16)`, which is 0.
    The first loop copies a segment of the first parent into place; the second walks the
    second parent and puts each value it has not recorded yet into the first slot that still
    holds 0. City 0 is therefore indistinguishable from an empty slot, and the model keeps
    that: a 0 copied from the segment can be overwritten, and placing a 0 fills nothing. */
module Crossover {
  import opened Tours

  /** The exceptions `Order1` throws on non-null arguments. */
  datatype Order1Error =
    | CountMismatch      // the parents have different lengths
    | CrossOverTooLarge  // the segment is not shorter than the parents
    | DuplicateKey       // the segment repeats a value, so `record.Add` throws

  /** The values the first loop copies from `sol1`: positions start .. start + k - 1. */
  function Segment(sol1: seq<Int16>, start: int, k: int): seq<Int16>
    requires k > 0 ==> 0 <= start && start + k <= |sol1|
  {
    if k <= 0 then [] else sol1[start..start + k]
  }

  /** The child after the first loop: the segment of `sol1` in place, `Empty` elsewhere. */
  function Seeded(sol1: seq<Int16>, start: int, k: int): seq<Int16>
  {
    seq(|sol1|, j requires 0 <= j < |sol1| => if start <= j < start + k then sol1[j] else Empty)
  }

  /** The number of slots of `s` that hold `Empty`. */
  function Zeros(s: seq<Int16>): nat
  {
    if s == [] then 0 else (if s[0] == Empty then 1 else 0) + Zeros(s[1..])
  }

  /** The slot the inner scan of the second loop stops at: the first one holding `Empty`,
      or `|s|` when there is none. */
  function FirstEmpty(s: seq<Int16>): (p: nat)
    ensures p <= |s|
  {
    if s == [] then 0 else if s[0] == Empty then 0 else 1 + FirstEmpty(s[1..])
  }

  /** No slot before `j` holds `Empty`. */
  predicate NoEmptyBefore(s: seq<Int16>, j: int) {
    forall t :: 0 <= t < j && t < |s| ==> s[t] != Empty
  }

  /** The inner scan moves past a slot that holds a value. */
  lemma NoEmptyBeforeStep(s: seq<Int16>, j: int)
    requires 0 <= j < |s| && NoEmptyBefore(s, j) && s[j] != Empty
    ensures NoEmptyBefore(s, j + 1)
  {
  }

  /** A stopping point before the end is an empty slot. */
  lemma {:induction false} FirstEmptyIsEmpty(s: seq<Int16>)
    requires FirstEmpty(s) < |s|
    ensures s[FirstEmpty(s)] == Empty
  {
    if s[0] != Empty {
      FirstEmptyIsEmpty(s[1..]);
    }
  }

  /** The inner scan's stopping point is the first empty slot: a slot `j` with no empty
      slot before it that is itself empty, or the end of the child. */
  lemma {:induction false} FirstEmptyAt(s: seq<Int16>, j: int)
    requires 0 <= j <= |s| && NoEmptyBefore(s, j) && (j < |s| ==> s[j] == Empty)
    ensures FirstEmpty(s) == j
  {
    if s != [] && j > 0 {
      FirstEmptyAt(s[1..], j - 1);
    }
  }

  /** The values of `s` that the second loop places, in the order it meets them: the first
      occurrence of every value that is neither in `used` nor `Empty`. */
  function Fills(used: set<Int16>, s: seq<Int16>): seq<Int16>
  {
    if s == [] then []
    else
      var f := Fills(used, s[..|s| - 1]);
      var v := s[|s| - 1];
      if v == Empty || v in used || v in f then f else f + [v]
  }

  /** The fill values never repeat, and they are exactly the values of `s` that are
      neither recorded in `used` nor `Empty`. */
  lemma {:induction false} FillsShape(used: set<Int16>, s: seq<Int16>)
    ensures Distinct(Fills(used, s))
    ensures forall x :: x in Fills(used, s) <==> x in s && x != Empty && x !in used
  {
    if s != [] {
      var s' := s[..|s| - 1];
      FillsShape(used, s');
      assert s == s' + [s[|s| - 1]];
      assert forall x :: x in s <==> x in s' || x == s[|s| - 1];
    }
  }

  /** Reference definition of the second loop's effect: walking the child left to right,
      every slot holding `Empty` takes the next value of `fills`, while values remain. */
  function Spread(child: seq<Int16>, fills: seq<Int16>): (r: seq<Int16>)
    ensures |r| == |child|
  {
    if child == [] then []
    else if child[0] == Empty && fills != [] then [fills[0]] + Spread(child[1..], fills[1..])
    else [child[0]] + Spread(child[1..], fills)
  }

  /** Spreading never overwrites a slot that holds a value, and every slot it changes
      receives one of the fill values. */
  lemma {:induction false} SpreadShape(child: seq<Int16>, fills: seq<Int16>)
    ensures var r := Spread(child, fills);
            forall j :: 0 <= j < |child| ==>
              (child[j] != Empty ==> r[j] == child[j]) && (r[j] == child[j] || r[j] in fills)
  {
    if child != [] {
      if child[0] == Empty && fills != [] {
        SpreadShape(child[1..], fills[1..]);
      } else {
        SpreadShape(child[1..], fills);
      }
    }
  }

  /** The child `Order1` returns, or the exception it throws; `rnd` is the draw of
      `Number.Rnd()` that picks the segment's start. */
  function Order1Child(sol1: seq<Int16>, sol2: seq<Int16>, noOfCrossOver: int, rnd: real)
    : (r: Result<seq<Int16>, Order1Error>)
    requires 0.0 <= rnd < 1.0
    ensures r.Success? ==> |r.value| == |sol1| == |sol2| > noOfCrossOver
  {
    if |sol1| != |sol2| then Failure(CountMismatch)
    else if |sol1| <= noOfCrossOver then Failure(CrossOverTooLarge)
    else
      var start := ScaledDraw(rnd, |sol1| - noOfCrossOver);
      var segment := Segment(sol1, start, noOfCrossOver);
      if !Distinct(segment) then Failure(DuplicateKey)
      else Success(Spread(Seeded(sol1, start, noOfCrossOver), Fills(Elems(segment), sol2)))
  }

  /** The segment always lies inside the parents: it starts at or after 0 and its last
      position `start + noOfCrossOver - 1` is at most `n - 2`. */
  lemma SegmentInBounds(n: int, noOfCrossOver: int, rnd: real)
    requires 0.0 <= rnd < 1.0 && n > noOfCrossOver
    ensures var start := ScaledDraw(rnd, n - noOfCrossOver);
            0 <= start && start + noOfCrossOver - 1 <= n - 2
  {
  }

  /** `Order1` throws exactly when the parents differ in length, when the segment is not
      shorter than the parents, or when two positions of the segment of `sol1` hold the
      same value; in every other case it returns a child. */
  lemma Order1Errors(sol1: seq<Int16>, sol2: seq<Int16>, noOfCrossOver: int, rnd: real)
    requires 0.0 <= rnd < 1.0
    ensures var r := Order1Child(sol1, sol2, noOfCrossOver, rnd);
            (r == Failure(CountMismatch) <==> |sol1| != |sol2|) &&
            (r == Failure(CrossOverTooLarge) <==> |sol1| == |sol2| <= noOfCrossOver) &&
            (r == Failure(DuplicateKey) <==>
               |sol1| == |sol2| > noOfCrossOver &&
               var start := ScaledDraw(rnd, |sol1| - noOfCrossOver);
               exists a, b :: start <= a < b < start + noOfCrossOver && sol1[a] == sol1[b])
  {
    if |sol1| == |sol2| > noOfCrossOver {
      SegmentRepeats(sol1, ScaledDraw(rnd, |sol1| - noOfCrossOver), noOfCrossOver);
    }
  }

  /** The segment has a repeat exactly when two of its positions in `sol1` hold the same
      value. */
  lemma SegmentRepeats(sol1: seq<Int16>, start: int, k: int)
    requires k > 0 ==> 0 <= start && start + k <= |sol1|
    ensures !Distinct(Segment(sol1, start, k)) <==>
            exists a, b :: start <= a < b < start + k && sol1[a] == sol1[b]
  {
    var segment := Segment(sol1, start, k);
    if !Distinct(segment) {
      var a, b :| 0 <= a < b < |segment| && segment[a] == segment[b];
      assert sol1[start + a] == sol1[start + b];
    } else {
      forall a, b | start <= a < b < start + k
        ensures sol1[a] != sol1[b]
      {
        assert segment[a - start] != segment[b - start];
      }
    }
  }

  /** A value the first loop meets twice is a repeat within the whole segment. */
  lemma SegmentRepeat(sol1: seq<Int16>, start: int, k: int, i: int)
    requires 0 <= start <= i < start + k <= |sol1|
    requires sol1[i] in Segment(sol1, start, i - start)
    ensures !Distinct(Segment(sol1, start, k))
  {
    var segment := Segment(sol1, start, k);
    var t :| 0 <= t < i - start && Segment(sol1, start, i - start)[t] == sol1[i];
    assert segment[t] == segment[i - start];
  }

  /** The first loop ends with the whole segment copied (none at all when `k` is not
      positive). */
  lemma SegmentDone(sol1: seq<Int16>, start: int, k: int, len: int)
    requires 0 <= start && start + k <= |sol1|
    requires len == if k < 0 then 0 else k
    ensures Seeded(sol1, start, len) == Seeded(sol1, start, k)
    ensures Segment(sol1, start, len) == Segment(sol1, start, k)
  {
  }

  /** One step of the first loop, on the reference definitions. */
  lemma SegmentGrow(sol1: seq<Int16>, start: int, i: int)
    requires 0 <= start <= i < |sol1|
    ensures Segment(sol1, start, i + 1 - start) == Segment(sol1, start, i - start) + [sol1[i]]
    ensures Seeded(sol1, start, i + 1 - start) == Seeded(sol1, start, i - start)[i := sol1[i]]
    ensures var segment := Segment(sol1, start, i - start);
            Distinct(segment) && sol1[i] !in segment ==> Distinct(segment + [sol1[i]])
  {
  }

  /** `record` holds exactly the values of `s` other than `Empty`. */
  predicate Recorded(record: set<Int16>, s: seq<Int16>) {
    forall x :: x != Empty ==> (x in record <==> x in s)
  }

  /** Writing a value into an empty slot and recording it keeps `record` equal to the
      non-`Empty` values of the child. */
  lemma RecordAfterWrite(ret: seq<Int16>, record: set<Int16>, p: int, v: Int16)
    requires 0 <= p < |ret| && ret[p] == Empty
    requires Recorded(record, ret)
    ensures Recorded(record + {v}, ret[p := v])
  {
    forall x | x != Empty
      ensures x in record + {v} <==> x in ret[p := v]
    {
      assert ret[p := v][p] == v;
      if x in ret {
        var j :| 0 <= j < |ret| && ret[j] == x;
        assert ret[p := v][j] == x;
      }
      if x in ret[p := v] && x != v {
        var j :| 0 <= j < |ret| && ret[p := v][j] == x;
        assert ret[j] == x;
      }
    }
  }

  /** With nothing to place, the child is returned as it is. */
  lemma {:induction false} SpreadNothing(child: seq<Int16>)
    ensures Spread(child, []) == child
  {
    if child != [] {
      SpreadNothing(child[1..]);
    }
  }

  /** Updating behind a first element updates the tail. */
  lemma ConsUpdate(x: Int16, t: seq<Int16>, p: int, v: Int16)
    requires 0 <= p < |t|
    ensures ([x] + t)[p + 1 := v] == [x] + t[p := v]
  {
  }

  /** One more fill value, while empty slots remain, lands in the first empty slot. */
  lemma {:induction false} SpreadSnoc(child: seq<Int16>, fills: seq<Int16>, v: Int16)
    requires Empty !in fills && v != Empty && |fills| < Zeros(child)
    ensures var s := Spread(child, fills);
            FirstEmpty(s) < |s| && Spread(child, fills + [v]) == s[FirstEmpty(s) := v]
  {
    var rest := child[1..];
    if child[0] == Empty && fills != [] {
      var s' := Spread(rest, fills[1..]);
      SpreadSnoc(rest, fills[1..], v);
      assert (fills + [v])[1..] == fills[1..] + [v];
      assert fills[0] != Empty;
      ConsUpdate(fills[0], s', FirstEmpty(s'), v);
    } else if child[0] != Empty {
      var s' := Spread(rest, fills);
      SpreadSnoc(rest, fills, v);
      ConsUpdate(child[0], s', FirstEmpty(s'), v);
    } else {
      var s' := Spread(rest, []);
      assert fills + [v] == [v];
      assert Spread(child, fills) == [Empty] + s';
      assert ([Empty] + s')[0 := v] == [v] + s';
    }
  }

  /** Once every empty slot is taken, further fill values change nothing and no empty
      slot is left. */
  lemma {:induction false} SpreadFull(child: seq<Int16>, fills: seq<Int16>, more: seq<Int16>)
    requires Empty !in fills && |fills| >= Zeros(child)
    ensures FirstEmpty(Spread(child, fills)) == |child|
    ensures Spread(child, fills + more) == Spread(child, fills)
  {
    if child != [] {
      var rest := child[1..];
      if child[0] == Empty {
        SpreadFull(rest, fills[1..], more);
        assert (fills + more)[1..] == fills[1..] + more;
      } else {
        SpreadFull(rest, fills, more);
      }
    }
  }

  /** Filling `|fills|` of the empty slots leaves the rest empty. */
  lemma {:induction false} SpreadZeros(child: seq<Int16>, fills: seq<Int16>)
    requires Empty !in fills && |fills| <= Zeros(child)
    ensures Zeros(Spread(child, fills)) == Zeros(child) - |fills|
  {
    if child != [] {
      if child[0] == Empty && fills != [] {
        SpreadZeros(child[1..], fills[1..]);
      } else {
        SpreadZeros(child[1..], fills);
      }
    }
  }

  /** When there are enough empty slots, every fill value is placed. */
  lemma {:induction false} SpreadPlacesAll(child: seq<Int16>, fills: seq<Int16>)
    requires |fills| <= Zeros(child)
    ensures forall x :: x in fills ==> x in Spread(child, fills)
  {
    if child != [] {
      if child[0] == Empty && fills != [] {
        SpreadPlacesAll(child[1..], fills[1..]);
        assert forall x :: x in fills ==> x == fills[0] || x in fills[1..];
      } else {
        SpreadPlacesAll(child[1..], fills);
      }
    }
  }

  /** Outside the segment the seeded child holds only `Empty`. */
  lemma SeededValues(sol1: seq<Int16>, start: int, k: int)
    requires k > 0 ==> 0 <= start && start + k <= |sol1|
    ensures Recorded(Elems(Segment(sol1, start, k)), Seeded(sol1, start, k))
  {
    var child, segment := Seeded(sol1, start, k), Segment(sol1, start, k);
    forall x | x != Empty
      ensures x in child <==> x in segment
    {
      if x in child {
        var j :| 0 <= j < |child| && child[j] == x;
        assert segment[j - start] == x;
      }
      if x in segment {
        var t :| 0 <= t < |segment| && segment[t] == x;
        assert child[start + t] == x;
      }
    }
  }

  /** The step the second loop takes for one value `v` of `sol2`, stated on the reference
      definition: with `record` holding exactly the non-`Empty` values of the child, the
      value is placed in the first empty slot, or nothing changes. */
  lemma FillStep(child: seq<Int16>, used: set<Int16>, s: seq<Int16>, v: Int16, record: set<Int16>)
    requires Recorded(used, child)
    requires Recorded(record, Spread(child, Fills(used, s)))
    ensures var ret := Spread(child, Fills(used, s));
            var next := Spread(child, Fills(used, s + [v]));
            if v in record then next == ret
            else if FirstEmpty(ret) < |ret| then next == ret[FirstEmpty(ret) := v]
            else next == ret
  {
    var f := Fills(used, s);
    var ret := Spread(child, f);
    FillsShape(used, s);
    SpreadShape(child, f);
    assert (s + [v])[..|s + [v]| - 1] == s;
    assert Fills(used, s + [v]) == if v == Empty || v in used || v in f then f else f + [v];
    if v == Empty {
      if FirstEmpty(ret) < |ret| {
        FirstEmptyIsEmpty(ret);
        assert ret[FirstEmpty(ret) := v] == ret;
      }
    } else if v in record {
      assert v in ret;
      var j :| 0 <= j < |ret| && ret[j] == v;
      assert ret[j] == child[j] || ret[j] in f;
    } else {
      assert v !in ret;
      assert v !in used;
      if v in f {
        if |f| <= Zeros(child) {
          SpreadPlacesAll(child, f);
          assert false;
        }
        SpreadFull(child, f, []);
        assert f + [] == f;
      } else if |f| < Zeros(child) {
        SpreadSnoc(child, f, v);
      } else {
        SpreadFull(child, f, [v]);
      }
    }
  }

  /** `Order1` as the program runs it, with the draw `rnd` of `Number.Rnd()` as a parameter.
      Its first loop is `CopySegment`, its second `FillFromSecond`, and the dictionary
      `record` (whose values are always `true`) is the set of its keys. */
  method Order1(sol1: seq<Int16>, sol2: seq<Int16>, noOfCrossOver: int, rnd: real)
    returns (r: Result<seq<Int16>, Order1Error>)
    requires 0.0 <= rnd < 1.0
    ensures r == Order1Child(sol1, sol2, noOfCrossOver, rnd)
  {
    var sol1Count, sol2Count := |sol1|, |sol2|;
    if sol1Count != sol2Count {
      return Failure(CountMismatch);
    }
    if sol1Count <= noOfCrossOver {
      return Failure(CrossOverTooLarge);
    }
    var startIndex := ScaledDraw(rnd, sol1Count - noOfCrossOver);
    var ret, record, repeated := CopySegment(sol1, startIndex, noOfCrossOver);
    if repeated {
      return Failure(DuplicateKey);
    }
    SeededValues(sol1, startIndex, noOfCrossOver);
    FillFromSecond(ret, record, sol2);
    return Success(ret[..]);
  }

  /** The first half of `Order1`: allocates the child `ret`, every slot `default(Int16)`,
      and copies positions `startIndex .. startIndex + k - 1` of `sol1` into it, recording
      each value; `repeated` reports that `record.Add` met a value twice and threw, which
      happens exactly when the segment has a repeat. */
  method CopySegment(sol1: seq<Int16>, startIndex: int, noOfCrossOver: int)
    returns (ret: array<Int16>, record: set<Int16>, repeated: bool)
    requires 0 <= startIndex && startIndex + noOfCrossOver <= |sol1|
    ensures fresh(ret) && ret.Length == |sol1|
    ensures repeated <==> !Distinct(Segment(sol1, startIndex, noOfCrossOver))
    ensures !repeated ==>
              ret[..] == Seeded(sol1, startIndex, noOfCrossOver) &&
              record == Elems(Segment(sol1, startIndex, noOfCrossOver))
  {
    ret := new Int16[|sol1|](_ => Empty);
    var endIndex := startIndex + noOfCrossOver - 1;
    record := {};
    assert ret[..] == Seeded(sol1, startIndex, 0);
    var i := startIndex;
    while i <= endIndex
      invariant startIndex <= i <= startIndex + (if noOfCrossOver < 0 then 0 else noOfCrossOver)
      invariant ret[..] == Seeded(sol1, startIndex, i - startIndex)
      invariant record == Elems(Segment(sol1, startIndex, i - startIndex))
      invariant Distinct(Segment(sol1, startIndex, i - startIndex))
    {
      SegmentGrow(sol1, startIndex, i);
      ret[i] := sol1[i];
      if ret[i] in record {
        SegmentRepeat(sol1, startIndex, noOfCrossOver, i);
        return ret, record, true;
      }
      record := record + {ret[i]};
      i := i + 1;
    }
    SegmentDone(sol1, startIndex, noOfCrossOver, i - startIndex);
    return ret, record, false;
  }

  /** The second half of `Order1`: walks `sol2` in order and puts each value not yet
      recorded into the first slot of `ret` still holding `Empty`; a value that finds no
      such slot is dropped. */
  method FillFromSecond(ret: array<Int16>, record: set<Int16>, sol2: seq<Int16>)
    requires Recorded(record, ret[..])
    modifies ret
    ensures ret[..] == Spread(old(ret[..]), Fills(record, sol2))
  {
    ghost var child := ret[..];
    ghost var used := record;
    var rec := record;
    assert sol2[..0] == [];
    SpreadNothing(child);
    var i := 0;
    while i < |sol2|
      invariant 0 <= i <= |sol2|
      invariant ret[..] == Spread(child, Fills(used, sol2[..i]))
      invariant Recorded(rec, ret[..])
    {
      assert sol2[..i + 1] == sol2[..i] + [sol2[i]];
      FillStep(child, used, sol2[..i], sol2[i], rec);
      if !(sol2[i] in rec) {
        rec := PlaceFirstEmpty(ret, rec, sol2[i]);
      }
      i := i + 1;
    }
    assert sol2[..|sol2|] == sol2;
  }

  /** The inner scan of the second loop: writes `v` into the first slot of `ret` holding
      `Empty` and records it, or changes nothing when no slot is empty. */
  method PlaceFirstEmpty(ret: array<Int16>, record: set<Int16>, v: Int16)
    returns (record': set<Int16>)
    requires Recorded(record, ret[..])
    modifies ret
    ensures var p := FirstEmpty(old(ret[..]));
            if p < ret.Length then ret[..] == old(ret[..])[p := v] && record' == record + {v}
            else ret[..] == old(ret[..]) && record' == record
    ensures Recorded(record', ret[..])
  {
    ghost var before := ret[..];
    record' := record;
    var j := 0;
    while j < ret.Length
      invariant 0 <= j <= ret.Length
      invariant ret[..] == before
      invariant NoEmptyBefore(before, j)
    {
      if ret[j] == Empty {
        FirstEmptyAt(before, j);
        RecordAfterWrite(before, record, j, v);
        ret[j] := v;
        record' := record + {ret[j]};
        return;
      }
      NoEmptyBeforeStep(before, j);
      j := j + 1;
    }
    FirstEmptyAt(before, j);
  }
}
