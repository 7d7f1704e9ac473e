# Tsp genetic-algorithm operators in Dafny

This project models the problem-specific operators of a genetic algorithm for the
travelling salesman problem. A solution is a tour: an `Int16[]` of city indices. The
operators come from `Program.cs`:

- **`Order1`**, the order-1 crossover. It checks its arguments and draws a segment
  `start .. start + k - 1`. It copies that segment of the first parent into a fresh array.
  It then walks the second parent and puts each value it has not recorded yet into the
  first slot that still holds `default(Int16)`, which is 0.
- **The swap mutation.** It rejects tours of fewer than two cities. It draws two different
  positions, swaps them in the caller's array and returns that same array.
- **The objective.** It is the length of the closed tour: the edges between consecutive
  cities plus the edge from the last city back to the first, and 0 for an empty tour.
- **Initialisation and cloning.** The first tour is the identity tour of 15 cities, and a
  clone is a new array with the same entries.

`Order1` treats city 0 as an empty slot, and the model keeps this exactly as the code
does. A 0 copied in with the segment can be overwritten by a later value, and writing a 0
fills nothing. `Order1Example.SegmentZeroOverwritten` shows one child where this happens.
`Order1Permutation` proves that crossing two tours still always gives a tour, because
exactly one empty slot is left and it keeps the 0.

Files:

- `tours.dfy`: the `Int16` newtype, the `Result` wrapper, tours, and the draw `ScaledDraw`.
- `crossover.dfy`: `Order1` as methods over an array, and the reference definition
  `Order1Child` that they are proved to compute.
- `order1_properties.dfy`: what the children of `Order1` look like.
- `order1_example.dfy`: one concrete child showing the 0 marker at work.
- `mutation.dfy`: the swap mutation.
- `objective.dfy`: the tour length.
- `solutions.dfy`: initialisation and cloning.

Random draws are parameters. `Convert.ToInt32(Math.Floor(Number.Rnd() * m))` for a draw
`rnd` in [0, 1) is modelled by `ScaledDraw(rnd, m)`, which multiplies exact reals.

## Model

| member | source | states |
|---|---|---|
| Tours.ScaledDraw | Program.cs:100 | a draw in [0, 1) scaled by `m > 0` and floored is an index in [0, m) |
| Crossover.Order1Child | Program.cs:93-121 | a child that `Order1` returns has the parents' common length, and that length exceeds `noOfCrossOver` |
| Crossover.Order1 | Program.cs:93-121 | the method (two checks, the draw, both loops, the inner scan with `break`) returns exactly `Order1Child`: the same exception, or the same child |
| Crossover.Order1Errors | Program.cs:95-106 | `Order1` throws exactly in three cases: the lengths differ; the length is at most `noOfCrossOver`; two positions of the drawn segment of `sol1` hold the same value (`record.Add` throws) |
| Crossover.SegmentInBounds | Program.cs:100-101 | `startIndex` is at least 0, and `endIndex = startIndex + k - 1` is at most `n - 2`, so the segment lies inside the parents |
| Crossover.CopySegment | Program.cs:99-107 | the first loop leaves the fresh child holding the segment of `sol1` in place and 0 elsewhere, with `record` holding the segment's values; it reports a repeat exactly when the segment has one |
| Crossover.FillFromSecond | Program.cs:108-119 | the second loop turns the child into `Spread(child, Fills(record, sol2))`: the unrecorded non-zero values of `sol2`, in order, go into the slots holding 0, left to right |
| Crossover.PlaceFirstEmpty | Program.cs:111-117 | the inner scan writes the value into the first slot holding 0 and records it; when no slot holds 0, it changes nothing; `record` keeps matching the non-zero values of the child |
| Crossover.FillStep | Program.cs:109-117 | one value of `sol2` on the reference definition: a recorded value changes nothing; otherwise the value lands in the first slot holding 0, if there is one |
| Crossover.FillsShape | Program.cs:108-119 | the values the second loop places never repeat, and they are exactly the values of `sol2` that are neither 0 nor recorded by the first loop |
| Crossover.SpreadShape | Program.cs:111-115 | the second loop never overwrites a slot holding a non-zero value, and every slot it changes receives a value from `sol2` |
| Crossover.SegmentRepeats | Program.cs:103-107 | the segment has a repeat exactly when two of its positions in `sol1` hold the same value |
| Order1Properties.Order1KeepsSegment | Program.cs:103-115 | every non-zero value of the segment stays at its position in the child; a segment without a 0 is kept verbatim |
| Order1Properties.Order1NoRepeats | Program.cs:103-117 | no non-zero value occurs twice in a child, because `ContainsKey` guards every write |
| Order1Properties.Order1Values | Program.cs:103-119 | every entry of a child is 0 or an entry of one of the parents |
| Order1Properties.Order1FillOrder | Program.cs:108-119 | the fill values are a subsequence of `sol2`, and they are exactly its values that are neither 0 nor in the segment; the slots the segment leaves empty receive them left to right, and the slots left over keep 0 |
| Order1Properties.FillCount | Program.cs:99-119 | for two tours of length `n > 0`, the seeded child has exactly one more empty slot than there are fill values |
| Order1Properties.Order1Permutation | Program.cs:93-121 | crossing two tours of the same length over a shorter segment never throws and always yields a tour |
| Order1Example.SegmentZeroOverwritten | Program.cs:111-114 | crossing [1, 0, 2, 3, 4] with [3, 4, 0, 1, 2] over positions 0 .. 2 gives [1, 3, 2, 4, 0]: the segment's 0 at position 1 is overwritten |
| Mutation.Redraw | Program.cs:61-64 | the redraw loop stops at the first draw naming a position other than the first; that position is in range and different |
| Mutation.Swapped | Program.cs:65-67 | the swap exchanges the two entries, leaves every other position as it was, and keeps the multiset of cities |
| Mutation.Mutate | Program.cs:58-69 | a tour of at most one city throws and is left as it was; otherwise the caller's array itself is returned, with the entries at the two drawn positions swapped in place |
| Mutation.SwapTwice | Program.cs:65-67 | swapping the same two positions again restores the tour |
| Mutation.SwapKeepsTour | Program.cs:65-67 | a swap of a tour is a tour |
| Mutation.SwapChanges | Program.cs:65-67 | swapping two different positions of a tour changes it |
| Objective.SquaredDistance | Program.cs:77 | the squared distance is never negative, and it is 0 exactly for equal coordinates |
| Objective.Evaluate | Program.cs:71-84 | the loop returns `TourLength`, the closed-tour sum of edge lengths, and it returns 0 for an empty tour |
| Objective.PathCons | Program.cs:74-79 | the open path from a first city is the edge to the second city plus the path from there |
| Objective.TourLengthRotate | Program.cs:74-81 | moving the first city of the tour to the end keeps the closed-tour length |
| Objective.TourLengthRotations | Program.cs:74-81 | the closed-tour length does not depend on which city the tour starts from: starting at any position `k` gives the same length |
| Objective.TourLengthReversed | Program.cs:74-81 | the closed-tour length is the same when the tour is travelled backwards |
| Solutions.IdentityIsTour | Program.cs:54-56 | the identity sequence `0 .. n - 1` is a tour with each city at its own position |
| Solutions.InitializeSolution | Program.cs:54-56 | the initial solution is a new array holding the identity tour of 15 cities |
| Solutions.Clone | Program.cs:53 | a clone is a new array with the same entries as the original |
| Solutions.MutateClone | Program.cs:53 | mutating a clone leaves the original unchanged; the clone keeps the original's multiset of cities, and it is a tour when the original is |

## Left out

- `ReadData` (Program.cs:38-47) is not part of this model. It reads a file and parses
  integers with library calls.
- `Main` and the search engine (`GeneticAlgorithm`, `create`, `fullIteration`,
  `Selection.RoulleteWheel`) are left out. They belong to an external library whose source
  is not part of this model.
- Console output (Program.cs:35, 82) and the configuration values (Program.cs:57, 70,
  85-89) are left out. They are I/O and settings, not logic.
- `Number.Rnd()` becomes parameters. Its distribution is not modelled, so nothing is
  claimed about how often a position or segment is chosen.
- `Tours.ScaledDraw`: the program's product `Number.Rnd() * m` is a `double`, and it can
  round up to the next integer (for `m = 12`, the draw `0.08333333333333333` gives 1.0).
  A given draw can then pick the next index in the program. The model multiplies exact
  reals, so it picks the lower one. The index is in [0, m) in both.
- `Mutation.Mutate`: the redraw loop stops only with probability 1. The model takes a
  finite sequence of draws and requires that one of them names a position other than the
  first.
- `Objective.Evaluate`: `Math.Sqrt` is a parameter `sqrt`, and the sum is exact real
  addition. `double` rounding is not modelled.
- `Objective.SquaredDistance` and `Objective.Evaluate`: the program subtracts coordinates
  as 32-bit `int` (Program.cs:77), which wraps when two coordinates differ by 2^31 or more.
  The model subtracts unbounded integers, so it differs from the program there.
- `Crossover.Order1`: the program computes `sol1Count - noOfCrossOver` and
  `startIndex + noOfCrossOver - 1` as 32-bit `int` (Program.cs:100-101). For
  `noOfCrossOver` near `int.MinValue` these wrap; the program's first loop then runs past
  the end and throws, while the model computes with unbounded integers and returns a child.
  The program only passes `NO_OF_CROSSOVER = 3` (Program.cs:16, 28), where nothing wraps.
- `Objective.Evaluate` requires every city index to be in range of `data`. The program
  throws an out-of-range exception there instead.
- `Crossover.Order1`: the null-argument check (Program.cs:96) is not modelled, because a
  Dafny sequence cannot be null. In the program, `Count()` on a null argument throws
  before that check is reached.
- `Crossover.Order1` is generic in the program. It is modelled for `Int16`, the only type
  it is used with, so `default(T)` is 0.

## Notes on the code as written

- The segment start is drawn from 0 .. n - k - 1, never n - k (Program.cs:100). So the
  last position of the parents is never inside the segment when `k > 0`
  (`Crossover.SegmentInBounds`).
- `cloneFunction` (Program.cs:53) accepts tours of any length, including the empty one.
- `Order1` uses the value 0 as its empty marker (Program.cs:112), and the model keeps that.
  `Order1Properties.Order1Permutation` shows that two tours still give a tour.
  `Order1Properties.Order1KeepsSegment` only promises the segment's non-zero values.
