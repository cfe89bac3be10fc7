/**
 * The difference pyramid of 2023 day 9. `yeet` pushes rows of pairwise
 * differences under a history until the last row is all zeros, then folds
 * the rows from the bottom up: part 1 adds each row's last element to the
 * accumulator, part 2 subtracts the accumulator from each row's first
 * element. Taking the last or first element of an empty row panics, which
 * is None here.
 */
module Mirage {
  import opened Common

  /** The differences of neighbouring elements: `windows(2).map(|p| p[1] - p[0])`. */
  function Diffs(row: seq<int>): (r: seq<int>)
    ensures |row| > 0 ==> |r| == |row| - 1
    ensures |row| == 0 ==> r == []
    ensures forall k {:trigger r[k]} | 0 <= k < |r| :: r[k] == row[k + 1] - row[k]
  {
    if |row| < 2 then [] else [row[1] - row[0]] + Diffs(row[1..])
  }

  predicate AllZero(row: seq<int>)
  {
    forall k | 0 <= k < |row| :: row[k] == 0
  }

  /**
   * The rows `yeet` builds for a history: the history, then each row's
   * differences, ending at the first all-zero row.
   */
  function Pyramid(row: seq<int>): (p: seq<seq<int>>)
    ensures |p| >= 1 && p[0] == row
    decreases |row|
  {
    if AllZero(row) then [row] else [row] + Pyramid(Diffs(row))
  }

  /**
   * Each row below the first is the differences of the row above it and one
   * element shorter, the last row is all zeros and no earlier one is.
   */
  lemma {:induction false} PyramidShape(row: seq<int>)
    ensures var p := Pyramid(row);
      |p| >= 1 && p[0] == row && AllZero(p[|p| - 1]) &&
      (forall k | 0 <= k < |p| - 1 :: !AllZero(p[k]) && |p[k]| > 0 && p[k + 1] == Diffs(p[k]) && |p[k + 1]| == |p[k]| - 1)
    decreases |row|
  {
    var p := Pyramid(row);
    if !AllZero(row) {
      var d := Diffs(row);
      PyramidShape(d);
      var q := Pyramid(d);
      assert p == [row] + q;
      forall k | 0 <= k < |p| - 1
        ensures !AllZero(p[k]) && |p[k]| > 0 && p[k + 1] == Diffs(p[k]) && |p[k + 1]| == |p[k]| - 1
      {
        if k == 0 {
          assert p[1] == q[0] == d;
        } else {
          assert p[k] == q[k - 1] && p[k + 1] == q[k];
        }
      }
      assert p[|p| - 1] == q[|q| - 1];
    } else {
      assert p == [row];
    }
  }

  /** The loop of `yeet` that pushes difference rows until the last row is all zeros. */
  method BuildPyramid(history: seq<int>) returns (compendium: seq<seq<int>>)
    ensures compendium == Pyramid(history)
  {
    compendium := [history];
    while !AllZero(compendium[|compendium| - 1])
      invariant |compendium| >= 1
      invariant Pyramid(history) == compendium[..|compendium| - 1] + Pyramid(compendium[|compendium| - 1])
      decreases |compendium[|compendium| - 1]|
    {
      var prev := compendium[|compendium| - 1];
      var next := Diffs(prev);
      assert Pyramid(prev) == [prev] + Pyramid(next);
      assert (compendium + [next])[..|compendium|] == compendium;
      assert compendium[..|compendium| - 1] + [prev] == compendium;
      compendium := compendium + [next];
    }
  }

  /** Which end of the rows `yeet` extrapolates. */
  datatype Direction = Forward | Backward

  /** The accumulator of part 1 (`acc + last`) or part 2 (`first - acc`). */
  function Accumulate(dir: Direction, acc: int, row: seq<int>): (r: Option<int>)
    ensures r.None? <==> row == []
  {
    if row == [] then None
    else match dir
      case Forward => Some(acc + row[|row| - 1])
      case Backward => Some(row[0] - acc)
  }

  /** `rows.into_iter().rev().fold(0, accumulator)`: the bottom row first. */
  function FoldUp(dir: Direction, rows: seq<seq<int>>): (r: Option<int>)
    ensures r.None? <==> exists k | 0 <= k < |rows| :: rows[k] == []
  {
    if rows == [] then Some(0)
    else match FoldUp(dir, rows[1..])
      case None => None
      case Some(acc) => Accumulate(dir, acc, rows[0])
  }

  /** The value that continues a row: its last element plus the value that continues its differences. */
  function NextValue(row: seq<int>): Option<int>
    decreases |row|
  {
    if row == [] then None
    else if AllZero(row) then Some(0)
    else match NextValue(Diffs(row))
      case None => None
      case Some(d) => Some(row[|row| - 1] + d)
  }

  /** The value that precedes a row: its first element minus the value that precedes its differences. */
  function PrevValue(row: seq<int>): Option<int>
    decreases |row|
  {
    if row == [] then None
    else if AllZero(row) then Some(0)
    else match PrevValue(Diffs(row))
      case None => None
      case Some(d) => Some(row[0] - d)
  }

  /** Folding the pyramid with part 1's accumulator computes the continuation. */
  lemma {:induction false} FoldUpForward(row: seq<int>)
    ensures FoldUp(Forward, Pyramid(row)) == NextValue(row)
    decreases |row|
  {
    var p := Pyramid(row);
    if AllZero(row) {
      assert p[1..] == [];
      if row != [] {
        assert row[|row| - 1] == 0;
      }
    } else {
      assert p[1..] == Pyramid(Diffs(row));
      FoldUpForward(Diffs(row));
    }
  }

  /** Folding the pyramid with part 2's accumulator computes the value before the row. */
  lemma {:induction false} FoldUpBackward(row: seq<int>)
    ensures FoldUp(Backward, Pyramid(row)) == PrevValue(row)
    decreases |row|
  {
    var p := Pyramid(row);
    if AllZero(row) {
      assert p[1..] == [];
    } else {
      assert p[1..] == Pyramid(Diffs(row));
      FoldUpBackward(Diffs(row));
    }
  }

  /**
   * The continuation keeps the pattern: an all-zero row stays all zeros,
   * and otherwise the new last difference is the continuation of the
   * differences.
   */
  lemma NextValueContinues(row: seq<int>)
    requires NextValue(row).Some?
    ensures AllZero(row) ==> AllZero(row + [NextValue(row).value])
    ensures !AllZero(row) ==> Diffs(row + [NextValue(row).value]) == Diffs(row) + [NextValue(Diffs(row)).value]
  {
    var v := NextValue(row).value;
    if !AllZero(row) {
      var d := NextValue(Diffs(row)).value;
      DiffsAppend(row, v);
      assert v - row[|row| - 1] == d;
    }
  }

  /** The value before a row keeps the pattern in the same way at the front. */
  lemma PrevValueContinues(row: seq<int>)
    requires PrevValue(row).Some?
    ensures AllZero(row) ==> AllZero([PrevValue(row).value] + row)
    ensures !AllZero(row) ==> Diffs([PrevValue(row).value] + row) == [PrevValue(Diffs(row)).value] + Diffs(row)
  {
    var v := PrevValue(row).value;
    if !AllZero(row) {
      var d := PrevValue(Diffs(row)).value;
      assert ([v] + row)[1..] == row;
      assert row[0] - v == d;
    }
  }

  lemma {:induction false} DiffsAppend(row: seq<int>, v: int)
    requires row != []
    ensures Diffs(row + [v]) == Diffs(row) + [v - row[|row| - 1]]
  {
    if |row| >= 2 {
      assert (row + [v])[1..] == row[1..] + [v];
      DiffsAppend(row[1..], v);
    } else {
      assert (row + [v])[1..] == [v];
    }
  }

  /** `yeet`'s answer: the sum over the histories of each one's extrapolation. */
  function YeetSpec(dataset: seq<seq<int>>, dir: Direction): Option<int>
  {
    if dataset == [] then Some(0)
    else match FoldUp(dir, Pyramid(dataset[0]))
      case None => None
      case Some(v) => Plus(v, YeetSpec(dataset[1..], dir))
  }

  function Plus(x: int, o: Option<int>): Option<int>
  {
    match o
    case None => None
    case Some(y) => Some(x + y)
  }

  /** `yeet`: extrapolate every history and add the results. */
  method Yeet(dataset: seq<seq<int>>, dir: Direction) returns (r: Option<int>)
    ensures r == YeetSpec(dataset, dir)
  {
    var total := 0;
    for i := 0 to |dataset|
      invariant YeetSpec(dataset, dir) == Plus(total, YeetSpec(dataset[i..], dir))
    {
      assert dataset[i..][1..] == dataset[i + 1..];
      var compendium := BuildPyramid(dataset[i]);
      var v := FoldUp(dir, compendium);
      if v.None? {
        return None;
      }
      total := total + v.value;
    }
    return Some(total);
  }

  /** Part 1 adds up the continuations of the histories, part 2 the values before them. */
  lemma {:induction false} YeetExtrapolates(dataset: seq<seq<int>>)
    ensures YeetSpec(dataset, Forward).Some? ==>
      forall k | 0 <= k < |dataset| :: NextValue(dataset[k]).Some?
    ensures YeetSpec(dataset, Backward).Some? ==>
      forall k | 0 <= k < |dataset| :: PrevValue(dataset[k]).Some?
  {
    if dataset != [] {
      YeetExtrapolates(dataset[1..]);
      FoldUpForward(dataset[0]);
      FoldUpBackward(dataset[0]);
    }
  }

  /** The differences of an arithmetic progression are its common difference. */
  lemma DiffsOfProgression(a: int, d: int, n: nat)
    ensures Diffs(seq(n, k => a + k * d)) == seq(if n == 0 then 0 else n - 1, _ => d)
  {
    var row := seq(n, k => a + k * d);
    var r := Diffs(row);
    forall k | 0 <= k < |r|
      ensures r[k] == d
    {
      assert r[k] == row[k + 1] - row[k];
      assert (k + 1) * d == k * d + d;
    }
  }

  /** A constant row of at least two elements continues, and is preceded by, its own value. */
  lemma ConstantRow(d: int, n: nat)
    requires n >= 2
    ensures NextValue(seq(n, _ => d)) == Some(d)
    ensures PrevValue(seq(n, _ => d)) == Some(d)
  {
    var row := seq(n, _ => d);
    if d != 0 {
      assert !AllZero(row) by { assert row[0] != 0; }
      DiffsOfProgression(d, 0, n);
      assert seq(n, k => d + k * 0) == row;
      var zeros := Diffs(row);
      assert AllZero(zeros) && zeros != [];
    }
  }

  /**
   * An arithmetic progression of at least three elements is continued by
   * the next term and preceded by the term before it (the first example
   * history `0 3 6 9 12 15` gives 18 and -3).
   */
  lemma Progression(a: int, d: int, n: nat)
    requires n >= 3
    ensures NextValue(seq(n, k => a + k * d)) == Some(a + n * d)
    ensures PrevValue(seq(n, k => a + k * d)) == Some(a - d)
  {
    var row := seq(n, k => a + k * d);
    assert row[0] == a && row[1] == a + d;
    assert row[n - 1] == a + (n - 1) * d;
    assert (n - 1) * d + d == n * d;
    if !AllZero(row) {
      DiffsOfProgression(a, d, n);
      ConstantRow(d, n - 1);
    }
  }

  /** A single non-zero value has an empty row of differences, whose last element `yeet` cannot take. */
  lemma ShortRowPanics(x: int)
    requires x != 0
    ensures NextValue([x]) == None && PrevValue([x]) == None
  {
    assert !AllZero([x]) by { assert [x][0] != 0; }
    assert Diffs([x]) == [];
  }
}
