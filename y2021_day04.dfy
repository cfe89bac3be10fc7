/**
 * The bingo boards of 2021 day 4. A board holds 25 numbers row by row, five
 * to a row. A drawn number is marked by overwriting its first occurrence
 * with 0xFF; a board wins when a whole row or a whole column is marked.
 */
module Bingo {
  import opened Common
  import opened Text

  /** The value that marks a drawn number. */
  const Marked: Byte := 0xFF

  /** The index of the first occurrence of `x` in `s`. */
  function FirstIndex(s: seq<Byte>, x: Byte): (i: nat)
    requires x in s
    ensures i < |s| && s[i] == x
    ensures forall j | 0 <= j < i :: s[j] != x
  {
    if s[0] == x then 0 else 1 + FirstIndex(s[1..], x)
  }

  /** `Board::mark` on values: the first cell equal to `num` becomes 0xFF. */
  function MarkedBoard(s: seq<Byte>, num: Byte): (r: seq<Byte>)
    ensures |r| == |s|
  {
    if s == [] then []
    else if s[0] == num then [Marked] + s[1..]
    else [s[0]] + MarkedBoard(s[1..], num)
  }

  /** Marking overwrites the first occurrence of the number with 0xFF and leaves every other cell alone. */
  lemma {:induction false} MarkFirst(s: seq<Byte>, num: Byte)
    ensures num in s ==> MarkedBoard(s, num) == s[FirstIndex(s, num) := Marked]
    ensures num !in s ==> MarkedBoard(s, num) == s
  {
    if s == [] {
    } else if s[0] == num {
      assert [Marked] + s[1..] == s[0 := Marked];
    } else {
      var rest := s[1..];
      MarkFirst(rest, num);
      assert s == [s[0]] + rest;
      if num in s {
        assert num in rest;
        var j := FirstIndex(rest, num);
        assert FirstIndex(s, num) == j + 1;
        UpdateBehindHead(s[0], rest, j, Marked);
      }
    }
  }

  /** Updating the tail of a sequence at `j` updates the whole at `j + 1`. */
  lemma UpdateBehindHead(x: Byte, rest: seq<Byte>, j: nat, v: Byte)
    requires j < |rest|
    ensures [x] + rest[j := v] == ([x] + rest)[j + 1 := v]
  {
    var a, b := [x] + rest[j := v], ([x] + rest)[j + 1 := v];
    assert forall k | 0 <= k < |a| :: a[k] == b[k];
  }

  /** `Board::unmarked_sum` on values: the sum of the cells that are not 0xFF. */
  function UnmarkedSum(s: seq<Byte>): (r: nat)
    ensures r <= 254 * |s|
    ensures (forall k | 0 <= k < |s| :: s[k] == Marked) ==> r == 0
    ensures (exists k | 0 <= k < |s| :: s[k] != Marked && s[k] > 0) ==> r > 0
  {
    if s == [] then 0 else (if s[0] != Marked then s[0] else 0) + UnmarkedSum(s[1..])
  }

  /** Marking a number on the board takes it out of the unmarked sum; marking 0xFF or an absent number changes nothing. */
  lemma {:induction false} MarkUnmarkedSum(s: seq<Byte>, num: Byte)
    ensures UnmarkedSum(MarkedBoard(s, num)) == UnmarkedSum(s) - (if num in s && num != Marked then num else 0)
  {
    if s != [] {
      if s[0] == num {
        assert MarkedBoard(s, num)[1..] == s[1..];
      } else {
        MarkUnmarkedSum(s[1..], num);
        assert MarkedBoard(s, num)[1..] == MarkedBoard(s[1..], num);
        assert num in s <==> num in s[1..];
      }
    }
  }

  /** `step_by(n)`: the first element and then every `n`th one. */
  function StepBy(s: seq<Byte>, n: nat): seq<Byte>
    requires n > 0
    decreases |s|
  {
    if s == [] then [] else [s[0]] + StepBy(s[if n <= |s| then n else |s|..], n)
  }

  /** Element `k` of `step_by(n)` is element `n * k` of the sequence. */
  lemma {:induction false} StepByAt(s: seq<Byte>, n: nat, k: nat)
    requires n > 0
    ensures k < |StepBy(s, n)| <==> n * k < |s|
    ensures k < |StepBy(s, n)| ==> StepBy(s, n)[k] == s[n * k]
    decreases |s|
  {
    if s != [] && k > 0 {
      MulSucc(n, k);
      if n <= |s| {
        var rest := s[n..];
        assert StepBy(s, n) == [s[0]] + StepBy(rest, n);
        StepByAt(rest, n, k - 1);
        if k - 1 < |StepBy(rest, n)| {
          assert StepBy(s, n)[k] == StepBy(rest, n)[k - 1];
        }
      } else {
        assert StepBy(s, n) == [s[0]] + StepBy(s[|s|..], n);
        assert StepBy(s[|s|..], n) == [];
      }
    }
  }

  lemma MulSucc(n: nat, k: nat)
    requires k > 0
    ensures n * k == n * (k - 1) + n && n * (k - 1) >= 0
  {
  }

  /** The cell at (row, col) of a board laid out row by row. */
  function At(s: seq<Byte>, row: nat, col: nat): Byte
    requires |s| == 25 && row < 5 && col < 5
  {
    s[5 * row + col]
  }

  predicate RowMarked(s: seq<Byte>, row: nat)
    requires |s| == 25 && row < 5
  {
    forall col | 0 <= col < 5 :: At(s, row, col) == Marked
  }

  predicate ColumnMarked(s: seq<Byte>, col: nat)
    requires |s| == 25 && col < 5
  {
    forall row | 0 <= row < 5 :: At(s, row, col) == Marked
  }

  /** The values of `step_by` are all 0xFF. */
  predicate AllMarked(t: seq<Byte>)
  {
    forall j | 0 <= j < |t| :: t[j] == Marked
  }

  /** `is_winning` on values: a chunk of five that is all 0xFF, or a column `skip(i).step_by(5)` that is. */
  function IsWinning(s: seq<Byte>): (r: bool)
    requires |s| == 25
    ensures r <==> (exists row | 0 <= row < 5 :: RowMarked(s, row)) || (exists col | 0 <= col < 5 :: ColumnMarked(s, col))
  {
    WinningMeans(s);
    (exists k | 0 <= k < 5 :: s[5 * k..5 * k + 5] == [Marked, Marked, Marked, Marked, Marked]) ||
    (exists i | 0 <= i < 5 :: AllMarked(StepBy(s[i..], 5)))
  }

  lemma WinningMeans(s: seq<Byte>)
    requires |s| == 25
    ensures ((exists k | 0 <= k < 5 :: s[5 * k..5 * k + 5] == [Marked, Marked, Marked, Marked, Marked]) ||
      (exists i | 0 <= i < 5 :: AllMarked(StepBy(s[i..], 5)))) <==>
      (exists row | 0 <= row < 5 :: RowMarked(s, row)) || (exists col | 0 <= col < 5 :: ColumnMarked(s, col))
  {
    RowsAt(s);
    ColumnsAt(s);
    if row :| 0 <= row < 5 && RowMarked(s, row) {
      assert s[5 * row..5 * row + 5] == [Marked, Marked, Marked, Marked, Marked];
    }
    if col :| 0 <= col < 5 && ColumnMarked(s, col) {
      assert AllMarked(StepBy(s[col..], 5));
    }
    if k :| 0 <= k < 5 && s[5 * k..5 * k + 5] == [Marked, Marked, Marked, Marked, Marked] {
      assert RowMarked(s, k);
    }
    if i :| 0 <= i < 5 && AllMarked(StepBy(s[i..], 5)) {
      assert ColumnMarked(s, i);
    }
  }

  lemma RowsAt(s: seq<Byte>)
    requires |s| == 25
    ensures forall k | 0 <= k < 5 :: s[5 * k..5 * k + 5] == [Marked, Marked, Marked, Marked, Marked] <==> RowMarked(s, k)
  {
    forall k | 0 <= k < 5
      ensures s[5 * k..5 * k + 5] == [Marked, Marked, Marked, Marked, Marked] <==> RowMarked(s, k)
    {
      var chunk := s[5 * k..5 * k + 5];
      assert forall col | 0 <= col < 5 :: chunk[col] == At(s, k, col);
    }
  }

  lemma ColumnsAt(s: seq<Byte>)
    requires |s| == 25
    ensures forall i | 0 <= i < 5 :: AllMarked(StepBy(s[i..], 5)) <==> ColumnMarked(s, i)
  {
    forall i | 0 <= i < 5
      ensures AllMarked(StepBy(s[i..], 5)) <==> ColumnMarked(s, i)
    {
      var column := StepBy(s[i..], 5);
      forall j | 0 <= j < 5
        ensures j < |column| && column[j] == At(s, j, i)
      {
        StepByAt(s[i..], 5, j);
      }
      StepByAt(s[i..], 5, 5);
    }
  }

  /** A marked cell stays marked, so a winning board stays winning. */
  lemma MarkKeepsWinning(s: seq<Byte>, num: Byte)
    requires |s| == 25 && IsWinning(s)
    ensures IsWinning(MarkedBoard(s, num))
  {
    MarkFirst(s, num);
    var m := MarkedBoard(s, num);
    assert forall k | 0 <= k < 25 :: s[k] == Marked ==> m[k] == Marked;
    if row :| 0 <= row < 5 && RowMarked(s, row) {
      forall col | 0 <= col < 5
        ensures At(m, row, col) == Marked
      {
        assert At(s, row, col) == Marked;
      }
      assert RowMarked(m, row);
    } else {
      var col :| 0 <= col < 5 && ColumnMarked(s, col);
      forall row | 0 <= row < 5
        ensures At(m, row, col) == Marked
      {
        assert At(s, row, col) == Marked;
      }
      assert ColumnMarked(m, col);
    }
  }

  /** `Board::from_str`: the board's numbers, split on ASCII whitespace; anything but exactly 25 `u8`s fails. */
  function ParseBoard(s: string): (r: Option<seq<Byte>>)
    ensures r.Some? <==> ParseAll(U8, Words(s, true)).Some? && |Words(s, true)| == 25
    ensures r.Some? ==> |r.value| == 25
    ensures r.Some? ==> forall i | 0 <= i < 25 :: Parse(U8, Words(s, true)[i]) == Some(r.value[i] as int)
  {
    match ParseAll(U8, Words(s, true))
    case None => None
    case Some(v) =>
      if |v| != 25 then None
      else Some(seq(25, i requires 0 <= i < 25 => v[i] as Byte))
  }

  /** `Board`: 25 numbers, marked in place. */
  class Board {
    const numbers: array<Byte>

    constructor (nums: seq<Byte>)
      requires |nums| == 25
      ensures numbers.Length == 25 && numbers[..] == nums && fresh(numbers)
    {
      numbers := new Byte[25](i requires 0 <= i < 25 => nums[i]);
    }

    /** `Board::mark`: overwrite the first cell equal to `num` with 0xFF, if there is one. */
    method Mark(num: Byte)
      requires numbers.Length == 25
      modifies numbers
      ensures numbers[..] == MarkedBoard(old(numbers[..]), num)
    {
      MarkFirst(numbers[..], num);
      for i := 0 to 25
        invariant forall j | 0 <= j < i :: numbers[j] != num
        invariant numbers[..] == old(numbers[..])
      {
        if numbers[i] == num {
          assert FirstIndex(numbers[..], num) == i;
          numbers[i] := Marked;
          return;
        }
      }
      assert num !in numbers[..];
    }
  }
}
