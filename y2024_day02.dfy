/**
 * The red-nosed reports of 2024 day 2. The input keeps every level in one
 * flat vector of bytes and records how many levels each line holds; the
 * `Rows` iterator cuts the vector back into reports. A report is safe when
 * it is strictly increasing or strictly decreasing with every step between
 * 1 and 3; part 2 also accepts a report that becomes safe once one level is
 * removed.
 */
module Reports {
  import opened Common
  import Text

  /** `Input`: all the levels, and the number of levels on each line. */
  datatype Input = Input(numbers: seq<Byte>, widths: seq<nat>)

  /** The number of ASCII whitespace characters in a line. */
  function WhitespaceCount(line: string): (n: nat)
    ensures n <= |line|
  {
    if line == [] then 0
    else WhitespaceCount(line[..|line| - 1]) + (if Text.IsAsciiWhitespace(line[|line| - 1]) then 1 else 0)
  }

  /** The width recorded for a line: one more than its whitespace count. */
  function Width(line: string): (n: nat)
    ensures n >= 1
  {
    WhitespaceCount(line) + 1
  }

  /**
   * `Input::from_str`: every whitespace-separated word must parse as a `u8`;
   * each line contributes its width.
   */
  function FromStr(s: string): (r: Option<Input>)
    ensures r.Some? <==> Text.ParseAll(Text.U8, Text.Words(s, true)).Some?
    ensures r.Some? ==> |r.value.widths| == |Text.Lines(s)|
    ensures r.Some? ==> forall i | 0 <= i < |r.value.widths| :: r.value.widths[i] == Width(Text.Lines(s)[i])
  {
    var lines := Text.Lines(s);
    match Text.ParseAll(Text.U8, Text.Words(s, true))
    case None => None
    case Some(ns) =>
      Some(Input(seq(|ns|, i requires 0 <= i < |ns| => ns[i] as Byte),
                 seq(|lines|, i requires 0 <= i < |lines| => Width(lines[i]))))
  }

  /**
   * A carriage return that ends the input, with no line feed after it,
   * stays on the last line and counts as whitespace there: `1 2\r` is one
   * report of two levels, recorded with width 3.
   */
  lemma FinalCarriageReturnCounts()
    ensures FromStr("1 2\r") == Some(Input([1, 2], [3]))
  {
    Text.LinesLast("1 2\r");
    ExampleWords();
    ExampleWhitespace();
    var r := FromStr("1 2\r").value;
    assert r.numbers == [1, 2] && r.widths == [3];
  }

  lemma ExampleWords()
    ensures Text.ParseAll(Text.U8, Text.Words("1 2\r", true)) == Some([1, 2])
  {
    ExampleSplit();
    ExampleLevels();
  }

  lemma ExampleSplit()
    ensures Text.Words("1 2\r", true) == ["1", "2"]
  {
    Text.WordsCons("1", " 2\r", true);
    Text.WordsAfterSpace("2\r", true);
    Text.WordsCons("2", "\r", true);
    assert "1" + " 2\r" == "1 2\r" && [' '] + "2\r" == " 2\r" && "2" + "\r" == "2\r";
    assert Text.Words("\r", true) == [];
  }

  lemma ExampleLevels()
    ensures Text.ParseAll(Text.U8, ["1", "2"]) == Some([1, 2])
  {
    assert Text.Parse(Text.U8, "1") == Some(1) && Text.Parse(Text.U8, "2") == Some(2);
    assert Text.ParseAll(Text.U8, ["2"]) == Some([2]) by {
      assert ["2"][0] == "2" && ["2"][1..] == [];
      assert Text.ParseAll(Text.U8, []) == Some([]);
      assert [2] + [] == [2];
    }
    assert ["1", "2"][0] == "1" && ["1", "2"][1..] == ["2"];
    assert [1] + [2] == [1, 2];
  }

  lemma ExampleWhitespace()
    ensures Width("1 2\r") == 3
  {
    assert "1 2\r"[..3] == "1 2" && "1 2"[..2] == "1 " && "1 "[..1] == "1" && "1"[..0] == [];
  }

  /** A line of words each free of whitespace, written with one space between them. */
  lemma {:induction false} WidthOfSpacedWords(words: seq<string>)
    requires |words| >= 1
    requires forall i, k | 0 <= i < |words| && 0 <= k < |words[i]| :: !Text.IsAsciiWhitespace(words[i][k])
    ensures Width(Text.Join(words, ' ')) == |words|
  {
    NoWhitespace(words[0]);
    if |words| > 1 {
      var rest := Text.Join(words[1..], ' ');
      WidthOfSpacedWords(words[1..]);
      WhitespaceAppend(words[0] + [' '], rest);
      WhitespaceAppend(words[0], [' ']);
    }
  }

  lemma {:induction false} NoWhitespace(w: string)
    requires forall k | 0 <= k < |w| :: !Text.IsAsciiWhitespace(w[k])
    ensures WhitespaceCount(w) == 0
  {
    if w != [] {
      NoWhitespace(w[..|w| - 1]);
    }
  }

  lemma {:induction false} WhitespaceAppend(a: string, b: string)
    ensures WhitespaceCount(a + b) == WhitespaceCount(a) + WhitespaceCount(b)
  {
    if b == [] {
      assert a + b == a;
    } else {
      assert (a + b)[..|a + b| - 1] == a + b[..|b| - 1];
      WhitespaceAppend(a, b[..|b| - 1]);
    }
  }

  /**
   * The reports the iterator yields from line `row` on, the first starting
   * at level `start`: it stops after the last width, or at the first width
   * that runs past the levels.
   */
  function RowsFrom(numbers: seq<Byte>, widths: seq<nat>, row: nat, start: nat): (rows: seq<seq<Byte>>)
    ensures |rows| <= |widths| - row || (row > |widths| && rows == [])
    ensures forall i | 0 <= i < |rows| :: row + i < |widths| && |rows[i]| == widths[row + i]
    decreases |widths| - row
  {
    if row >= |widths| || start + widths[row] > |numbers| then []
    else [numbers[start..start + widths[row]]] + RowsFrom(numbers, widths, row + 1, start + widths[row])
  }

  /** Every report the iterator yields from the input. */
  function AllRows(input: Input): seq<seq<Byte>>
  {
    RowsFrom(input.numbers, input.widths, 0, 0)
  }

  /**
   * When the widths add up to the number of levels, the reports cut the
   * levels into consecutive pieces of the recorded widths: one report per
   * line, and together they are all the levels in order.
   */
  lemma {:induction false} RowsPartition(numbers: seq<Byte>, widths: seq<nat>, row: nat, start: nat)
    requires row <= |widths| && start + Sum(widths[row..]) == |numbers|
    ensures var rows := RowsFrom(numbers, widths, row, start);
      |rows| == |widths| - row &&
      (forall i | 0 <= i < |rows| :: |rows[i]| == widths[row + i]) &&
      Flatten(rows) == numbers[start..]
    decreases |widths| - row
  {
    var rows := RowsFrom(numbers, widths, row, start);
    if row == |widths| {
      assert numbers[start..] == [];
    } else {
      var w := widths[row];
      SumFront(widths[row..]);
      assert widths[row..][1..] == widths[row + 1..];
      RowsPartition(numbers, widths, row + 1, start + w);
      assert numbers[start..] == numbers[start..start + w] + numbers[start + w..];
      assert rows[1..] == RowsFrom(numbers, widths, row + 1, start + w);
    }
  }

  /** The width of each report, as `from_str` records it for each line. */
  function Lengths(rows: seq<seq<Byte>>): (ws: seq<nat>)
    ensures |ws| == |rows| && forall i | 0 <= i < |rows| :: ws[i] == |rows[i]|
  {
    seq(|rows|, i requires 0 <= i < |rows| => |rows[i]|)
  }

  /** Cutting the concatenated reports by their own widths gives the reports back. */
  lemma RowsOfFlatten(rows: seq<seq<Byte>>)
    ensures AllRows(Input(Flatten(rows), Lengths(rows))) == rows
  {
    var numbers := Flatten(rows);
    var widths := Lengths(rows);
    assert numbers[0..] == numbers && widths[0..] == widths;
    RowsOfFlattenFrom(rows, numbers, widths, 0, 0);
  }

  lemma {:induction false} RowsOfFlattenFrom(rows: seq<seq<Byte>>, numbers: seq<Byte>, widths: seq<nat>, row: nat, start: nat)
    requires row <= |widths| && start <= |numbers|
    requires numbers[start..] == Flatten(rows) && widths[row..] == Lengths(rows)
    ensures RowsFrom(numbers, widths, row, start) == rows
    decreases |rows|
  {
    if rows == [] {
      assert |widths[row..]| == 0;
    } else {
      var w := |rows[0]|;
      var tail := numbers[start..];
      assert widths[row] == w by {
        assert widths[row..][0] == Lengths(rows)[0];
      }
      assert tail == rows[0] + Flatten(rows[1..]);
      assert numbers[start..start + w] == rows[0] by {
        assert numbers[start..start + w] == tail[..w];
      }
      assert numbers[start + w..] == Flatten(rows[1..]) by {
        assert numbers[start + w..] == tail[w..];
      }
      assert widths[row + 1..] == Lengths(rows[1..]) by {
        assert widths[row + 1..] == widths[row..][1..];
      }
      RowsOfFlattenFrom(rows[1..], numbers, widths, row + 1, start + w);
    }
  }

  lemma SumFront(s: seq<nat>)
    requires s != []
    ensures Sum(s) == s[0] + Sum(s[1..])
  {
    SumCons(s);
  }

  /** `Rows`: the iterator over the reports of an input. */
  class Rows {
    const numbers: seq<Byte>
    const widths: seq<nat>
    var numberIndex: nat
    var row: nat

    /** The reports still to come. */
    function Remaining(): seq<seq<Byte>>
      reads this
    {
      RowsFrom(numbers, widths, row, numberIndex)
    }

    /** `Input::rows`. */
    constructor (input: Input)
      ensures numbers == input.numbers && widths == input.widths
      ensures numberIndex == 0 && row == 0
      ensures Remaining() == AllRows(input)
    {
      numbers := input.numbers;
      widths := input.widths;
      numberIndex := 0;
      row := 0;
    }

    /**
     * `Rows::next`: past the last width nothing changes and the answer is
     * None; otherwise the row and the start move on by one line, and the
     * answer is that line's levels, or None when they run past the end.
     */
    method Next() returns (r: Option<seq<Byte>>)
      modifies this
      ensures old(row) >= |widths| ==> r.None? && row == old(row) && numberIndex == old(numberIndex)
      ensures old(row) < |widths| ==>
        row == old(row) + 1 && numberIndex == old(numberIndex) + widths[old(row)] &&
        r == (if old(numberIndex) + widths[old(row)] <= |numbers|
              then Some(numbers[old(numberIndex)..old(numberIndex) + widths[old(row)]]) else None)
      ensures r.Some? ==> old(Remaining()) == [r.value] + Remaining()
      ensures r.None? ==> old(Remaining()) == []
    {
      if row >= |widths| {
        return None;
      }
      var width := widths[row];
      var start := numberIndex;
      row := row + 1;
      numberIndex := numberIndex + width;
      if start + width <= |numbers| {
        r := Some(numbers[start..start + width]);
      } else {
        r := None;
      }
    }
  }

  /** The level after position `k` is above the one at `k`. */
  predicate Rises(row: seq<Byte>, k: nat)
    requires k + 1 < |row|
  {
    row[k] < row[k + 1]
  }

  /** The level after position `k` is below the one at `k`. */
  predicate Falls(row: seq<Byte>, k: nat)
    requires k + 1 < |row|
  {
    row[k] > row[k + 1]
  }

  /** `row.is_sorted_by(|a, b| a < b)`. */
  predicate Increasing(row: seq<Byte>)
  {
    |row| < 2 || (row[0] < row[1] && Increasing(row[1..]))
  }

  /** `row.is_sorted_by(|a, b| a > b)`. */
  predicate Decreasing(row: seq<Byte>)
  {
    |row| < 2 || (row[0] > row[1] && Decreasing(row[1..]))
  }

  /** Every neighbouring pair differs by 1, 2 or 3. */
  predicate GentleSteps(row: seq<Byte>)
  {
    |row| < 2 || (1 <= Dist(row[0], row[1]) <= 3 && GentleSteps(row[1..]))
  }

  /** `abs_diff`. */
  function Dist(a: int, b: int): nat
  {
    if a < b then b - a else a - b
  }

  /** `row_is_safe`: every step rises by 1 to 3, or every step falls by 1 to 3. */
  function RowIsSafe(row: seq<Byte>): (r: bool)
    ensures r <==> (forall k | 0 <= k < |row| - 1 :: StepsUp(row, k)) || (forall k | 0 <= k < |row| - 1 :: StepsDown(row, k))
  {
    SafeMeans(row);
    (Increasing(row) || Decreasing(row)) && GentleSteps(row)
  }

  /** The level after position `k` is 1 to 3 above the one at `k`. */
  predicate StepsUp(row: seq<Byte>, k: nat)
    requires k + 1 < |row|
  {
    1 <= row[k + 1] as int - row[k] as int <= 3
  }

  /** The level after position `k` is 1 to 3 below the one at `k`. */
  predicate StepsDown(row: seq<Byte>, k: nat)
    requires k + 1 < |row|
  {
    1 <= row[k] as int - row[k + 1] as int <= 3
  }

  /**
   * Safety stated step by step: either every level is 1 to 3 above the one
   * before it, or every level is 1 to 3 below it.
   */
  lemma SafeMeans(row: seq<Byte>)
    ensures (Increasing(row) || Decreasing(row)) && GentleSteps(row) <==>
      (forall k | 0 <= k < |row| - 1 :: StepsUp(row, k)) || (forall k | 0 <= k < |row| - 1 :: StepsDown(row, k))
  {
    IncreasingMeans(row);
    DecreasingMeans(row);
    GentleMeans(row);
    forall k | 0 <= k < |row| - 1
      ensures StepsUp(row, k) <==> Rises(row, k) && 1 <= Dist(row[k], row[k + 1]) <= 3
      ensures StepsDown(row, k) <==> Falls(row, k) && 1 <= Dist(row[k], row[k + 1]) <= 3
    {
    }
  }

  lemma {:induction false} IncreasingMeans(row: seq<Byte>)
    ensures Increasing(row) <==> forall k | 0 <= k < |row| - 1 :: Rises(row, k)
  {
    if |row| >= 2 {
      IncreasingMeans(row[1..]);
      forall k | 0 <= k < |row| - 2
        ensures Rises(row[1..], k) == Rises(row, k + 1)
      {
      }
      forall k | 1 <= k < |row| - 1
        ensures Rises(row, k) == Rises(row[1..], k - 1)
      {
      }
      assert (forall k | 0 <= k < |row| - 1 :: Rises(row, k)) <==>
        Rises(row, 0) && forall k | 1 <= k < |row| - 1 :: Rises(row, k);
    }
  }

  lemma {:induction false} DecreasingMeans(row: seq<Byte>)
    ensures Decreasing(row) <==> forall k | 0 <= k < |row| - 1 :: Falls(row, k)
  {
    if |row| >= 2 {
      DecreasingMeans(row[1..]);
      forall k | 0 <= k < |row| - 2
        ensures Falls(row[1..], k) == Falls(row, k + 1)
      {
      }
      forall k | 1 <= k < |row| - 1
        ensures Falls(row, k) == Falls(row[1..], k - 1)
      {
      }
      assert (forall k | 0 <= k < |row| - 1 :: Falls(row, k)) <==>
        Falls(row, 0) && forall k | 1 <= k < |row| - 1 :: Falls(row, k);
    }
  }

  lemma {:induction false} GentleMeans(row: seq<Byte>)
    ensures GentleSteps(row) <==> forall k | 0 <= k < |row| - 1 :: 1 <= Dist(row[k], row[k + 1]) <= 3
  {
    if |row| >= 2 {
      GentleMeans(row[1..]);
      assert forall k | 0 <= k < |row| - 2 :: row[1..][k] == row[k + 1];
    }
  }

  /** The report with level `skip` left out (all of it when `skip` is past the end). */
  function Remove(row: seq<Byte>, skip: nat): (r: seq<Byte>)
    ensures skip >= |row| ==> r == row
    ensures skip < |row| ==> |r| == |row| - 1 && forall k | 0 <= k < |r| :: r[k] == if k < skip then row[k] else row[k + 1]
  {
    if skip < |row| then row[..skip] + row[skip + 1..] else row
  }

  /**
   * `row_is_safe_skipping`: walks the neighbouring pairs of the report
   * without level `skip`, failing at the first step outside 1..=3 and
   * counting the rising and the falling steps; safe when one count is zero.
   */
  method RowIsSafeSkipping(row: seq<Byte>, skip: nat) returns (safe: bool)
    ensures safe == RowIsSafe(Remove(row, skip))
  {
    safe := WalkPairs(Remove(row, skip));
  }

  /** The loop of `row_is_safe_skipping` over the levels it keeps. */
  method WalkPairs(kept: seq<Byte>) returns (safe: bool)
    ensures safe == RowIsSafe(kept)
  {
    var pairs := if |kept| < 2 then 0 else |kept| - 1;
    var ascending := 0;
    var descending := 0;
    var k := 0;
    while k < pairs
      invariant k <= pairs
      invariant PairsSoFar(kept, k, ascending, descending)
    {
      var a := kept[k];
      var b := kept[k + 1];
      if !(1 <= Dist(a, b) <= 3) {
        Jump(kept, k);
        return false;
      }
      PairStep(kept, k, ascending, descending);
      if a > b {
        descending := descending + 1;
      } else {
        ascending := ascending + 1;
      }
      k := k + 1;
    }
    CountersDone(kept, ascending, descending);
    safe := ascending == 0 || descending == 0;
  }

  /** The step after position `k` rises (`up`) or falls (not `up`). */
  predicate Step(row: seq<Byte>, k: nat, up: bool)
    requires k + 1 < |row|
  {
    if up then Rises(row, k) else Falls(row, k)
  }

  /**
   * A counter of the loop of `row_is_safe_skipping` after `k` pairs: it is
   * still zero exactly when every step so far went the other way. The
   * rising counter is zero when all steps fell, and the falling one when
   * all rose.
   */
  ghost predicate AllSoFar(kept: seq<Byte>, k: nat, count: nat, up: bool)
    requires k < |kept| || k == 0
  {
    count == 0 <==> forall j | 0 <= j < k :: Step(kept, j, up)
  }

  /** Counting one more pair: a step the right way keeps the counter, any other adds one. */
  lemma Extend(kept: seq<Byte>, k: nat, count: nat, up: bool)
    requires k + 1 < |kept| && AllSoFar(kept, k, count, up)
    ensures Step(kept, k, up) ==> AllSoFar(kept, k + 1, count, up)
    ensures !Step(kept, k, up) ==> AllSoFar(kept, k + 1, count + 1, up)
  {
    if Step(kept, k, up) {
      assert (forall j | 0 <= j < k + 1 :: Step(kept, j, up)) <==> (forall j | 0 <= j < k :: Step(kept, j, up));
    }
  }

  /**
   * The loop of `row_is_safe_skipping` after `k` pairs: every step so far
   * is gentle, and each counter is as `AllSoFar` describes.
   */
  ghost predicate PairsSoFar(kept: seq<Byte>, k: nat, ascending: nat, descending: nat)
  {
    (k < |kept| || k == 0) && GentleSoFar(kept, k) &&
    AllSoFar(kept, k, ascending, false) && AllSoFar(kept, k, descending, true)
  }

  /** Every one of the first `k` steps of `kept` changes the level by 1 to 3. */
  ghost predicate GentleSoFar(kept: seq<Byte>, k: nat)
    requires k < |kept| || k == 0
  {
    forall j | 0 <= j < k :: 1 <= Dist(kept[j], kept[j + 1]) <= 3
  }

  lemma GentleStep(kept: seq<Byte>, k: nat)
    requires k + 1 < |kept| && GentleSoFar(kept, k) && 1 <= Dist(kept[k], kept[k + 1]) <= 3
    ensures GentleSoFar(kept, k + 1)
  {
  }

  lemma PairStep(kept: seq<Byte>, k: nat, ascending: nat, descending: nat)
    requires PairsSoFar(kept, k, ascending, descending)
    requires k + 1 < |kept| && 1 <= Dist(kept[k], kept[k + 1]) <= 3
    ensures kept[k] > kept[k + 1] ==> PairsSoFar(kept, k + 1, ascending, descending + 1)
    ensures kept[k] <= kept[k + 1] ==> PairsSoFar(kept, k + 1, ascending + 1, descending)
  {
    GentleStep(kept, k);
    Extend(kept, k, ascending, false);
    Extend(kept, k, descending, true);
    if kept[k] > kept[k + 1] {
      assert Step(kept, k, false) && !Step(kept, k, true);
    } else {
      assert !Step(kept, k, false) && Step(kept, k, true);
    }
  }

  /** After the last pair: safe exactly when every step was gentle and one counter stayed zero. */
  lemma CountersDone(kept: seq<Byte>, ascending: nat, descending: nat)
    requires PairsSoFar(kept, if |kept| < 2 then 0 else |kept| - 1, ascending, descending)
    ensures (ascending == 0 || descending == 0) == RowIsSafe(kept)
  {
    SafeByPairs(kept);
    forall j | 0 <= j < |kept| - 1
      ensures Step(kept, j, false) == Falls(kept, j) && Step(kept, j, true) == Rises(kept, j)
    {
    }
  }

  /** Safety in terms of the neighbouring pairs: all steps gentle, and all falling or all rising. */
  lemma SafeByPairs(row: seq<Byte>)
    ensures RowIsSafe(row) <==>
      (forall k | 0 <= k < |row| - 1 :: 1 <= Dist(row[k], row[k + 1]) <= 3) &&
      ((forall k | 0 <= k < |row| - 1 :: Falls(row, k)) || (forall k | 0 <= k < |row| - 1 :: Rises(row, k)))
  {
    IncreasingMeans(row);
    DecreasingMeans(row);
    GentleMeans(row);
  }

  /** A step of more, or less, than 1 to 3 anywhere makes a report unsafe. */
  lemma Jump(row: seq<Byte>, k: nat)
    requires k + 1 < |row| && !(1 <= Dist(row[k], row[k + 1]) <= 3)
    ensures !RowIsSafe(row)
  {
    GentleMeans(row);
  }

  /** A report part 2 accepts: safe, or safe with one level removed. */
  predicate Tolerable(row: seq<Byte>)
  {
    RowIsSafe(row) || exists i | 0 <= i < |row| :: RowIsSafe(Remove(row, i))
  }

  /** Part 1's test of a report (safe), or part 2's when `tolerant` (tolerable). */
  predicate Counted(row: seq<Byte>, tolerant: bool)
  {
    if tolerant then Tolerable(row) else RowIsSafe(row)
  }

  /** The number of reports satisfying part 1's or part 2's test. */
  function CountWhere(rows: seq<seq<Byte>>, tolerant: bool): (n: nat)
    ensures n <= |rows|
  {
    if rows == [] then 0
    else CountWhere(rows[..|rows| - 1], tolerant) + (if Counted(rows[|rows| - 1], tolerant) then 1 else 0)
  }

  /** Part 1 never counts more than part 2: a safe report is tolerable. */
  lemma {:induction false} SafeCountedByBoth(rows: seq<seq<Byte>>)
    ensures CountWhere(rows, false) <= CountWhere(rows, true)
  {
    if rows != [] {
      SafeCountedByBoth(rows[..|rows| - 1]);
    }
  }

  /** `part1`: the number of safe reports the iterator yields. */
  method Part1(input: Input) returns (count: nat)
    ensures count == CountWhere(AllRows(input), false)
  {
    var rows := new Rows(input);
    ghost var seen: seq<seq<Byte>> := [];
    count := 0;
    while true
      invariant rows.numbers == input.numbers && rows.widths == input.widths
      invariant AllRows(input) == seen + rows.Remaining()
      invariant count == CountWhere(seen, false)
      decreases |input.widths| - rows.row
    {
      var next := rows.Next();
      if next.None? {
        assert seen == AllRows(input);
        return;
      }
      MoveToSeen(AllRows(input), seen, next.value, rows.Remaining());
      CountSnoc(seen, next.value, false);
      if RowIsSafe(next.value) {
        count := count + 1;
      }
      seen := seen + [next.value];
    }
  }

  /**
   * `part2`: the number of reports that are safe, or safe once some level
   * is skipped, trying the levels in order.
   */
  method Part2(input: Input) returns (count: nat)
    ensures count == CountWhere(AllRows(input), true)
  {
    var rows := new Rows(input);
    ghost var seen: seq<seq<Byte>> := [];
    count := 0;
    while true
      invariant rows.numbers == input.numbers && rows.widths == input.widths
      invariant AllRows(input) == seen + rows.Remaining()
      invariant count == CountWhere(seen, true)
      decreases |input.widths| - rows.row
    {
      var next := rows.Next();
      if next.None? {
        assert seen == AllRows(input);
        return;
      }
      var row := next.value;
      MoveToSeen(AllRows(input), seen, row, rows.Remaining());
      CountSnoc(seen, row, true);
      var accepted := IsTolerable(row);
      if accepted {
        count := count + 1;
      }
      seen := seen + [row];
    }
  }

  /** The report just taken from the front of the remaining ones joins the end of those seen. */
  lemma MoveToSeen(all: seq<seq<Byte>>, seen: seq<seq<Byte>>, row: seq<Byte>, rest: seq<seq<Byte>>)
    requires all == seen + ([row] + rest)
    ensures all == (seen + [row]) + rest
  {
  }

  /** Part 2's test of one report: safe as it is, else safe skipping the first level that works. */
  method IsTolerable(row: seq<Byte>) returns (accepted: bool)
    ensures accepted == Tolerable(row)
  {
    if RowIsSafe(row) {
      return true;
    }
    for i := 0 to |row|
      invariant forall j | 0 <= j < i :: !RowIsSafe(Remove(row, j))
    {
      var skipping := RowIsSafeSkipping(row, i);
      if skipping {
        return true;
      }
    }
    return false;
  }

  /** The example of the puzzle, one report per line. */
  function ExampleRows(): seq<seq<Byte>>
  {
    [[7, 6, 4, 2, 1], [1, 2, 7, 8, 9], [9, 7, 6, 2, 1], [1, 3, 2, 4, 5], [8, 6, 4, 4, 1], [1, 3, 6, 7, 9]]
  }

  /** The example's levels with width 5 on every line are cut back into its reports. */
  lemma ExampleRowsRecovered()
    ensures AllRows(Input(Flatten(ExampleRows()), [5, 5, 5, 5, 5, 5])) == ExampleRows()
  {
    assert Lengths(ExampleRows()) == [5, 5, 5, 5, 5, 5];
    RowsOfFlatten(ExampleRows());
  }

  /** The uneven example `1 2 3 / 1 2 / 1 2 3 4` yields its three reports, then nothing. */
  lemma UnevenRowsRecovered()
    ensures AllRows(Input([1, 2, 3, 1, 2, 1, 2, 3, 4], [3, 2, 4])) == [[1, 2, 3], [1, 2], [1, 2, 3, 4]]
  {
    var rows: seq<seq<Byte>> := [[1, 2, 3], [1, 2], [1, 2, 3, 4]];
    assert Flatten(rows[2..]) == [1, 2, 3, 4] by {
      assert rows[2..][1..] == [];
    }
    assert Flatten(rows[1..]) == [1, 2, 1, 2, 3, 4] by {
      assert rows[1..][1..] == rows[2..];
    }
    assert Flatten(rows) == [1, 2, 3, 1, 2, 1, 2, 3, 4];
    assert Lengths(rows) == [3, 2, 4];
    RowsOfFlatten(rows);
  }

  /** The example has two safe reports, and four once one bad level may be dropped. */
  lemma ExampleCounts(rows: seq<seq<Byte>>)
    requires rows == ExampleRows()
    ensures CountWhere(rows, false) == 2
    ensures CountWhere(rows, true) == 4
  {
    ExampleVerdicts(rows);
    CountsOfVerdicts(rows);
  }

  /** The counts of six reports safe, unsafe, unsafe, unsafe, unsafe, safe, of which the fourth and fifth are tolerable. */
  lemma CountsOfVerdicts(rows: seq<seq<Byte>>)
    requires |rows| == 6
    requires RowIsSafe(rows[0]) && !RowIsSafe(rows[1]) && !RowIsSafe(rows[2]) &&
      !RowIsSafe(rows[3]) && !RowIsSafe(rows[4]) && RowIsSafe(rows[5]) &&
      !Tolerable(rows[1]) && !Tolerable(rows[2]) && Tolerable(rows[3]) && Tolerable(rows[4])
    ensures CountWhere(rows, false) == 2
    ensures CountWhere(rows, true) == 4
  {
    assert CountWhere(rows[..1], false) == 1 && CountWhere(rows[..1], true) == 1 by {
      CountStep(rows, 0);
      assert rows[..0] == [];
    }
    assert CountWhere(rows[..2], false) == 1 && CountWhere(rows[..2], true) == 1 by {
      CountStep(rows, 1);
    }
    assert CountWhere(rows[..3], false) == 1 && CountWhere(rows[..3], true) == 1 by {
      CountStep(rows, 2);
    }
    assert CountWhere(rows[..4], false) == 1 && CountWhere(rows[..4], true) == 2 by {
      CountStep(rows, 3);
    }
    assert CountWhere(rows[..5], false) == 1 && CountWhere(rows[..5], true) == 3 by {
      CountStep(rows, 4);
    }
    assert CountWhere(rows[..6], false) == 2 && CountWhere(rows[..6], true) == 4 by {
      CountStep(rows, 5);
    }
    assert rows[..6] == rows;
  }

  /** Which example reports are safe, and which are tolerable. */
  lemma ExampleVerdicts(rows: seq<seq<Byte>>)
    requires rows == ExampleRows()
    ensures RowIsSafe(rows[0]) && !RowIsSafe(rows[1]) && !RowIsSafe(rows[2]) &&
      !RowIsSafe(rows[3]) && !RowIsSafe(rows[4]) && RowIsSafe(rows[5]) &&
      !Tolerable(rows[1]) && !Tolerable(rows[2]) && Tolerable(rows[3]) && Tolerable(rows[4])
  {
    SafeExample(rows[0]);
    SafeExample(rows[5]);
    Intolerable(rows[1]);
    Intolerable(rows[2]);
    OneBadLevel(rows[3], 1, [1, 2, 4, 5]);
    OneBadLevel(rows[4], 2, [8, 6, 4, 1]);
  }

  /** The two safe example reports, one falling and one rising by 1 to 3 at every step. */
  lemma SafeExample(row: seq<Byte>)
    requires row == [7, 6, 4, 2, 1] || row == [1, 3, 6, 7, 9] || row == [1, 2, 4, 5] || row == [8, 6, 4, 1]
    ensures RowIsSafe(row)
  {
    if row[0] < row[1] {
      forall k | 0 <= k < |row| - 1
        ensures StepsUp(row, k)
      {
      }
    } else {
      forall k | 0 <= k < |row| - 1
        ensures StepsDown(row, k)
      {
      }
    }
  }

  /** The two example reports that only one level keeps from being safe. */
  lemma OneBadLevel(row: seq<Byte>, skip: nat, kept: seq<Byte>)
    requires (row == [1, 3, 2, 4, 5] && skip == 1 && kept == [1, 2, 4, 5]) ||
             (row == [8, 6, 4, 4, 1] && skip == 2 && kept == [8, 6, 4, 1])
    ensures !RowIsSafe(row) && Tolerable(row)
  {
    if row[1] == 3 {
      IncreasingMeans(row);
      DecreasingMeans(row);
      assert row[1] > row[2] && row[0] < row[1];
    } else {
      Jump(row, 2);
    }
    assert Remove(row, skip) == kept;
    SafeExample(kept);
  }

  /** Appending one report adds one to a count exactly when that report passes its test. */
  lemma CountSnoc(rows: seq<seq<Byte>>, row: seq<Byte>, tolerant: bool)
    ensures CountWhere(rows + [row], tolerant) == CountWhere(rows, tolerant) + (if Counted(row, tolerant) then 1 else 0)
  {
    assert (rows + [row])[..|rows|] == rows;
  }

  lemma CountStep(rows: seq<seq<Byte>>, k: nat)
    requires k < |rows|
    ensures CountWhere(rows[..k + 1], false) == CountWhere(rows[..k], false) + (if RowIsSafe(rows[k]) then 1 else 0)
    ensures CountWhere(rows[..k + 1], true) == CountWhere(rows[..k], true) + (if Tolerable(rows[k]) then 1 else 0)
  {
    assert rows[..k + 1][..k] == rows[..k];
  }

  /** The two example reports with a jump of more than 3 stay unsafe whichever level is dropped. */
  lemma Intolerable(row: seq<Byte>)
    requires row == [1, 2, 7, 8, 9] || row == [9, 7, 6, 2, 1]
    ensures !Tolerable(row)
  {
    Jump(row, if row[0] == 1 then 1 else 2);
    forall i | 0 <= i < |row|
      ensures !RowIsSafe(Remove(row, i))
    {
      var r := Remove(row, i);
      if row[0] == 1 {
        Jump(r, if i <= 1 then 0 else 1);
      } else {
        Jump(r, if i <= 1 then 1 else if i == 2 then 1 else 2);
      }
    }
  }
}
