/**
 * The historian lists of 2024 day 1. Each input line holds a number of
 * the left list and a number of the right list, separated by three
 * spaces. Part 1 pairs the smallest left number with the smallest right
 * number, the second smallest with the second smallest and so on, and adds
 * up the distances. Part 2 adds up every left number times the number of
 * times it appears in the right list.
 */
module HistorianLists {
  import opened Common
  import Text

  /** `Input`: the two lists, in the order of the lines. */
  datatype Input = Input(left: seq<nat>, right: seq<nat>)

  /** One line: the halves around the first three spaces, each a `u32`. */
  function ParseLine(line: string): (r: Option<(nat, nat)>)
    ensures r.Some? <==> (Text.SplitOnce(line, "   ").Some? &&
                          Text.Parse(Text.U32, Text.SplitOnce(line, "   ").value.0).Some? &&
                          Text.Parse(Text.U32, Text.SplitOnce(line, "   ").value.1).Some?)
    ensures r.Some? ==> r.value.0 < 0x1_0000_0000 && r.value.1 < 0x1_0000_0000
  {
    match Text.SplitOnce(line, "   ")
    case None => None
    case Some((l, r)) =>
      match (Text.Parse(Text.U32, l), Text.Parse(Text.U32, r))
      case (Some(a), Some(b)) => Some((a as nat, b as nat))
      case _ => None
  }

  /** The lists from the pairs of the lines, in order; a line without a pair fails the whole input. */
  function Collect(pairs: seq<Option<(nat, nat)>>): (r: Option<Input>)
    ensures r.Some? <==> forall i | 0 <= i < |pairs| :: pairs[i].Some?
    ensures r.Some? ==> |r.value.left| == |r.value.right| == |pairs|
    ensures r.Some? ==> forall i | 0 <= i < |pairs| :: pairs[i] == Some((r.value.left[i], r.value.right[i]))
  {
    if pairs == [] then Some(Input([], []))
    else
      var init := pairs[..|pairs| - 1];
      assert forall i | 0 <= i < |init| :: init[i] == pairs[i];
      var front, last := Collect(init), pairs[|pairs| - 1];
      if front.None? || last.None? then None
      else
        var left, right := front.value.left + [last.value.0], front.value.right + [last.value.1];
        assert forall i | 0 <= i < |init| :: left[i] == front.value.left[i] && right[i] == front.value.right[i];
        Some(Input(left, right))
  }

  /** The pair of every line, in order. */
  function LinePairs(lines: seq<string>): (pairs: seq<Option<(nat, nat)>>)
    ensures |pairs| == |lines| && forall i | 0 <= i < |lines| :: pairs[i] == ParseLine(lines[i])
  {
    if lines == [] then []
    else
      var init := lines[..|lines| - 1];
      assert forall i | 0 <= i < |init| :: init[i] == lines[i];
      LinePairs(init) + [ParseLine(lines[|lines| - 1])]
  }

  /** The lists read from `lines`; the first line that fails fails the whole input. */
  function ParseLines(lines: seq<string>): (r: Option<Input>)
    ensures r.Some? <==> forall i | 0 <= i < |lines| :: ParseLine(lines[i]).Some?
    ensures r.Some? ==> |r.value.left| == |r.value.right| == |lines|
    ensures r.Some? ==> forall i | 0 <= i < |lines| ::
      ParseLine(lines[i]) == Some((r.value.left[i], r.value.right[i]))
  {
    Collect(LinePairs(lines))
  }

  /** `Input::from_str`: pushes the two halves of every line onto the lists. */
  method FromStr(s: string) returns (r: Option<Input>)
    ensures r == ParseLines(Text.Lines(s))
  {
    var lines := Text.Lines(s);
    var left: seq<nat> := [];
    var right: seq<nat> := [];
    for i := 0 to |lines|
      invariant ParseLines(lines[..i]) == Some(Input(left, right))
    {
      var pair := ParseLine(lines[i]);
      if pair.None? {
        NoLaterRecovery(lines, i);
        return None;
      }
      ParseLinesSnoc(lines, i);
      left := left + [pair.value.0];
      right := right + [pair.value.1];
    }
    assert lines[..|lines|] == lines;
    r := Some(Input(left, right));
  }

  /**
   * A carriage return that ends the input, with no line feed after it,
   * stays on the last line, so its right-hand number does not parse:
   * `3   4\r` fails.
   */
  lemma FinalCarriageReturnFails()
    ensures ParseLines(Text.Lines("3   4\r")).None?
  {
    Text.LinesLast("3   4\r");
    var line := "3   4\r";
    assert Text.Find(line, "   ") == Some(1) by {
      assert line[0..3] != "   " && line[1..4] == "   ";
    }
    assert Text.SplitOnce(line, "   ") == Some(("3", "4\r")) by {
      assert line[..1] == "3" && line[4..] == "4\r";
    }
    assert Text.ParseDigits("4\r", 10).None? by {
      assert Text.ToDigit('\r', 10).None?;
    }
    assert ParseLine(line).None?;
  }

  /** One more line that parses adds its two numbers to the ends of the lists. */
  lemma ParseLinesSnoc(lines: seq<string>, i: nat)
    requires i < |lines|
    ensures ParseLines(lines[..i + 1]) ==
      match (ParseLines(lines[..i]), ParseLine(lines[i]))
      case (Some(input), Some((l, r))) => Some(Input(input.left + [l], input.right + [r]))
      case _ => None
  {
    assert lines[..i + 1][..i] == lines[..i];
  }

  /** A line that fails to parse fails every input that holds it. */
  lemma NoLaterRecovery(lines: seq<string>, i: nat)
    requires i < |lines| && ParseLine(lines[i]).None?
    ensures ParseLines(lines).None?
  {
  }

  /** `abs_diff`. */
  function Distance(a: nat, b: nat): (d: nat)
    ensures d == 0 <==> a == b
    ensures a + d == b || b + d == a
  {
    if a < b then b - a else a - b
  }

  /**
   * `zip(...).map(abs_diff).sum()`: `zip` stops at the shorter list. Lists
   * of equal length are at distance 0 exactly when they are equal.
   */
  function DistanceSum(a: seq<nat>, b: seq<nat>): (d: nat)
    ensures |a| == |b| ==> (d == 0 <==> a == b)
  {
    if a == [] || b == [] then 0
    else
      assert a == [a[0]] + a[1..] && b == [b[0]] + b[1..];
      Distance(a[0], b[0]) + DistanceSum(a[1..], b[1..])
  }

  predicate SortedSeq(s: seq<nat>)
  {
    forall i, j | 0 <= i < j < |s| :: s[i] <= s[j]
  }

  /** A list whose neighbours are in order is sorted. */
  lemma {:induction false} NeighboursSorted(s: seq<nat>)
    requires forall i | 0 <= i < |s| - 1 :: s[i] <= s[i + 1]
    ensures SortedSeq(s)
  {
    if |s| > 1 {
      var init := s[..|s| - 1];
      NeighboursSorted(init);
      forall i, j | 0 <= i < j < |s|
        ensures s[i] <= s[j]
      {
        if j == |s| - 1 && i < j - 1 {
          assert init[i] <= init[j - 1];
        }
      }
    }
  }

  /** A number no larger than the head of a sorted list keeps it sorted when put in front. */
  lemma ConsSorted(x: nat, s: seq<nat>)
    requires SortedSeq(s) && (s == [] || x <= s[0])
    ensures SortedSeq([x] + s)
  {
    forall i, j | 0 <= i < j < |[x] + s|
      ensures ([x] + s)[i] <= ([x] + s)[j]
    {
      if i == 0 && j > 1 {
        assert s[0] <= s[j - 1];
      }
    }
  }

  /** The tail of a sorted list is sorted. */
  lemma SortedTail(s: seq<nat>)
    requires SortedSeq(s) && s != []
    ensures SortedSeq(s[1..])
  {
    forall i, j | 0 <= i < j < |s| - 1
      ensures s[1..][i] <= s[1..][j]
    {
      assert s[1..][i] == s[i + 1] && s[1..][j] == s[j + 1];
    }
  }

  /** The head of a sorted list, in front of the tail with `x` inserted, is that list with `x` inserted. */
  lemma InsertBehind(x: nat, s: seq<nat>, rest: seq<nat>)
    requires SortedSeq(s) && s != [] && s[0] < x
    requires SortedSeq(rest) && multiset(rest) == multiset(s[1..]) + multiset{x}
    requires rest != [] && (rest[0] == x || (|s| > 1 && rest[0] == s[1]))
    ensures SortedSeq([s[0]] + rest) && multiset([s[0]] + rest) == multiset(s) + multiset{x}
  {
    assert s == [s[0]] + s[1..];
    if |s| > 1 {
      assert s[0] <= s[1];
    }
    ConsSorted(s[0], rest);
  }

  /** `x` put into the sorted `s` before the first larger element. */
  function Insert(x: nat, s: seq<nat>): (r: seq<nat>)
    requires SortedSeq(s)
    ensures |r| == |s| + 1 && SortedSeq(r) && multiset(r) == multiset(s) + multiset{x}
    ensures r[0] == x || (s != [] && r[0] == s[0])
  {
    if s == [] || x <= s[0] then
      ConsSorted(x, s);
      [x] + s
    else
      SortedTail(s);
      var rest := Insert(x, s[1..]);
      InsertBehind(x, s, rest);
      [s[0]] + rest
  }

  /** `slice::sort`: the list in ascending order. */
  function Sort(s: seq<nat>): (r: seq<nat>)
    ensures SortedSeq(r) && multiset(r) == multiset(s)
  {
    if s == [] then []
    else
      assert s == [s[0]] + s[1..];
      Insert(s[0], Sort(s[1..]))
  }

  /** Two sorted lists with the same elements start with the same, smallest, element. */
  lemma SortedHeads(a: seq<nat>, b: seq<nat>)
    requires SortedSeq(a) && SortedSeq(b) && multiset(a) == multiset(b) && a != [] && b != []
    ensures a[0] == b[0]
  {
    assert a[0] in multiset(b) && b[0] in multiset(a);
    var i :| 0 <= i < |b| && b[i] == a[0];
    var j :| 0 <= j < |a| && a[j] == b[0];
    assert b[0] <= b[i] && a[0] <= a[j];
  }

  /** Lists with the same elements and the same head have tails with the same elements. */
  lemma SameTails(a: seq<nat>, b: seq<nat>)
    requires multiset(a) == multiset(b) && a != [] && b != [] && a[0] == b[0]
    ensures multiset(a[1..]) == multiset(b[1..])
  {
    var ta, tb := a[1..], b[1..];
    assert multiset(a) == multiset([a[0]]) + multiset(ta) by { assert a == [a[0]] + ta; }
    assert multiset(b) == multiset([b[0]]) + multiset(tb) by { assert b == [b[0]] + tb; }
    forall e
      ensures multiset(ta)[e] == multiset(tb)[e]
    {
      assert multiset(a)[e] == multiset(b)[e];
    }
  }

  /** A sorted list is fixed by its elements: two sorted lists with the same elements are equal. */
  lemma {:induction false} SortedUnique(a: seq<nat>, b: seq<nat>)
    requires SortedSeq(a) && SortedSeq(b) && multiset(a) == multiset(b)
    ensures a == b
  {
    assert |a| == |multiset(a)| == |b|;
    if a != [] {
      SortedHeads(a, b);
      SameTails(a, b);
      SortedUnique(a[1..], b[1..]);
      assert a == [a[0]] + a[1..] && b == [b[0]] + b[1..];
    }
  }

  /**
   * `part1`: both lists sorted, then the distances of the pairs summed.
   * With lists of equal length, it is 0 exactly when the lists hold the
   * same numbers.
   */
  function Part1(input: Input): (r: nat)
    ensures |input.left| == |input.right| ==> (r == 0 <==> multiset(input.left) == multiset(input.right))
  {
    var a, b := Sort(input.left), Sort(input.right);
    assert |a| == |multiset(a)| && |b| == |multiset(b)|;
    if |a| != |b| then DistanceSum(a, b)
    else
      if multiset(input.left) == multiset(input.right) then
        SortedUnique(a, b);
        DistanceSum(a, b)
      else
        DistanceSum(a, b)
  }

  /** Part 1 depends on the elements of the lists and not on their order. */
  lemma Part1IgnoresOrder(input: Input, left: seq<nat>, right: seq<nat>)
    requires multiset(left) == multiset(input.left) && multiset(right) == multiset(input.right)
    ensures Part1(Input(left, right)) == Part1(input)
  {
    SortedUnique(Sort(left), Sort(input.left));
    SortedUnique(Sort(right), Sort(input.right));
  }

  /** The similarity score: every left number times its count in the right list. */
  function Similarity(left: seq<nat>, right: seq<nat>): (r: nat)
    ensures forall k | 0 <= k < |left| :: left[k] * Count(right, left[k]) <= r
  {
    if left == [] then 0
    else Similarity(left[..|left| - 1], right) + left[|left| - 1] * Count(right, left[|left| - 1])
  }

  /** `part2`: counts the right list into a map, then sums each left number times its count. */
  method Part2(input: Input) returns (total: nat)
    ensures total == Similarity(input.left, input.right)
  {
    var counts: map<nat, nat> := map[];
    for i := 0 to |input.right|
      invariant forall x :: Count(input.right[..i], x) == (if x in counts then counts[x] else 0)
    {
      assert input.right[..i + 1][..i] == input.right[..i];
      var num := input.right[i];
      counts := counts[num := (if num in counts then counts[num] else 0) + 1];
    }
    assert input.right[..|input.right|] == input.right;
    total := 0;
    for i := 0 to |input.left|
      invariant total == Similarity(input.left[..i], input.right)
    {
      assert input.left[..i + 1][..i] == input.left[..i];
      var num := input.left[i];
      var count := if num in counts then counts[num] else 0;
      assert count == Count(input.right, num);
      assert Similarity(input.left[..i + 1], input.right) == total + num * count;
      total := total + num * count;
    }
    assert input.left[..|input.left|] == input.left;
  }

  lemma {:induction false} SimilarityEmpty(left: seq<nat>)
    ensures Similarity(left, []) == 0
  {
    if left != [] {
      SimilarityEmpty(left[..|left| - 1]);
    }
  }

  /** A number added to the right list adds itself once for every time it appears on the left. */
  lemma {:induction false} SimilaritySnoc(left: seq<nat>, right: seq<nat>, y: nat)
    ensures Similarity(left, right + [y]) == Similarity(left, right) + y * Count(left, y)
  {
    if left != [] {
      var init, x := left[..|left| - 1], left[|left| - 1];
      SimilaritySnoc(init, right, y);
      assert (right + [y])[..|right + [y]| - 1] == right;
      var c, d, e := Count(right, x), Count(init, y), if x == y then 1 else 0;
      assert Count(right + [y], x) == c + e;
      assert Count(left, y) == d + e;
      SnocArithmetic(Similarity(init, right), x, c, y, d, e);
    }
  }

  /** The arithmetic of one step of `SimilaritySnoc`: the extra match is counted on whichever side it falls. */
  lemma SnocArithmetic(s: nat, x: nat, c: nat, y: nat, d: nat, e: nat)
    requires e == 0 || (e == 1 && x == y)
    ensures s + y * d + x * (c + e) == s + x * c + y * (d + e)
  {
    if e == 1 {
      assert x * (c + 1) == x * c + x;
      assert y * (d + 1) == y * d + y;
    }
  }

  /** The score is symmetric: each pair of equal numbers, one on each side, adds that number once. */
  lemma {:induction false} SimilaritySymmetric(left: seq<nat>, right: seq<nat>)
    ensures Similarity(left, right) == Similarity(right, left)
  {
    if right == [] {
      SimilarityEmpty(left);
    } else {
      var init, y := right[..|right| - 1], right[|right| - 1];
      SimilaritySymmetric(left, init);
      assert right == init + [y];
      SimilaritySnoc(left, init, y);
    }
  }

  /** Part 1 over lists known in sorted order: the sorted lists can be named directly. */
  lemma Part1FromSorted(input: Input, left: seq<nat>, right: seq<nat>)
    requires SortedSeq(left) && multiset(left) == multiset(input.left)
    requires SortedSeq(right) && multiset(right) == multiset(input.right)
    ensures Part1(input) == DistanceSum(left, right)
  {
    SortedUnique(Sort(input.left), left);
    SortedUnique(Sort(input.right), right);
  }

  /** The sorted example lists are at distance 11. */
  lemma ExampleDistance(left: seq<nat>, right: seq<nat>)
    requires left == [1, 2, 3, 3, 3, 4] && right == [3, 3, 3, 4, 5, 9]
    ensures DistanceSum(left, right) == 11
  {
    var sums := [11, 9, 8, 8, 7, 5, 0];
    for k := 6 downto 0
      invariant DistanceSum(left[k..], right[k..]) == sums[k]
    {
      assert left[k..][1..] == left[k + 1..] && right[k..][1..] == right[k + 1..];
    }
  }

  /** Exchanging two elements keeps the list's elements. */
  lemma SwapKeepsElements(s: seq<nat>, i: nat, j: nat)
    requires i < |s| && j < |s|
    ensures multiset(s[i := s[j]][j := s[i]]) == multiset(s)
  {
  }

  /** Three exchanges sort the example's left list. */
  lemma LeftElements(s: seq<nat>, sorted: seq<nat>)
    requires s == [3, 4, 2, 1, 3, 3] && sorted == [1, 2, 3, 3, 3, 4]
    ensures multiset(sorted) == multiset(s)
  {
    var s1: seq<nat> := [1, 4, 2, 3, 3, 3];
    var s2: seq<nat> := [1, 2, 4, 3, 3, 3];
    assert s1 == s[0 := s[3]][3 := s[0]];
    assert s2 == s1[1 := s1[2]][2 := s1[1]];
    assert sorted == s2[2 := s2[5]][5 := s2[2]];
    SwapKeepsElements(s, 0, 3);
    SwapKeepsElements(s1, 1, 2);
    SwapKeepsElements(s2, 2, 5);
  }

  /** Four exchanges sort the example's right list. */
  lemma RightElements(s: seq<nat>, sorted: seq<nat>)
    requires s == [4, 3, 5, 3, 9, 3] && sorted == [3, 3, 3, 4, 5, 9]
    ensures multiset(sorted) == multiset(s)
  {
    var s1: seq<nat> := [3, 4, 5, 3, 9, 3];
    var s2: seq<nat> := [3, 3, 5, 4, 9, 3];
    var s3: seq<nat> := [3, 3, 3, 4, 9, 5];
    assert s1 == s[0 := s[1]][1 := s[0]];
    assert s2 == s1[1 := s1[3]][3 := s1[1]];
    assert s3 == s2[2 := s2[5]][5 := s2[2]];
    assert sorted == s3[4 := s3[5]][5 := s3[4]];
    SwapKeepsElements(s, 0, 1);
    SwapKeepsElements(s1, 1, 3);
    SwapKeepsElements(s2, 2, 5);
    SwapKeepsElements(s3, 4, 5);
  }

  /** The sorted example lists are in order, neighbour by neighbour. */
  lemma LeftInOrder(sorted: seq<nat>)
    requires sorted == [1, 2, 3, 3, 3, 4]
    ensures SortedSeq(sorted)
  {
    NeighboursSorted(sorted);
  }

  lemma RightInOrder(sorted: seq<nat>)
    requires sorted == [3, 3, 3, 4, 5, 9]
    ensures SortedSeq(sorted)
  {
    NeighboursSorted(sorted);
  }

  /** The example's left list in sorted order. */
  lemma ExampleLeftSorted(s: seq<nat>, sorted: seq<nat>)
    requires s == [3, 4, 2, 1, 3, 3] && sorted == [1, 2, 3, 3, 3, 4]
    ensures SortedSeq(sorted) && multiset(sorted) == multiset(s)
  {
    LeftInOrder(sorted);
    LeftElements(s, sorted);
  }

  /** The example's right list in sorted order. */
  lemma ExampleRightSorted(s: seq<nat>, sorted: seq<nat>)
    requires s == [4, 3, 5, 3, 9, 3] && sorted == [3, 3, 3, 4, 5, 9]
    ensures SortedSeq(sorted) && multiset(sorted) == multiset(s)
  {
    RightInOrder(sorted);
    RightElements(s, sorted);
  }

  /** The example lists: part 1 gives 11. */
  lemma ExamplePart1(input: Input, sortedLeft: seq<nat>, sortedRight: seq<nat>)
    requires input.left == [3, 4, 2, 1, 3, 3] && input.right == [4, 3, 5, 3, 9, 3]
    requires sortedLeft == [1, 2, 3, 3, 3, 4] && sortedRight == [3, 3, 3, 4, 5, 9]
    ensures Part1(input) == 11
  {
    ExampleLeftSorted(input.left, sortedLeft);
    ExampleRightSorted(input.right, sortedRight);
    ExampleDistance(sortedLeft, sortedRight);
    Part1FromSorted(input, sortedLeft, sortedRight);
  }

  /** How often the numbers of the example's left list occur in its right list. */
  lemma ExampleCounts(right: seq<nat>)
    requires right == [4, 3, 5, 3, 9, 3]
    ensures Count(right, 1) == 0 && Count(right, 2) == 0 && Count(right, 3) == 3 && Count(right, 4) == 1
  {
    CountIsMultiplicity(right, 1);
    CountIsMultiplicity(right, 2);
    CountIsMultiplicity(right, 3);
    CountIsMultiplicity(right, 4);
  }

  /** The example lists: part 2 gives 31. */
  lemma ExamplePart2()
    ensures Similarity([3, 4, 2, 1, 3, 3], [4, 3, 5, 3, 9, 3]) == 31
  {
    var left: seq<nat> := [3, 4, 2, 1, 3, 3];
    var right: seq<nat> := [4, 3, 5, 3, 9, 3];
    ExampleCounts(right);
    assert left[..5] == [3, 4, 2, 1, 3] && left[..5][..4] == [3, 4, 2, 1];
    assert left[..5][..4][..3] == [3, 4, 2] && left[..5][..4][..3][..2] == [3, 4];
    assert left[..5][..4][..3][..2][..1] == [3];
    assert Similarity([3, 4], right) == 13;
    assert Similarity([3, 4, 2, 1], right) == 13;
  }
}
