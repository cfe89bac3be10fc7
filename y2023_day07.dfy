/**
 * The camel cards of 2023 day 7. A hand is five cards, valued 2..=14 (`T`
 * is 10, `J` 11, `Q` 12, `K` 13, `A` 14). Its kind comes from the lengths
 * of the runs of equal cards once the cards are sorted: the longest and
 * the next longest run pick one of seven kinds, 0 (high card) to 6 (five
 * of a kind). With jokers, the `J` cards are left out of the runs and
 * added to the longest one.
 *
 * The two `sort` calls are library sorts; they are modelled by a sorting
 * function proved sorted and a permutation, and by the pair of positions
 * that a descending sort brings to the front.
 */
module CamelCards {
  import opened Common

  /** The joker, `J`. */
  const Joker: nat := 11

  /** `from_str`'s card byte to card value; any other byte is unreachable, which panics: None here. */
  function CardValue(c: char): (r: Option<nat>)
    ensures r.Some? ==> 2 <= r.value <= 14
  {
    if '2' <= c <= '9' then Some(c as nat - '0' as nat)
    else if c == 'T' then Some(10)
    else if c == 'J' then Some(11)
    else if c == 'Q' then Some(12)
    else if c == 'K' then Some(13)
    else if c == 'A' then Some(14)
    else None
  }

  /** Different card characters get different values, so parsing keeps the hand's cards apart. */
  lemma CardValueInjective(c: char, d: char)
    requires CardValue(c).Some? && CardValue(d).Some? && c != d
    ensures CardValue(c).value != CardValue(d).value
  {
  }

  /** The card characters. */
  predicate IsCard(c: char)
  {
    '2' <= c <= '9' || c == 'T' || c == 'J' || c == 'Q' || c == 'K' || c == 'A'
  }

  /** Five cards, valued 2..=14. */
  predicate ValidCards(cards: seq<nat>)
  {
    |cards| == 5 && forall i | 0 <= i < 5 :: 2 <= cards[i] <= 14
  }

  /**
   * `Hand::from_str`: exactly five bytes, each a card. A string of another
   * length fails to convert to `[u8; 5]`; a byte that is not a card panics.
   * Both are None here.
   */
  function ParseHand(s: string): (r: Option<seq<nat>>)
    ensures r.Some? <==> |s| == 5 && forall i | 0 <= i < 5 :: IsCard(s[i])
    ensures r.Some? ==> ValidCards(r.value) && forall i | 0 <= i < 5 :: CardValue(s[i]) == Some(r.value[i])
  {
    if |s| != 5 then None
    else if forall i | 0 <= i < 5 :: CardValue(s[i]).Some? then
      Some(seq(5, i requires 0 <= i < 5 => CardValue(s[i]).value))
    else None
  }

  predicate Sorted(s: seq<nat>)
  {
    forall i, j | 0 <= i < j < |s| :: s[i] <= s[j]
  }

  function Insert(x: nat, s: seq<nat>): (r: seq<nat>)
    ensures |r| == |s| + 1 && multiset(r) == multiset(s) + multiset{x}
    ensures r[0] == x || (s != [] && r[0] == s[0])
  {
    if s == [] then [x]
    else if x <= s[0] then [x] + s
    else
      assert s == [s[0]] + s[1..];
      [s[0]] + Insert(x, s[1..])
  }

  lemma {:induction false} InsertSorted(x: nat, s: seq<nat>)
    requires Sorted(s)
    ensures Sorted(Insert(x, s))
  {
    if s != [] && x > s[0] {
      InsertSorted(x, s[1..]);
      var rest := Insert(x, s[1..]);
      assert s[0] <= rest[0];
    }
  }

  /** `sort()` on the cards: ascending, and the same cards. */
  function Sort(s: seq<nat>): (r: seq<nat>)
    ensures |r| == |s| && Sorted(r) && multiset(r) == multiset(s)
  {
    if s == [] then []
    else
      assert s == [s[0]] + s[1..];
      var rest := Sort(s[1..]);
      InsertSorted(s[0], rest);
      Insert(s[0], rest)
  }

  /** Two sorted sequences with the same elements are equal: sorting forgets the order of the cards. */
  lemma {:induction false} SortedUnique(a: seq<nat>, b: seq<nat>)
    requires Sorted(a) && Sorted(b) && multiset(a) == multiset(b)
    ensures a == b
  {
    if a != [] {
      SortedHeads(a, b);
      MultisetTail(a);
      MultisetTail(b);
      SortedUnique(a[1..], b[1..]);
      assert a == [a[0]] + a[1..] && b == [b[0]] + b[1..];
    } else {
      assert |multiset(b)| == 0;
    }
  }

  /** The smallest card comes first, whatever the order it was dealt in. */
  lemma SortedHeads(a: seq<nat>, b: seq<nat>)
    requires Sorted(a) && Sorted(b) && multiset(a) == multiset(b) && a != []
    ensures b != [] && a[0] == b[0]
  {
    assert a[0] in multiset(b);
    assert b[0] in multiset(a);
    var i :| 0 <= i < |b| && b[i] == a[0];
    var j :| 0 <= j < |a| && a[j] == b[0];
  }

  lemma MultisetTail(a: seq<nat>)
    requires a != []
    ensures multiset(a[1..]) == multiset(a) - multiset{a[0]}
  {
    assert a == [a[0]] + a[1..];
  }

  /** The lengths of the runs of equal adjacent cards, in order. */
  function RunLengths(s: seq<nat>): (r: seq<nat>)
    ensures |r| <= |s| && (s != [] ==> |r| >= 1)
  {
    if |s| <= 1 then (if s == [] then [] else [1])
    else
      var p := RunLengths(s[..|s| - 1]);
      if s[|s| - 1] == s[|s| - 2] then p[|p| - 1 := p[|p| - 1] + 1] else p + [1]
  }

  /** Every card is in exactly one run. */
  lemma {:induction false} RunLengthsSum(s: seq<nat>)
    ensures Sum(RunLengths(s)) == |s|
  {
    if |s| == 1 {
      assert [1][..0] == [];
    } else if |s| > 1 {
      var p := RunLengths(s[..|s| - 1]);
      RunLengthsSum(s[..|s| - 1]);
      if s[|s| - 1] == s[|s| - 2] {
        SumUpdate(p, |p| - 1, p[|p| - 1] + 1);
      } else {
        assert (p + [1])[..|p|] == p;
      }
    }
  }

  /** A run of equal cards is one run. */
  lemma {:induction false} RunLengthsSame(s: seq<nat>)
    requires s != [] && forall i | 0 <= i < |s| :: s[i] == s[0]
    ensures RunLengths(s) == [|s|]
  {
    if |s| > 1 {
      RunLengthsSame(s[..|s| - 1]);
    }
  }

  /** Strictly increasing cards are runs of one. */
  lemma {:induction false} RunLengthsIncreasing(s: seq<nat>)
    requires forall i | 0 < i < |s| :: s[i - 1] < s[i]
    ensures RunLengths(s) == seq(|s|, _ => 1)
  {
    if |s| > 1 {
      RunLengthsIncreasing(s[..|s| - 1]);
    }
  }

  /** The run counters: the run lengths, then zeros up to `n` slots. */
  function Pad(r: seq<nat>, n: nat): (p: seq<nat>)
    requires |r| <= n
    ensures |p| == n && p[..|r|] == r && forall k | |r| <= k < n :: p[k] == 0
  {
    r + seq(n - |r|, _ => 0)
  }

  /**
   * Positions `a` and `b` are what a descending sort brings to the front:
   * `s[a]` is a largest element and `s[b]` a largest among the rest.
   */
  predicate TopPair(s: seq<nat>, a: nat, b: nat)
  {
    a < |s| && b < |s| && a != b && s[b] <= s[a] && forall k | 0 <= k < |s| && k != a :: s[k] <= s[b]
  }

  /** `runs.sort_by(reverse)`, read at positions 0 and 1: the positions of the two largest counters. */
  function TopTwo(s: seq<nat>): (r: (nat, nat))
    requires |s| >= 2
    ensures TopPair(s, r.0, r.1)
  {
    if |s| == 2 then (if s[0] >= s[1] then (0, 1) else (1, 0))
    else
      var (i, j) := TopTwo(s[..|s| - 1]);
      var n := |s| - 1;
      if s[n] > s[i] then (n, i) else if s[n] > s[j] then (i, n) else (i, j)
  }

  /** Whichever positions a descending sort puts first, the two values read there are the same. */
  lemma TopPairValues(s: seq<nat>, a: nat, b: nat, c: nat, d: nat)
    requires TopPair(s, a, b) && TopPair(s, c, d)
    ensures s[a] == s[c] && s[b] == s[d]
  {
  }

  function Longest(s: seq<nat>): nat
    requires |s| >= 2
  {
    s[TopTwo(s).0]
  }

  function NextLongest(s: seq<nat>): nat
    requires |s| >= 2
  {
    s[TopTwo(s).1]
  }

  /**
   * `classify_kind`: any other pair of runs is unreachable, which panics:
   * None here. Only pairs five cards can make are classified, and a lone
   * run is five of a kind.
   */
  function Classify(longest: nat, nextLongest: nat): (r: Option<nat>)
    ensures r.Some? ==> r.value <= 6 && nextLongest <= longest && longest + nextLongest <= 5
    ensures r.Some? && nextLongest == 0 ==> longest == 5 && r.value == 6
  {
    match (longest, nextLongest)
    case (5, 0) => Some(6)
    case (4, 1) => Some(5)
    case (3, 2) => Some(4)
    case (3, 1) => Some(3)
    case (2, 2) => Some(2)
    case (2, 1) => Some(1)
    case (1, 1) => Some(0)
    case _ => None
  }

  /**
   * The pairs a hand can give never reach the unreachable arm: the longest
   * run with the jokers added, and the next run, never exceed five cards,
   * and the next run is empty only when the longest holds every card.
   */
  lemma ClassifyTotal(longest: nat, nextLongest: nat, jokers: nat, total: nat)
    requires nextLongest <= longest && longest + nextLongest <= total && total + jokers == 5
    requires nextLongest == 0 ==> longest == total
    ensures Classify(longest + jokers, nextLongest).Some?
    ensures Classify(longest + jokers, nextLongest).value <= 6
  {
  }

  /** The run counters of `kind`. */
  function Runs(cards: seq<nat>): (r: seq<nat>)
    requires |cards| == 5
    ensures |r| == 5
  {
    Pad(RunLengths(Sort(cards)), 5)
  }

  /** The kind of a hand, by `kind`'s rules: never the unreachable arm, always a kind in 0..=6. */
  function KindOf(cards: seq<nat>): (r: Option<nat>)
    requires |cards| == 5
    ensures r.Some? && r.value <= 6
  {
    var runs := Runs(cards);
    RunLengthsSum(Sort(cards));
    PadSum(RunLengths(Sort(cards)), 5);
    TopTwoFits(runs);
    ClassifyTotal(Longest(runs), NextLongest(runs), 0, 5);
    Classify(Longest(runs), NextLongest(runs))
  }

  /** The cards other than jokers, in order. */
  function WithoutJokers(s: seq<nat>): (r: seq<nat>)
    ensures |r| == |s| - Count(s, Joker)
  {
    if s == [] then []
    else WithoutJokers(s[..|s| - 1]) + (if s[|s| - 1] == Joker then [] else [s[|s| - 1]])
  }

  /** The run counters of `joker_kind` over sorted cards: slot 0 is never used, the runs of the other cards follow. */
  function CountersOf(sorted: seq<nat>): (r: seq<nat>)
    requires |sorted| == 5
    ensures |r| == 6
  {
    [0] + Pad(RunLengths(WithoutJokers(sorted)), 5)
  }

  /** The run counters of `joker_kind` for a hand. */
  function JokerRuns(cards: seq<nat>): (r: seq<nat>)
    requires |cards| == 5
    ensures |r| == 6
  {
    CountersOf(Sort(cards))
  }

  /**
   * The kind of a hand, by `joker_kind`'s rules: the jokers join the
   * longest run. Never the unreachable arm, always a kind in 0..=6.
   */
  function JokerKindOf(cards: seq<nat>): (r: Option<nat>)
    requires |cards| == 5
    ensures r.Some? && r.value <= 6
  {
    JokerRunsFit(cards);
    RunsKind(JokerRuns(cards), Count(cards, Joker))
  }

  /** `classify_kind` applied to the longest counter with `jokers` added (none for `kind`), and the next counter. */
  function RunsKind(runs: seq<nat>, jokers: nat): Option<nat>
    requires |runs| >= 2
  {
    Classify(Longest(runs) + jokers, NextLongest(runs))
  }

  lemma KindOfIs(cards: seq<nat>)
    requires |cards| == 5
    ensures KindOf(cards) == RunsKind(Runs(cards), 0)
  {
  }

  lemma JokerKindOfIs(cards: seq<nat>)
    requires |cards| == 5
    ensures JokerKindOf(cards) == RunsKind(JokerRuns(cards), Count(cards, Joker))
  {
  }

  /** Reading the two largest counters at the positions `TopTwo` picks is what `RunsKind` classifies. */
  lemma RunsKindAt(runs: seq<nat>, jokers: nat, a: nat, b: nat)
    requires |runs| >= 2 && (a, b) == TopTwo(runs)
    ensures RunsKind(runs, jokers) == Classify(runs[a] + jokers, runs[b])
  {
  }

  /** The jokers joined to the longest run of the other cards, and the next run, always name a kind. */
  lemma JokerRunsFit(cards: seq<nat>)
    requires |cards| == 5
    ensures RunsKind(JokerRuns(cards), Count(cards, Joker)).Some?
    ensures RunsKind(JokerRuns(cards), Count(cards, Joker)).value <= 6
  {
    var sorted := Sort(cards);
    var others := WithoutJokers(sorted);
    var runs := JokerRuns(cards);
    var lengths := RunLengths(others);
    RunLengthsSum(others);
    PadSum(lengths, 5);
    SumAppend([0], Pad(lengths, 5));
    assert Sum([0]) == 0 by {
      assert [0][..0] == [];
    }
    CountIsMultiplicity(sorted, Joker);
    CountIsMultiplicity(cards, Joker);
    TopTwoFits(runs);
    ClassifyTotal(Longest(runs), NextLongest(runs), Count(cards, Joker), |others|);
  }

  /** Sums of counters with nothing below zero. */
  lemma SumAtLeast(s: seq<nat>, a: nat, b: nat)
    requires a < |s| && b < |s| && a != b
    ensures Sum(s) >= s[a] + s[b]
    ensures (forall k | 0 <= k < |s| && k != a :: s[k] == 0) ==> Sum(s) == s[a]
  {
    SumUpdate(s, a, 0);
    var t := s[a := 0];
    SumUpdate(t, b, 0);
    SumNonNegative(t[b := 0]);
    if forall k | 0 <= k < |s| && k != a :: s[k] == 0 {
      SumZeroCounters(t);
    }
  }

  lemma {:induction false} SumNonNegative(s: seq<nat>)
    ensures Sum(s) >= 0
  {
    if s != [] {
      SumNonNegative(s[..|s| - 1]);
    }
  }

  lemma {:induction false} SumZeroCounters(s: seq<nat>)
    requires forall k | 0 <= k < |s| :: s[k] == 0
    ensures Sum(s) == 0
  {
    if s != [] {
      SumZeroCounters(s[..|s| - 1]);
    }
  }

  /** The two largest counters, and what they leave, meet `ClassifyTotal`'s requirements. */
  lemma TopTwoFits(s: seq<nat>)
    requires |s| >= 2
    ensures NextLongest(s) <= Longest(s) && Longest(s) + NextLongest(s) <= Sum(s)
    ensures NextLongest(s) == 0 ==> Longest(s) == Sum(s)
  {
    var (a, b) := TopTwo(s);
    SumAtLeast(s, a, b);
  }

  /** Padding with zero counters leaves the total unchanged. */
  lemma PadSum(r: seq<nat>, n: nat)
    requires |r| <= n
    ensures Sum(Pad(r, n)) == Sum(r)
  {
    var padded := Pad(r, n);
    var zeros := padded[|r|..];
    assert padded == r + zeros;
    SumAppend(r, zeros);
    SumZeroCounters(zeros);
  }

  /** `kind` and `joker_kind` depend only on which cards are in the hand, not on their order. */
  lemma KindOrderFree(a: seq<nat>, b: seq<nat>)
    requires |a| == 5 && |b| == 5 && multiset(a) == multiset(b)
    ensures KindOf(a) == KindOf(b) && JokerKindOf(a) == JokerKindOf(b)
  {
    SortedUnique(Sort(a), Sort(b));
    KindOfSorted(a, b);
    assert Count(a, Joker) == Count(b, Joker) by {
      CountIsMultiplicity(a, Joker);
      CountIsMultiplicity(b, Joker);
    }
    JokerKindOfSorted(a, b);
  }

  /** `kind` reads the hand only through its sorted cards. */
  lemma KindOfSorted(a: seq<nat>, b: seq<nat>)
    requires |a| == 5 && |b| == 5 && Sort(a) == Sort(b)
    ensures KindOf(a) == KindOf(b)
  {
    assert Runs(a) == Runs(b);
  }

  /** `joker_kind` reads the hand only through its sorted cards and its number of jokers. */
  lemma JokerKindOfSorted(a: seq<nat>, b: seq<nat>)
    requires |a| == 5 && |b| == 5 && Sort(a) == Sort(b) && Count(a, Joker) == Count(b, Joker)
    ensures JokerKindOf(a) == JokerKindOf(b)
  {
    assert JokerRuns(a) == JokerRuns(b);
  }

  /** Five equal cards are five of a kind. */
  lemma FiveOfAKind(cards: seq<nat>)
    requires |cards| == 5 && forall i | 0 <= i < 5 :: cards[i] == cards[0]
    ensures KindOf(cards) == Some(6)
  {
    var sorted := Sort(cards);
    forall i | 0 <= i < 5
      ensures sorted[i] == cards[0]
    {
      assert sorted[i] in multiset(cards);
    }
    RunLengthsSame(sorted);
    assert TopPair(Runs(cards), 0, 1);
    TopPairValues(Runs(cards), 0, 1, TopTwo(Runs(cards)).0, TopTwo(Runs(cards)).1);
  }

  lemma {:induction false} DistinctMultiplicity(s: seq<nat>, x: nat)
    requires forall i, j | 0 <= i < j < |s| :: s[i] != s[j]
    ensures multiset(s)[x] <= 1
  {
    if s != [] {
      var p := s[..|s| - 1];
      DistinctMultiplicity(p, x);
      assert s == p + [s[|s| - 1]];
      if s[|s| - 1] == x {
        assert x !in p;
      }
    }
  }

  /** Sorting cards that are all different leaves no two equal neighbours. */
  lemma NeighboursDiffer(sorted: seq<nat>, cards: seq<nat>, i: nat)
    requires multiset(sorted) == multiset(cards) && 0 < i < |sorted|
    requires forall i, j | 0 <= i < j < |cards| :: cards[i] != cards[j]
    ensures sorted[i - 1] != sorted[i]
  {
    if sorted[i - 1] == sorted[i] {
      var x := sorted[i];
      assert multiset(sorted)[x] >= 2 by {
        assert sorted == sorted[..i - 1] + [sorted[i - 1], sorted[i]] + sorted[i + 1..];
      }
      DistinctMultiplicity(cards, x);
    }
  }

  /** Five different cards are a high card. */
  lemma AllDifferent(cards: seq<nat>)
    requires |cards| == 5 && forall i, j | 0 <= i < j < 5 :: cards[i] != cards[j]
    ensures KindOf(cards) == Some(0)
  {
    var sorted := Sort(cards);
    forall i | 0 < i < 5
      ensures sorted[i - 1] < sorted[i]
    {
      NeighboursDiffer(sorted, cards, i);
    }
    RunLengthsIncreasing(sorted);
    var runs := Runs(cards);
    assert runs == [1, 1, 1, 1, 1];
    assert TopPair(runs, 0, 1);
    TopPairValues(runs, 0, 1, TopTwo(runs).0, TopTwo(runs).1);
    assert Longest(runs) == 1 && NextLongest(runs) == 1;
  }

  lemma {:induction false} WithoutNoJokers(s: seq<nat>)
    requires Joker !in s
    ensures WithoutJokers(s) == s
  {
    if s != [] {
      WithoutNoJokers(s[..|s| - 1]);
      assert s == s[..|s| - 1] + [s[|s| - 1]];
    }
  }

  /** Without a `J` in the hand, both kinds agree. */
  lemma NoJokerAgrees(cards: seq<nat>)
    requires |cards| == 5 && Joker !in cards
    ensures JokerKindOf(cards) == KindOf(cards)
  {
    var jokerRuns, runs := JokerRuns(cards), Runs(cards);
    NoJokerRuns(cards);
    TopTwoShift(runs);
    var longest, nextLongest := Longest(jokerRuns) + Count(cards, Joker), NextLongest(jokerRuns);
    assert longest == Longest(runs) && nextLongest == NextLongest(runs);
    assert JokerKindOf(cards) == Classify(longest, nextLongest);
  }

  lemma NoJokerRuns(cards: seq<nat>)
    requires |cards| == 5 && Joker !in cards
    ensures JokerRuns(cards) == [0] + Runs(cards) && Count(cards, Joker) == 0
  {
    var sorted := Sort(cards);
    assert Joker !in multiset(sorted);
    WithoutNoJokers(sorted);
    CountIsMultiplicity(cards, Joker);
  }

  /** A counter that stays at zero does not change the two largest counters. */
  lemma TopTwoShift(runs: seq<nat>)
    requires |runs| >= 2
    ensures Longest([0] + runs) == Longest(runs) && NextLongest([0] + runs) == NextLongest(runs)
  {
    var shifted := [0] + runs;
    var (a, b) := TopTwo(runs);
    forall k | 0 <= k < |shifted| && k != a + 1
      ensures shifted[k] <= shifted[b + 1]
    {
      if k > 0 {
        assert shifted[k] == runs[k - 1];
      }
    }
    assert TopPair(shifted, a + 1, b + 1);
    TopPairValues(shifted, a + 1, b + 1, TopTwo(shifted).0, TopTwo(shifted).1);
  }

  /** Counter `k` of the runs is slot `k + 1` of `joker_kind`'s counters. */
  lemma ShiftUpdate(x: seq<nat>, k: nat, v: nat)
    requires k < |x|
    ensures ([0] + x)[k + 1 := v] == [0] + x[k := v]
  {
  }

  /** A new run takes the first unused counter. */
  lemma PadGrow(p: seq<nat>, n: nat)
    requires |p| < n
    ensures Pad(p + [1], n) == Pad(p, n)[|p| := Pad(p, n)[|p|] + 1]
  {
  }

  /** A card equal to the last one adds to the last run's counter. */
  lemma PadBump(p: seq<nat>, n: nat)
    requires 0 < |p| <= n
    ensures Pad(p[|p| - 1 := p[|p| - 1] + 1], n) == Pad(p, n)[|p| - 1 := Pad(p, n)[|p| - 1] + 1]
  {
  }

  /** The runs of a sorted prefix, as the counting loop of `kind` builds them. */
  lemma RunStep(s: seq<nat>, i: nat)
    requires 0 < i < |s|
    ensures RunLengths(s[..i + 1]) ==
      var p := RunLengths(s[..i]);
      if s[i] == s[i - 1] then p[|p| - 1 := p[|p| - 1] + 1] else p + [1]
  {
    assert s[..i + 1][..i] == s[..i];
  }

  /** One turn of `kind`'s counting loop: the card joins the last run, or starts the next. */
  lemma KindStep(s: seq<nat>, i: nat, run: nat, runs: seq<nat>, next: nat)
    requires 0 < i < |s| == 5 && |RunLengths(s[..i])| == run + 1 <= i
    requires runs == Pad(RunLengths(s[..i]), 5)
    requires next == if s[i] != s[i - 1] then run + 1 else run
    ensures |RunLengths(s[..i + 1])| == next + 1 <= i + 1
    ensures runs[next := runs[next] + 1] == Pad(RunLengths(s[..i + 1]), 5)
  {
    RunStep(s, i);
    if s[i] != s[i - 1] {
      PadGrow(RunLengths(s[..i]), 5);
    } else {
      PadBump(RunLengths(s[..i]), 5);
    }
  }

  /**
   * `Hand::kind`: sort a copy of the cards, count the runs of equal cards
   * into five counters, and classify the two largest counters.
   */
  method Kind(cards: seq<nat>) returns (k: Option<nat>)
    requires |cards| == 5
    ensures k == KindOf(cards)
    ensures k.Some? && k.value <= 6
  {
    var sortedCards := Sort(cards);
    var runs: seq<nat> := [1, 0, 0, 0, 0];
    var run := 0;
    var lastCard := sortedCards[0];
    assert sortedCards[..1] == [sortedCards[0]];
    for i := 1 to 5
      invariant |RunLengths(sortedCards[..i])| == run + 1 <= i
      invariant lastCard == sortedCards[i - 1]
      invariant runs == Pad(RunLengths(sortedCards[..i]), 5)
    {
      var card := sortedCards[i];
      ghost var run0 := run;
      if card != lastCard {
        run := run + 1;
        lastCard := card;
      }
      KindStep(sortedCards, i, run0, runs, run);
      runs := runs[run := runs[run] + 1];
    }
    assert sortedCards[..5] == sortedCards;
    k := ClassifyCounters(runs, 0);
    KindOfIs(cards);
  }

  lemma JokerStep(s: seq<nat>, i: nat)
    requires i < |s|
    ensures WithoutJokers(s[..i + 1]) == WithoutJokers(s[..i]) + (if s[i] == Joker then [] else [s[i]])
    ensures Count(s[..i + 1], Joker) == Count(s[..i], Joker) + (if s[i] == Joker then 1 else 0)
  {
    assert s[..i + 1][..i] == s[..i];
  }

  lemma OtherRunStep(others: seq<nat>, card: nat)
    requires others != [] ==> card >= others[|others| - 1]
    ensures RunLengths(others + [card]) ==
      var p := RunLengths(others);
      if others != [] && card == others[|others| - 1] then p[|p| - 1 := p[|p| - 1] + 1] else p + [1]
  {
    if others == [] {
      assert others + [card] == [card] && RunLengths([card]) == [1] && RunLengths(others) == [];
    } else if card == others[|others| - 1] {
      RunExtends(others, card);
    } else {
      RunStarts(others, card);
    }
  }

  /** A card equal to the last one lengthens the last run. */
  lemma RunExtends(others: seq<nat>, card: nat)
    requires others != [] && card == others[|others| - 1]
    ensures var p := RunLengths(others); |p| >= 1 && RunLengths(others + [card]) == p[|p| - 1 := p[|p| - 1] + 1]
  {
    var s := others + [card];
    assert s[..|s| - 1] == others && s[|s| - 1] == s[|s| - 2];
  }

  /** A card different from the last one starts a run of its own. */
  lemma RunStarts(others: seq<nat>, card: nat)
    requires others != [] && card != others[|others| - 1]
    ensures RunLengths(others + [card]) == RunLengths(others) + [1]
  {
    var s := others + [card];
    assert s[..|s| - 1] == others && s[|s| - 1] != s[|s| - 2];
  }

  /** A card equal to the last one adds to the counter of the last run. */
  lemma JokerBump(others: seq<nat>, card: nat, counters: seq<nat>)
    requires others != [] && card == others[|others| - 1] && |others| <= 5
    requires counters == [0] + Pad(RunLengths(others), 5)
    ensures var run := |RunLengths(others)|;
      1 <= run < 6 && counters[run := counters[run] + 1] == [0] + Pad(RunLengths(others + [card]), 5)
  {
    OtherRunStep(others, card);
    var p := RunLengths(others);
    var padded := Pad(p, 5);
    var v := padded[|p| - 1] + 1;
    PadBump(p, 5);
    ShiftUpdate(padded, |p| - 1, v);
  }

  /** A card above the last one starts a run in the first unused counter. */
  lemma JokerNewRun(others: seq<nat>, card: nat, counters: seq<nat>)
    requires |others| < 5 && (others != [] ==> card > others[|others| - 1])
    requires counters == [0] + Pad(RunLengths(others), 5)
    ensures var run := |RunLengths(others)| + 1;
      1 <= run < 6 && counters[run := counters[run] + 1] == [0] + Pad(RunLengths(others + [card]), 5)
  {
    OtherRunStep(others, card);
    var p := RunLengths(others);
    var padded := Pad(p, 5);
    var v := padded[|p|] + 1;
    PadGrow(p, 5);
    ShiftUpdate(padded, |p|, v);
  }

  /** The run counters of `joker_kind` once the cards other than jokers so far, `others`, are counted. */
  predicate RunState(others: seq<nat>, run: nat, lastCard: nat, counters: seq<nat>)
  {
    |others| <= 5 &&
    |RunLengths(others)| == run &&
    (others == [] ==> lastCard == 255) &&
    (others != [] ==> lastCard == others[|others| - 1]) &&
    counters == [0] + Pad(RunLengths(others), 5)
  }

  /** The state of `joker_kind`'s counting loop after the first `i` sorted cards. */
  predicate JokerLoop(s: seq<nat>, i: nat, run: nat, lastCard: nat, counters: seq<nat>, jokerCount: nat)
    requires i <= |s| == 5
  {
    RunState(WithoutJokers(s[..i]), run, lastCard, counters) &&
    (WithoutJokers(s[..i]) != [] ==> 0 < i && lastCard <= s[i - 1]) &&
    jokerCount == Count(s[..i], Joker)
  }

  /** A card that is not a joker, counted into its run. */
  lemma RunStateStep(others: seq<nat>, run: nat, lastCard: nat, counters: seq<nat>, card: nat, next: nat)
    requires RunState(others, run, lastCard, counters) && |others| < 5 && card <= 14
    requires others != [] ==> lastCard <= card
    requires next == if card != lastCard then run + 1 else run
    ensures next < 6 && RunState(others + [card], next, card, counters[next := counters[next] + 1])
  {
    OtherRunStep(others, card);
    if card == lastCard {
      JokerBump(others, card, counters);
    } else {
      JokerNewRun(others, card, counters);
    }
    assert (others + [card])[|others|] == card;
  }

  lemma JokerLoopStart(s: seq<nat>, counters: seq<nat>)
    requires |s| == 5 && counters == [0, 0, 0, 0, 0, 0]
    ensures JokerLoop(s, 0, 0, 255, counters, 0)
  {
    assert s[..0] == [];
  }

  /** A joker in `joker_kind`'s counting loop: counted apart, the run counters unchanged. */
  lemma JokerSkip(s: seq<nat>, i: nat, run: nat, lastCard: nat, counters: seq<nat>, jokerCount: nat)
    requires i < |s| == 5 && JokerLoop(s, i, run, lastCard, counters, jokerCount) && s[i] == Joker
    requires forall k | 0 < k < 5 :: s[k - 1] <= s[k]
    ensures JokerLoop(s, i + 1, run, lastCard, counters, jokerCount + 1)
  {
    JokerStep(s, i);
    var others := WithoutJokers(s[..i]);
    assert WithoutJokers(s[..i + 1]) == others;
    if others != [] {
      assert lastCard <= s[i - 1] <= s[i];
    }
  }

  /** Any other card in `joker_kind`'s counting loop: counted into its run, a new one when it differs from the last. */
  lemma JokerTake(s: seq<nat>, i: nat, run: nat, lastCard: nat, counters: seq<nat>, jokerCount: nat, next: nat)
    requires i < |s| == 5 && JokerLoop(s, i, run, lastCard, counters, jokerCount) && s[i] != Joker
    requires forall k | 0 < k < 5 :: s[k - 1] <= s[k]
    requires forall k | 0 <= k < 5 :: s[k] <= 14
    requires next == if s[i] != lastCard then run + 1 else run
    ensures next < 6 && JokerLoop(s, i + 1, next, s[i], counters[next := counters[next] + 1], jokerCount)
  {
    JokerStep(s, i);
    var others := WithoutJokers(s[..i]);
    assert WithoutJokers(s[..i + 1]) == others + [s[i]];
    assert |others| <= i;
    RunStateStep(others, run, lastCard, counters, s[i], next);
  }

  /** After the fifth card the counters are `JokerRuns`' and the joker count is the hand's. */
  lemma JokerLoopDone(s: seq<nat>, run: nat, lastCard: nat, counters: seq<nat>, jokerCount: nat)
    requires |s| == 5 && JokerLoop(s, 5, run, lastCard, counters, jokerCount)
    ensures counters == [0] + Pad(RunLengths(WithoutJokers(s)), 5)
    ensures jokerCount == Count(s, Joker)
  {
    assert s[..5] == s;
  }

  /**
   * The counting loop of `joker_kind` over the sorted cards: jokers are
   * counted apart and skipped, the other cards fill counters 1..=5 run by
   * run (the last card starts at `u8::MAX`, which no card equals).
   */
  method JokerCounters(sortedCards: seq<nat>) returns (counters: seq<nat>, jokerCount: nat)
    requires |sortedCards| == 5
    requires forall i | 0 < i < 5 :: sortedCards[i - 1] <= sortedCards[i]
    requires forall i | 0 <= i < 5 :: sortedCards[i] <= 14
    ensures counters == CountersOf(sortedCards)
    ensures jokerCount == Count(sortedCards, Joker)
  {
    var runs: seq<nat> := [0, 0, 0, 0, 0, 0];
    var run := 0;
    var lastCard := 255;
    jokerCount := 0;
    JokerLoopStart(sortedCards, runs);
    for i := 0 to 5
      invariant JokerLoop(sortedCards, i, run, lastCard, runs, jokerCount)
    {
      var card := sortedCards[i];
      if card == 11 {
        JokerSkip(sortedCards, i, run, lastCard, runs, jokerCount);
        jokerCount := jokerCount + 1;
        continue;
      }
      ghost var (run0, last0) := (run, lastCard);
      if card != lastCard {
        run := run + 1;
        lastCard := card;
      }
      JokerTake(sortedCards, i, run0, last0, runs, jokerCount, run);
      runs := runs[run := runs[run] + 1];
    }
    JokerLoopDone(sortedCards, run, lastCard, runs, jokerCount);
    counters := runs;
  }

  /**
   * The end of `kind` and `joker_kind`: sort the counters in descending
   * order and classify the two largest, the jokers added to the longest.
   */
  method ClassifyCounters(runs: seq<nat>, jokers: nat) returns (k: Option<nat>)
    requires |runs| >= 2
    ensures k == RunsKind(runs, jokers)
  {
    var (a, b) := TopTwo(runs);
    var longest, nextLongest := runs[a] + jokers, runs[b];
    RunsKindAt(runs, jokers, a, b);
    k := Classify(longest, nextLongest);
  }

  /** The sorted hand is ascending, holds cards up to 14, and as many jokers as the hand. */
  lemma SortedHand(cards: seq<nat>)
    requires ValidCards(cards)
    ensures var s := Sort(cards);
      (forall i | 0 < i < 5 :: s[i - 1] <= s[i]) && (forall i | 0 <= i < 5 :: s[i] <= 14) &&
      Count(s, Joker) == Count(cards, Joker)
  {
    var s := Sort(cards);
    forall i | 0 <= i < 5
      ensures s[i] <= 14
    {
      assert s[i] in multiset(cards);
    }
    CountIsMultiplicity(s, Joker);
    CountIsMultiplicity(cards, Joker);
  }

  /**
   * `Hand::joker_kind`: sort a copy of the cards, count the jokers, count
   * the runs of the other cards into counters 1..=5, and classify the two
   * largest counters with the jokers added to the longest.
   */
  method JokerKind(cards: seq<nat>) returns (k: Option<nat>)
    requires ValidCards(cards)
    ensures k == JokerKindOf(cards)
    ensures k.Some? && k.value <= 6
  {
    var sortedCards := Sort(cards);
    SortedHand(cards);
    var runs, jokerCount := JokerCounters(sortedCards);
    k := ClassifyCounters(runs, jokerCount);
    JokerKindOfIs(cards);
  }
}
