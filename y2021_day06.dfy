/**
 * The lanternfish of 2021 day 6. Each fish has a timer; every day a timer
 * at 0 resets to 6 and the fish spawns a new fish with timer 8, and every
 * other timer counts down by one. `solve` does not track fish: it counts
 * how many fish have each timer value 0..=8 and rotates that count buffer
 * once per day. A timer of 9 or more in the input indexes past the buffer,
 * which panics; that is None here.
 */
module Lanternfish {
  import opened Common

  /** The counts of fish by timer value, one slot per value 0..=8. */
  predicate IsBuffer(c: seq<nat>)
  {
    |c| == 9
  }

  /** One day on the count buffer: slot k + 1 moves to slot k, and the births of slot 0 join slots 6 and 8. */
  function Day(c: seq<nat>): (r: seq<nat>)
    requires IsBuffer(c)
    ensures IsBuffer(r)
  {
    seq(9, k requires 0 <= k < 9 => if k == 8 then c[0] else if k == 6 then c[7] + c[0] else c[k + 1])
  }

  function Days(c: seq<nat>, n: nat): (r: seq<nat>)
    requires IsBuffer(c)
    ensures IsBuffer(r)
  {
    if n == 0 then c else Day(Days(c, n - 1))
  }

  /** Each day the population grows by the number of births, the fish of slot 0. */
  lemma DayTotal(c: seq<nat>)
    requires IsBuffer(c)
    ensures Sum(Day(c)) == Sum(c) + c[0]
  {
    DayRotates(c);
    RotatedBirthsSum(c);
  }

  /** The rotated buffer with the births added to slot 6 sums to the old buffer and the births. */
  lemma RotatedBirthsSum(c: seq<nat>)
    requires IsBuffer(c)
    ensures Sum((c[1..] + [c[0]])[6 := c[7] + c[0]]) == Sum(c) + c[0]
  {
    var rotated := c[1..] + [c[0]];
    RotatedSum(c);
    assert rotated[6] == c[7];
    SumUpdate(rotated, 6, c[7] + c[0]);
  }

  /** A day is the buffer rotated left by one, with the births added to slot 6. */
  lemma DayRotates(c: seq<nat>)
    requires IsBuffer(c)
    ensures Day(c) == (c[1..] + [c[0]])[6 := c[7] + c[0]]
  {
    var d, e := Day(c), (c[1..] + [c[0]])[6 := c[7] + c[0]];
    assert forall k | 0 <= k < 9 :: d[k] == e[k];
  }

  /** Rotating a buffer keeps its sum. */
  lemma RotatedSum(c: seq<nat>)
    requires c != []
    ensures Sum(c[1..] + [c[0]]) == Sum(c)
  {
    SumAppend(c[1..], [c[0]]);
    SumCons(c);
    assert Sum([c[0]]) == c[0] by {
      assert [c[0]][..0] == [];
    }
  }

  /** A fish's timer after one day. */
  function Age(t: nat): nat
  {
    if t == 0 then 6 else t - 1
  }

  /** Every fish a day older, in order. */
  function Aged(fish: seq<nat>): (r: seq<nat>)
    ensures |r| == |fish|
  {
    if fish == [] then [] else Aged(fish[..|fish| - 1]) + [Age(fish[|fish| - 1])]
  }

  /** `n` new fish. */
  function Spawn(n: nat): seq<nat>
  {
    seq(n, _ => 8)
  }

  /** One day of the school, fish by fish: every fish ages and each fish at 0 spawns one at 8. */
  function FishDay(fish: seq<nat>): seq<nat>
  {
    Aged(fish) + Spawn(Count<nat>(fish, 0))
  }

  function FishDays(fish: seq<nat>, n: nat): seq<nat>
  {
    if n == 0 then fish else FishDay(FishDays(fish, n - 1))
  }

  /** Every timer lies in 0..=8. */
  predicate Timers(fish: seq<nat>)
  {
    forall i | 0 <= i < |fish| :: fish[i] < 9
  }

  /** The count buffer of a school. */
  function Tally(fish: seq<nat>): (r: seq<nat>)
    ensures IsBuffer(r)
  {
    seq(9, k requires 0 <= k < 9 => Count<nat>(fish, k))
  }

  /** After a day, how many fish have each timer value. */
  lemma {:induction false} AgedCount(fish: seq<nat>, k: nat)
    requires Timers(fish) && k < 9
    ensures Count<nat>(Aged(fish), k) ==
      if k == 6 then Count<nat>(fish, 7) + Count<nat>(fish, 0) else if k == 8 then 0 else Count<nat>(fish, k + 1)
  {
    if fish != [] {
      AgedCount(fish[..|fish| - 1], k);
    }
  }

  lemma {:induction false} SpawnCount(n: nat, k: nat)
    ensures Count<nat>(Spawn(n), k) == if k == 8 then n else 0
  {
    if n > 0 {
      SpawnCount(n - 1, k);
      assert Spawn(n)[..n - 1] == Spawn(n - 1);
    }
  }

  /** Rotating the count buffer is one day of the school, fish by fish. */
  lemma FishDayTally(fish: seq<nat>)
    requires Timers(fish)
    ensures Timers(FishDay(fish))
    ensures Tally(FishDay(fish)) == Day(Tally(fish))
  {
    var next := FishDay(fish);
    forall k | 0 <= k < 9
      ensures Tally(next)[k] == Day(Tally(fish))[k]
    {
      assert next == Aged(fish) + Spawn(Count<nat>(fish, 0));
      CountAppend<nat>(Aged(fish), Spawn(Count<nat>(fish, 0)), k);
      AgedCount(fish, k);
      SpawnCount(Count<nat>(fish, 0), k);
      assert Tally(next)[k] == Count<nat>(next, k);
      assert Day(Tally(fish))[k] == if k == 8 then Count<nat>(fish, 0) else if k == 6 then Count<nat>(fish, 7) + Count<nat>(fish, 0) else Count<nat>(fish, k + 1);
    }
    AgedTimers(fish);
  }

  lemma {:induction false} AgedTimers(fish: seq<nat>)
    requires Timers(fish)
    ensures Timers(Aged(fish))
  {
    if fish != [] {
      AgedTimers(fish[..|fish| - 1]);
    }
  }

  /** `n` days on the count buffer are `n` days of the school. */
  lemma {:induction false} FishDaysTally(fish: seq<nat>, n: nat)
    requires Timers(fish)
    ensures Timers(FishDays(fish, n))
    ensures Tally(FishDays(fish, n)) == Days(Tally(fish), n)
  {
    if n > 0 {
      FishDaysTally(fish, n - 1);
      FishDayTally(FishDays(fish, n - 1));
    }
  }

  /** The counts add up to the number of fish. */
  lemma {:induction false} TallyPopulation(fish: seq<nat>)
    requires Timers(fish)
    ensures Sum(Tally(fish)) == |fish|
  {
    if fish != [] {
      var p, x := fish[..|fish| - 1], fish[|fish| - 1];
      assert Timers(p);
      TallyPopulation(p);
      forall k | 0 <= k < 9
        ensures Tally(fish)[k] == Tally(p)[x := Tally(p)[x] + 1][k]
      {
        assert Count<nat>(fish, k) == Count<nat>(p, k) + (if x == k then 1 else 0);
      }
      assert Tally(fish) == Tally(p)[x := Tally(p)[x] + 1];
      SumUpdate(Tally(p), x, Tally(p)[x] + 1);
    } else {
      SumZeros(Tally(fish));
    }
  }

  lemma {:induction false} SumZeros(s: seq<nat>)
    requires forall i | 0 <= i < |s| :: s[i] == 0
    ensures Sum(s) == 0
  {
    if s != [] {
      SumZeros(s[..|s| - 1]);
    }
  }

  /** The population the count buffer gives after `n` days is the number of fish after `n` days. */
  lemma Population(fish: seq<nat>, n: nat)
    requires Timers(fish)
    ensures Sum(Days(Tally(fish), n)) == |FishDays(fish, n)|
  {
    FishDaysTally(fish, n);
    TallyPopulation(FishDays(fish, n));
  }

  /** The counting loop of `solve`: one slot per timer value; a timer past the buffer is None. */
  method InitCounts(inp: seq<nat>) returns (r: Option<seq<nat>>)
    ensures r.Some? <==> Timers(inp)
    ensures r.Some? ==> r.value == Tally(inp)
  {
    var counts := new nat[9](_ => 0);
    for j := 0 to |inp|
      invariant Timers(inp[..j])
      invariant counts[..] == Tally(inp[..j])
    {
      if inp[j] >= 9 {
        return None;
      }
      assert inp[..j + 1] == inp[..j] + [inp[j]];
      counts[inp[j]] := counts[inp[j]] + 1;
    }
    assert inp[..|inp|] == inp;
    return Some(counts[..]);
  }

  /**
   * `solve`: rotate the count buffer 256 times (pop the births off the
   * front, push them on the back, add them to slot 6), and add up the
   * counts after day 80 and after day 256.
   */
  method Solve(inp: seq<nat>) returns (r: Option<(int, int)>)
    ensures r.Some? <==> Timers(inp)
    ensures r.Some? ==> r.value == (Sum(Days(Tally(inp), 80)), Sum(Days(Tally(inp), 256)))
  {
    var init := InitCounts(inp);
    if init.None? {
      return None;
    }
    var lanternfish := init.value;
    var part1 := 0;
    for day := 1 to 257
      invariant lanternfish == Days(Tally(inp), day - 1)
      invariant day > 80 ==> part1 == Sum(Days(Tally(inp), 80))
    {
      ghost var before := lanternfish;
      var birthing := lanternfish[0];
      lanternfish := lanternfish[1..];
      lanternfish := lanternfish + [birthing];
      assert lanternfish[6] == before[7];
      lanternfish := lanternfish[6 := lanternfish[6] + birthing];
      DayRotates(before);
      if day == 80 {
        part1 := Sum(lanternfish);
      }
    }
    return Some((part1, Sum(lanternfish)));
  }

  /** Part 1 counts the fish after 80 days and part 2 after 256, fish by fish. */
  lemma SolveCountsFish(inp: seq<nat>)
    requires Timers(inp)
    ensures Sum(Days(Tally(inp), 80)) == |FishDays(inp, 80)|
    ensures Sum(Days(Tally(inp), 256)) == |FishDays(inp, 256)|
  {
    Population(inp, 80);
    Population(inp, 256);
  }
}
