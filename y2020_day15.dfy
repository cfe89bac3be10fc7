/**
 * The memory game of 2020 day 15. The starting numbers are spoken first;
 * after them each turn looks at the number just spoken: if it had never
 * been spoken before, the next number is 0, otherwise it is the number of
 * turns since it was last spoken before that. Turns are counted from 0.
 *
 * `Game` keeps, for each number, the turn it was last spoken, but updates
 * the entry of the number just spoken one turn late (when it computes the
 * gap), so that the entry still holds the previous turn. As written, that
 * late update is skipped while starting numbers are still being spoken:
 * a starting number repeated before the last starting number keeps a
 * stale entry, and the gap computed from it is too large.
 */
module Memory {
  import opened Common

  /** The turn each number of `h` was last spoken. */
  function LastSpoken(h: seq<nat>): (r: map<nat, nat>)
    ensures forall x | x in r :: r[x] < |h|
  {
    if h == [] then map[] else LastSpoken(h[..|h| - 1])[h[|h| - 1] := |h| - 1]
  }

  /** The map holds exactly the spoken numbers, each with the last turn it was spoken. */
  lemma {:induction false} LastSpokenMeans(h: seq<nat>)
    ensures forall x :: x in LastSpoken(h) <==> x in h
    ensures forall x | x in LastSpoken(h) ::
      LastSpoken(h)[x] < |h| && h[LastSpoken(h)[x]] == x && forall k | LastSpoken(h)[x] < k < |h| :: h[k] != x
  {
    if h != [] {
      var p := h[..|h| - 1];
      LastSpokenMeans(p);
      assert h == p + [h[|h| - 1]];
    }
  }

  /** The number spoken after the turns `h`, by the rules of the game. */
  function NextSpoken(start: seq<nat>, h: seq<nat>): nat
    requires |start| > 0
  {
    if |h| < |start| then start[|h|]
    else
      var p, x := h[..|h| - 1], h[|h| - 1];
      if x in LastSpoken(p) then |p| - LastSpoken(p)[x] else 0
  }

  /** After the starting numbers, a number spoken for the first time is followed by 0. */
  lemma NewThenZero(start: seq<nat>, h: seq<nat>)
    requires |start| > 0 && |h| >= |start|
    requires forall j | 0 <= j < |h| - 1 :: h[j] != h[|h| - 1]
    ensures NextSpoken(start, h) == 0
  {
    var p := h[..|h| - 1];
    LastSpokenMeans(p);
    assert h[|h| - 1] !in p;
  }

  /**
   * After the starting numbers, a number spoken before is followed by the
   * number of turns since its previous turn `j`.
   */
  lemma RepeatThenGap(start: seq<nat>, h: seq<nat>, j: nat)
    requires |start| > 0 && |h| >= |start|
    requires j < |h| - 1 && h[j] == h[|h| - 1]
    requires forall k | j < k < |h| - 1 :: h[k] != h[|h| - 1]
    ensures NextSpoken(start, h) == |h| - 1 - j
  {
    var p, x := h[..|h| - 1], h[|h| - 1];
    LastSpokenMeans(p);
    assert p[j] == x;
  }

  /**
   * The turn `next` reads: with the entry of the last number still at its
   * previous turn, the gap is the turns since that entry.
   */
  lemma NextFromTurns(start: seq<nat>, h: seq<nat>, isNew: bool, turns: map<nat, nat>)
    requires |start| > 0 && |h| >= |start|
    requires isNew <==> h[|h| - 1] !in h[..|h| - 1]
    requires turns == if isNew then LastSpoken(h) else LastSpoken(h[..|h| - 1])
    ensures isNew ==> NextSpoken(start, h) == 0
    ensures !isNew ==>
      h[|h| - 1] in turns && turns[h[|h| - 1]] < |h| - 1 && NextSpoken(start, h) == |h| - 1 - turns[h[|h| - 1]]
  {
    LastSpokenMeans(h[..|h| - 1]);
  }

  /** The entries once the last number's entry is brought up to date, and once the next number is recorded. */
  lemma RecordTurns(h: seq<nat>, next: nat)
    ensures next !in LastSpoken(h) <==> next !in (h + [next])[..|h|]
    ensures next !in LastSpoken(h) ==> LastSpoken(h)[next := |h|] == LastSpoken(h + [next])
    ensures next in LastSpoken(h) ==> LastSpoken(h) == LastSpoken((h + [next])[..|h|])
  {
    LastSpokenMeans(h);
    assert (h + [next])[..|h|] == h;
  }

  /** The first `n` numbers of the game. */
  function Spoken(start: seq<nat>, n: nat): (r: seq<nat>)
    requires |start| > 0
    ensures |r| == n
  {
    if n == 0 then [] else Spoken(start, n - 1) + [NextSpoken(start, Spoken(start, n - 1))]
  }

  /** The game begins with the starting numbers. */
  lemma {:induction false} SpokenStarts(start: seq<nat>, n: nat)
    requires 0 < |start| && n <= |start|
    ensures Spoken(start, n) == start[..n]
  {
    if n > 0 {
      SpokenStarts(start, n - 1);
      assert start[..n] == start[..n - 1] + [start[n - 1]];
    }
  }

  /** Later turns never change the earlier ones. */
  lemma {:induction false} SpokenPrefix(start: seq<nat>, k: nat, n: nat)
    requires 0 < |start| && k <= n
    ensures Spoken(start, n)[..k] == Spoken(start, k)
    decreases n
  {
    if k < n {
      SpokenPrefix(start, k, n - 1);
      assert Spoken(start, n)[..n - 1] == Spoken(start, n - 1);
    } else {
      assert Spoken(start, n)[..n] == Spoken(start, n);
    }
  }

  /** The state of `Game`, as a value. */
  datatype GameState = GameState(lastTurns: map<nat, nat>, lastNo: nat, iterNo: nat, lastIsNew: bool)

  /** `Game::new`: no turn taken yet. */
  function Initial(): GameState
  {
    GameState(map[], 0, 0, false)
  }

  /**
   * The `entry(next).or_insert(iter_no)` half of `next`: record the number
   * if it is new, note whether it was, and move to the next turn.
   */
  function Record(next: nat, s: GameState, turns: map<nat, nat>): (r: (nat, GameState))
    ensures r.0 == next && r.1.lastNo == next && r.1.iterNo == s.iterNo + 1
    ensures next !in turns ==> r.1.lastIsNew && r.1.lastTurns == turns[next := s.iterNo]
    ensures next in turns ==> r.1.lastTurns == turns && (r.1.lastIsNew <==> turns[next] == s.iterNo)
  {
    var entry := if next in turns then turns[next] else s.iterNo;
    (next, GameState(if next in turns then turns else turns[next := s.iterNo], next, s.iterNo + 1, entry == s.iterNo))
  }

  /**
   * `Game::next` as written: the late update of the last number's entry is
   * made only when the gap is computed. A missing entry or a gap below
   * zero panics; that is None here.
   */
  function NextAsWritten(start: seq<nat>, s: GameState): (r: Option<(nat, GameState)>)
    ensures r.None? <==>
      (s.iterNo >= |start| && !s.lastIsNew && (s.lastNo !in s.lastTurns || s.lastTurns[s.lastNo] >= s.iterNo))
    ensures r.Some? ==> r.value.1.iterNo == s.iterNo + 1 && r.value.1.lastNo == r.value.0
    ensures s.iterNo < |start| ==> r.Some? && r.value.0 == start[s.iterNo]
    ensures s.iterNo >= |start| && s.lastIsNew ==> r.Some? && r.value.0 == 0
    ensures s.iterNo >= |start| && !s.lastIsNew && r.Some? ==>
      r.value.0 == s.iterNo - 1 - s.lastTurns[s.lastNo] &&
      s.lastNo in r.value.1.lastTurns && r.value.1.lastTurns[s.lastNo] == s.iterNo - 1
  {
    if s.iterNo < |start| then Some(Record(start[s.iterNo], s, s.lastTurns))
    else if s.lastIsNew then Some(Record(0, s, s.lastTurns))
    else if s.lastNo !in s.lastTurns || s.lastTurns[s.lastNo] >= s.iterNo then None
    else Some(Record(s.iterNo - s.lastTurns[s.lastNo] - 1, s, s.lastTurns[s.lastNo := s.iterNo - 1]))
  }

  /** The next `n` numbers `Game::next` gives from state `s`, as written. */
  function RunAsWritten(start: seq<nat>, s: GameState, n: nat): (r: Option<seq<nat>>)
    ensures r.Some? ==> |r.value| == n
    ensures s.iterNo + n <= |start| ==> r.Some?
    ensures r.Some? ==> forall k | 0 <= k < n && s.iterNo + k < |start| :: r.value[k] == start[s.iterNo + k]
    decreases n
  {
    if n == 0 then Some([])
    else match NextAsWritten(start, s)
      case None => None
      case Some((x, s')) =>
        match RunAsWritten(start, s', n - 1)
        case None => None
        case Some(rest) =>
          assert forall k | 1 <= k < n :: ([x] + rest)[k] == rest[k - 1];
          Some([x] + rest)
  }

  /**
   * With the starting numbers 1, 1, 1 the game as written says 2 on turn
   * 3, while 1 was last spoken on turn 2 and before that on turn 1, so the
   * rules ask for 1.
   */
  lemma RepeatedStartGoesStale()
    ensures RunAsWritten([1, 1, 1], Initial(), 4) == Some([1, 1, 1, 2])
    ensures Spoken([1, 1, 1], 4) == [1, 1, 1, 1]
  {
    StaleRun();
    RulesRepeat();
  }

  /** The four turns `Game::next` takes as written from 1, 1, 1. */
  lemma StaleRun()
    ensures RunAsWritten([1, 1, 1], Initial(), 4) == Some([1, 1, 1, 2])
  {
    var start: seq<nat> := [1, 1, 1];
    var s1 := GameState(map[1 := 0], 1, 1, true);
    var s2 := GameState(map[1 := 0], 1, 2, false);
    var s3 := GameState(map[1 := 0], 1, 3, false);
    var s4 := GameState(map[1 := 2, 2 := 3], 2, 4, true);
    assert NextAsWritten(start, Initial()) == Some((1, s1));
    assert NextAsWritten(start, s1) == Some((1, s2));
    assert NextAsWritten(start, s2) == Some((1, s3));
    assert NextAsWritten(start, s3) == Some((2, s4)) by {
      assert s3.lastTurns[1 := 2] == map[1 := 2];
      assert Record(2, s3, map[1 := 2]) == (2, s4);
    }
    assert RunAsWritten(start, s4, 0) == Some([]);
    assert RunAsWritten(start, s3, 1) == Some([2]) by {
      assert [2] + [] == [2];
    }
    assert RunAsWritten(start, s2, 2) == Some([1, 2]) by {
      assert [1] + [2] == [1, 2];
    }
    assert RunAsWritten(start, s1, 3) == Some([1, 1, 2]) by {
      assert [1] + [1, 2] == [1, 1, 2];
    }
    assert [1] + [1, 1, 2] == [1, 1, 1, 2];
  }

  /** By the rules, the fourth turn after 1, 1, 1 repeats 1. */
  lemma RulesRepeat()
    ensures Spoken([1, 1, 1], 4) == [1, 1, 1, 1]
  {
    var start: seq<nat> := [1, 1, 1];
    SpokenStarts(start, 3);
    var h := Spoken(start, 3);
    assert h[..2] == [1, 1];
    assert LastSpoken(h[..2]) == map[1 := 1] by {
      assert [1, 1][..1] == [1];
      assert [1][..0] == [];
    }
  }

  /**
   * The state `Game` keeps after the turns `h`: `turns` holds the last turn
   * of every number spoken before the last turn, and of the last number
   * too once it is new.
   */
  ghost predicate GameInvariant(start: seq<nat>, h: seq<nat>, turns: map<nat, nat>, lastNo: nat, iterNo: nat, isNew: bool)
  {
    |h| == iterNo &&
    (|start| > 0 ==> h == Spoken(start, iterNo)) &&
    (|start| == 0 ==> iterNo == 0) &&
    (iterNo > 0 ==> lastNo == h[iterNo - 1]) &&
    (isNew <==> iterNo > 0 && h[iterNo - 1] !in h[..iterNo - 1]) &&
    turns == (if iterNo == 0 then map[] else if isNew then LastSpoken(h) else LastSpoken(h[..iterNo - 1]))
  }

  /**
   * The number `Game::next` computes: a starting number, 0 after a new
   * number, or the gap read from the entry of the last number.
   */
  lemma NextFromState(start: seq<nat>, h: seq<nat>, turns: map<nat, nat>, lastNo: nat, iterNo: nat, isNew: bool)
    requires |start| > 0 && GameInvariant(start, h, turns, lastNo, iterNo, isNew)
    ensures iterNo < |start| ==> NextSpoken(start, h) == start[iterNo]
    ensures iterNo >= |start| && isNew ==> NextSpoken(start, h) == 0
    ensures iterNo >= |start| && !isNew ==>
      lastNo in turns && turns[lastNo] < iterNo - 1 && NextSpoken(start, h) == iterNo - turns[lastNo] - 1
  {
    if iterNo >= |start| {
      NextFromTurns(start, h, isNew, turns);
    }
  }

  /**
   * One turn keeps the invariant: bring the last number's entry up to date,
   * then record the next number if it is new.
   */
  lemma NextKeepsInvariant(start: seq<nat>, h: seq<nat>, turns: map<nat, nat>, lastNo: nat, iterNo: nat, isNew: bool,
                           next: nat, caught: map<nat, nat>, isNew': bool, turns': map<nat, nat>)
    requires |start| > 0 && GameInvariant(start, h, turns, lastNo, iterNo, isNew)
    requires next == NextSpoken(start, h)
    requires caught == if iterNo > 0 && !isNew then turns[lastNo := iterNo - 1] else turns
    requires isNew' == (next !in caught)
    requires turns' == if isNew' then caught[next := iterNo] else caught
    ensures GameInvariant(start, h + [next], turns', next, iterNo + 1, isNew')
  {
    assert caught == LastSpoken(h) by {
      if iterNo > 0 {
        assert h[..iterNo - 1] + [h[iterNo - 1]] == h;
      }
    }
    RecordTurns(h, next);
    assert (h + [next])[..iterNo] == h;
  }

  /** No starting number is repeated. */
  predicate DistinctStart(start: seq<nat>)
  {
    forall i, j | 0 <= i < j < |start| :: start[i] != start[j]
  }

  /** The entries once the late update of the last number's entry is made. */
  function Caught(s: GameState): (turns: map<nat, nat>)
    ensures s.iterNo > 0 && !s.lastIsNew ==> s.lastNo in turns && turns[s.lastNo] == s.iterNo - 1
  {
    if s.iterNo > 0 && !s.lastIsNew then s.lastTurns[s.lastNo := s.iterNo - 1] else s.lastTurns
  }

  /**
   * With distinct starting numbers, the number just spoken during the
   * starting turns is always new, so the late update the written code
   * skips there would change nothing: one turn as written is the turn
   * `Game` takes, and speaks the number the rules ask for.
   */
  lemma WrittenStep(start: seq<nat>, h: seq<nat>, s: GameState)
    requires |start| > 0 && DistinctStart(start)
    requires GameInvariant(start, h, s.lastTurns, s.lastNo, s.iterNo, s.lastIsNew)
    ensures NextAsWritten(start, s) == Some(Record(NextSpoken(start, h), s, Caught(s)))
  {
    NextFromState(start, h, s.lastTurns, s.lastNo, s.iterNo, s.lastIsNew);
    if 0 < s.iterNo <= |start| {
      SpokenStarts(start, s.iterNo);
      assert h[s.iterNo - 1] == start[s.iterNo - 1];
      assert h[..s.iterNo - 1] == start[..s.iterNo - 1];
    }
  }

  /** The turn `Game` takes keeps its invariant. */
  lemma CaughtStep(start: seq<nat>, h: seq<nat>, s: GameState)
    requires |start| > 0 && GameInvariant(start, h, s.lastTurns, s.lastNo, s.iterNo, s.lastIsNew)
    ensures var s' := Record(NextSpoken(start, h), s, Caught(s)).1;
      GameInvariant(start, h + [NextSpoken(start, h)], s'.lastTurns, s'.lastNo, s'.iterNo, s'.lastIsNew)
  {
    var next, caught := NextSpoken(start, h), Caught(s);
    var isNew' := next !in caught;
    var turns' := if isNew' then caught[next := s.iterNo] else caught;
    NextKeepsInvariant(start, h, s.lastTurns, s.lastNo, s.iterNo, s.lastIsNew, next, caught, isNew', turns');
    CaughtUp(start, h, s);
  }

  /** The entries once the last number's entry is up to date are those of every turn so far. */
  lemma CaughtUp(start: seq<nat>, h: seq<nat>, s: GameState)
    requires |start| > 0 && GameInvariant(start, h, s.lastTurns, s.lastNo, s.iterNo, s.lastIsNew)
    ensures forall x | x in Caught(s) :: Caught(s)[x] < s.iterNo
  {
    if s.iterNo > 0 {
      assert h[..s.iterNo - 1] + [h[s.iterNo - 1]] == h;
    }
    assert Caught(s) == LastSpoken(h);
  }

  /** The `n` turns after the first `k`, by the rules, one at a time. */
  function RulesFrom(start: seq<nat>, k: nat, n: nat): seq<nat>
    requires |start| > 0
    decreases n
  {
    if n == 0 then [] else [NextSpoken(start, Spoken(start, k))] + RulesFrom(start, k + 1, n - 1)
  }

  /** Those turns are the slice of the game from `k` to `k + n`. */
  lemma {:induction false} RulesFromSpoken(start: seq<nat>, k: nat, n: nat)
    requires |start| > 0
    ensures RulesFrom(start, k, n) == Spoken(start, k + n)[k..]
    decreases n
  {
    if n > 0 {
      RulesFromSpoken(start, k + 1, n - 1);
      assert (k + 1) + (n - 1) == k + n;
      SpokenNext(start, k, k + n);
    } else {
      assert Spoken(start, k)[k..] == [];
    }
  }

  /** From a state kept as `Game` keeps it after `k` turns, the written code speaks the turns the rules give. */
  lemma {:induction false} WrittenRun(start: seq<nat>, k: nat, s: GameState, n: nat)
    requires |start| > 0 && DistinctStart(start)
    requires GameInvariant(start, Spoken(start, k), s.lastTurns, s.lastNo, s.iterNo, s.lastIsNew)
    ensures RunAsWritten(start, s, n) == Some(RulesFrom(start, k, n))
    decreases n
  {
    if n > 0 {
      var h := Spoken(start, k);
      WrittenStep(start, h, s);
      CaughtStep(start, h, s);
      assert Spoken(start, k + 1) == h + [NextSpoken(start, h)];
      WrittenRun(start, k + 1, NextAsWritten(start, s).value.1, n - 1);
      RunCons(start, s, n, RulesFrom(start, k + 1, n - 1));
    }
  }

  /** The turns from `k` on are the number spoken on turn `k`, then the turns after it. */
  lemma SpokenNext(start: seq<nat>, k: nat, m: nat)
    requires |start| > 0 && k < m
    ensures Spoken(start, m)[k..] == [NextSpoken(start, Spoken(start, k))] + Spoken(start, m)[k + 1..]
  {
    var all := Spoken(start, m);
    SpokenPrefix(start, k + 1, m);
    assert all[k] == Spoken(start, k + 1)[k];
  }

  /** A turn that does not panic, followed by the rest of the run. */
  lemma RunCons(start: seq<nat>, s: GameState, n: nat, rest: seq<nat>)
    requires n > 0 && NextAsWritten(start, s).Some?
    requires RunAsWritten(start, NextAsWritten(start, s).value.1, n - 1) == Some(rest)
    ensures RunAsWritten(start, s, n) == Some([NextAsWritten(start, s).value.0] + rest)
  {
  }

  /**
   * With distinct starting numbers the written `Game::next` never panics
   * and speaks exactly the numbers of the rules: the stale entry needs a
   * repeated starting number.
   */
  lemma RunAsWrittenAgrees(start: seq<nat>, n: nat)
    requires |start| > 0 && DistinctStart(start)
    ensures RunAsWritten(start, Initial(), n) == Some(Spoken(start, n))
  {
    WrittenRun(start, 0, Initial(), n);
    RulesFromSpoken(start, 0, n);
    assert Spoken(start, n)[0..] == Spoken(start, n);
  }

  /** `Game`: the memory game as an iterator, with the late update made on every turn. */
  class Game {
    const startingNumbers: seq<nat>
    var lastTurns: map<nat, nat>
    var lastNo: nat
    var iterNo: nat
    var lastIsNew: bool
    /** The numbers spoken so far. */
    ghost var spoken: seq<nat>

    ghost predicate Valid()
      reads this
    {
      GameInvariant(startingNumbers, spoken, lastTurns, lastNo, iterNo, lastIsNew)
    }

    /** `Game::new`. */
    constructor (input: seq<nat>)
      ensures Valid() && startingNumbers == input && spoken == []
      ensures lastTurns == map[] && lastNo == 0 && iterNo == 0 && !lastIsNew
    {
      startingNumbers := input;
      lastTurns, lastNo, iterNo, lastIsNew := map[], 0, 0, false;
      spoken := [];
    }

    /**
     * `Game::next`, with the late update of the last number's entry made
     * before every turn rather than only when the gap is computed. Without
     * starting numbers the first call finds no entry, which panics; that is
     * None here.
     */
    method Next() returns (r: Option<nat>)
      requires Valid()
      modifies this
      ensures Valid()
      ensures r.None? <==> |startingNumbers| == 0
      ensures r.None? ==> spoken == old(spoken)
      ensures r.Some? ==> r.value == NextSpoken(startingNumbers, old(spoken))
      ensures r.Some? ==> spoken == old(spoken) + [r.value] && iterNo == old(iterNo) + 1
    {
      if |startingNumbers| == 0 {
        return None;
      }
      var next := NextNumber();
      Speak(next);
      r := Some(next);
    }

    /** The number the next turn speaks, read from the state. */
    method NextNumber() returns (next: nat)
      requires Valid() && |startingNumbers| > 0
      ensures next == NextSpoken(startingNumbers, spoken)
    {
      NextFromState(startingNumbers, spoken, lastTurns, lastNo, iterNo, lastIsNew);
      if iterNo < |startingNumbers| {
        next := startingNumbers[iterNo];
      } else if lastIsNew {
        next := 0;
      } else {
        next := iterNo - lastTurns[lastNo] - 1;
      }
    }

    /** Bring the last number's entry up to date, then speak `next`, recording it if it is new. */
    method Speak(next: nat)
      requires Valid() && |startingNumbers| > 0 && next == NextSpoken(startingNumbers, spoken)
      modifies this
      ensures Valid() && spoken == old(spoken) + [next] && iterNo == old(iterNo) + 1
    {
      ghost var h, turns, isNew := spoken, lastTurns, lastIsNew;
      if iterNo > 0 && !lastIsNew {
        lastTurns := lastTurns[lastNo := iterNo - 1];
      }
      ghost var caught := lastTurns;
      lastIsNew := next !in lastTurns;
      if lastIsNew {
        lastTurns := lastTurns[next := iterNo];
      }
      NextKeepsInvariant(startingNumbers, h, turns, lastNo, iterNo, isNew, next, caught, lastIsNew, lastTurns);
      lastNo := next;
      iterNo := iterNo + 1;
      spoken := h + [next];
    }
  }

  /** `game.nth(n)`: the number spoken on turn `n`; None without starting numbers. */
  method Nth(start: seq<nat>, n: nat) returns (r: Option<nat>)
    ensures r.None? <==> |start| == 0
    ensures r.Some? ==> |start| > 0 && r.value == Spoken(start, n + 1)[n]
  {
    var game := new Game(start);
    var i := 0;
    r := None;
    while i <= n
      invariant 0 <= i <= n + 1 && game.Valid() && game.startingNumbers == start
      invariant |start| > 0 ==> game.iterNo == i
      invariant i > 0 && |start| > 0 ==> r == Some(game.spoken[i - 1])
      invariant |start| == 0 ==> r.None?
    {
      r := game.Next();
      if r.None? {
        return;
      }
      i := i + 1;
    }
  }

  /** `part1`: the 2020th number spoken. */
  method Part1(start: seq<nat>) returns (r: Option<nat>)
    ensures r.None? <==> |start| == 0
    ensures r.Some? ==> |start| > 0 && r.value == Spoken(start, 2020)[2019]
  {
    r := Nth(start, 2019);
  }

  /** `part2`: the 30000000th number spoken. */
  method Part2(start: seq<nat>) returns (r: Option<nat>)
    ensures r.None? <==> |start| == 0
    ensures r.Some? ==> |start| > 0 && r.value == Spoken(start, 30000000)[29999999]
  {
    r := Nth(start, 29999999);
  }
}
