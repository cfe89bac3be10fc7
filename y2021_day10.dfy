/**
 * The navigation-subsystem syntax checker of 2021 day 10. `parse_chunk`
 * scans the bytes of a line with a stack: an opening bracket is pushed, any
 * other byte pops the stack and must close the bracket popped. A line is
 * corrupted at the first byte that does not, incomplete when the stack is
 * left non-empty (or when a closing byte finds it empty), and valid
 * otherwise. Incomplete lines are scored by the brackets that would close
 * them, in base 5.
 */
module Syntax {
  import opened Common

  const OpenParen: Byte := 40
  const CloseParen: Byte := 41
  const OpenSquare: Byte := 91
  const CloseSquare: Byte := 93
  const OpenCurly: Byte := 123
  const CloseCurly: Byte := 125
  const OpenAngle: Byte := 60
  const CloseAngle: Byte := 62

  predicate IsOpening(c: Byte)
  {
    c == OpenParen || c == OpenSquare || c == OpenCurly || c == OpenAngle
  }

  predicate IsPair(l: Byte, r: Byte)
  {
    (l == OpenParen && r == CloseParen) || (l == OpenSquare && r == CloseSquare) ||
    (l == OpenCurly && r == CloseCurly) || (l == OpenAngle && r == CloseAngle)
  }

  /** The closing bracket of an opening one. */
  function Closer(l: Byte): (r: Byte)
    requires IsOpening(l)
    ensures IsPair(l, r) && !IsOpening(r)
  {
    if l == OpenParen then CloseParen
    else if l == OpenSquare then CloseSquare
    else if l == OpenCurly then CloseCurly
    else CloseAngle
  }

  /** `parse_chunk`'s outcome: `Ok(())`, `CorruptedChunk(c)` or `IncompleteChunk(stack)`. */
  datatype Outcome = Valid | Corrupted(c: Byte) | Incomplete(stack: seq<Byte>)

  predicate AllOpening(s: seq<Byte>)
  {
    forall k | 0 <= k < |s| :: IsOpening(s[k])
  }

  /** The outcome of scanning `chunk` from a stack of opening brackets. */
  function Scan(chunk: seq<Byte>, stack: seq<Byte>): (r: Outcome)
    requires AllOpening(stack)
    ensures r.Incomplete? ==> AllOpening(r.stack)
    ensures r.Corrupted? ==> r.c in chunk && !IsOpening(r.c)
  {
    if chunk == [] then (if stack == [] then Valid else Incomplete(stack))
    else
      var c := chunk[0];
      if IsOpening(c) then Scan(chunk[1..], stack + [c])
      else if stack == [] then Incomplete([])
      else if IsPair(stack[|stack| - 1], c) then Scan(chunk[1..], stack[..|stack| - 1])
      else Corrupted(c)
  }

  /** `parse_chunk`: push opening brackets, pop and match on everything else. */
  method ParseChunk(chunk: seq<Byte>) returns (r: Outcome)
    ensures r == Scan(chunk, [])
  {
    var stack: seq<Byte> := [];
    for i := 0 to |chunk|
      invariant AllOpening(stack)
      invariant Scan(chunk[i..], stack) == Scan(chunk, [])
    {
      assert chunk[i..][1..] == chunk[i + 1..];
      var c := chunk[i];
      if IsOpening(c) {
        stack := stack + [c];
      } else if stack != [] {
        var top := stack[|stack| - 1];
        stack := stack[..|stack| - 1];
        if !IsPair(top, c) {
          return Corrupted(c);
        }
      } else {
        return Incomplete(stack);
      }
    }
    if stack != [] {
      return Incomplete(stack);
    }
    return Valid;
  }

  /** A well-bracketed line: each chunk is an opening bracket, chunks nested inside it, and its closing bracket. */
  datatype Chunk = Chunk(open: Byte, inner: seq<Chunk>)

  predicate WellFormed(c: Chunk)
    decreases c
  {
    IsOpening(c.open) && AllWellFormed(c.inner)
  }

  predicate AllWellFormed(cs: seq<Chunk>)
    decreases cs
  {
    cs == [] || (WellFormed(cs[0]) && AllWellFormed(cs[1..]))
  }

  function Render(c: Chunk): seq<Byte>
    requires WellFormed(c)
    decreases c
  {
    [c.open] + RenderAll(c.inner) + [Closer(c.open)]
  }

  function RenderAll(cs: seq<Chunk>): seq<Byte>
    requires AllWellFormed(cs)
    decreases cs
  {
    if cs == [] then [] else Render(cs[0]) + RenderAll(cs[1..])
  }

  /** A well-bracketed chunk is scanned without changing the stack it started from. */
  lemma {:induction false} ScanRender(c: Chunk, rest: seq<Byte>, stack: seq<Byte>)
    requires WellFormed(c) && AllOpening(stack)
    ensures Scan(Render(c) + rest, stack) == Scan(rest, stack)
    decreases c, 1
  {
    var s := Render(c) + rest;
    var inner := RenderAll(c.inner);
    assert s[1..] == inner + ([Closer(c.open)] + rest);
    assert AllOpening(stack + [c.open]);
    ScanRenderAll(c.inner, [Closer(c.open)] + rest, stack + [c.open]);
    var t := [Closer(c.open)] + rest;
    assert t[1..] == rest;
    assert (stack + [c.open])[..|stack|] == stack;
  }

  lemma {:induction false} ScanRenderAll(cs: seq<Chunk>, rest: seq<Byte>, stack: seq<Byte>)
    requires AllWellFormed(cs) && AllOpening(stack)
    ensures Scan(RenderAll(cs) + rest, stack) == Scan(rest, stack)
    decreases cs, 0
  {
    if cs == [] {
      assert RenderAll(cs) + rest == rest;
    } else {
      var tail := RenderAll(cs[1..]) + rest;
      assert RenderAll(cs) + rest == Render(cs[0]) + tail;
      ScanRender(cs[0], tail, stack);
      ScanRenderAll(cs[1..], rest, stack);
    }
  }

  /** Every well-bracketed line is valid. */
  lemma BalancedIsValid(cs: seq<Chunk>)
    requires AllWellFormed(cs)
    ensures Scan(RenderAll(cs), []) == Valid
  {
    ScanRenderAll(cs, [], []);
    assert RenderAll(cs) + [] == RenderAll(cs);
  }

  /** The closing brackets for a stack, innermost first. */
  function Completion(stack: seq<Byte>): (r: seq<Byte>)
    requires AllOpening(stack)
    ensures |r| == |stack|
  {
    if stack == [] then [] else [Closer(stack[|stack| - 1])] + Completion(stack[..|stack| - 1])
  }

  lemma {:induction false} CompletionCloses(stack: seq<Byte>)
    requires AllOpening(stack)
    ensures Scan(Completion(stack), stack) == Valid
  {
    if stack != [] {
      var r := Completion(stack);
      assert r[1..] == Completion(stack[..|stack| - 1]);
      CompletionCloses(stack[..|stack| - 1]);
    }
  }

  /**
   * An incomplete line that ran to its end with a non-empty stack becomes
   * valid when that stack's completion is appended to it.
   */
  lemma {:induction false} CompletionMakesValid(chunk: seq<Byte>, stack: seq<Byte>)
    requires AllOpening(stack)
    requires Scan(chunk, stack).Incomplete? && Scan(chunk, stack).stack != []
    ensures Scan(chunk + Completion(Scan(chunk, stack).stack), stack) == Valid
  {
    var st := Scan(chunk, stack).stack;
    if chunk == [] {
      assert chunk + Completion(st) == Completion(st);
      CompletionCloses(st);
    } else {
      assert (chunk + Completion(st))[1..] == chunk[1..] + Completion(st);
      var c := chunk[0];
      if IsOpening(c) {
        CompletionMakesValid(chunk[1..], stack + [c]);
      } else {
        CompletionMakesValid(chunk[1..], stack[..|stack| - 1]);
      }
    }
  }

  /**
   * A corrupted line is corrupted at a byte `i` that is not an opening
   * bracket, before which the line was scanned without error, and which does
   * not close the bracket then on top of the stack.
   */
  lemma {:induction false} CorruptedAt(chunk: seq<Byte>, stack: seq<Byte>) returns (i: nat)
    requires AllOpening(stack) && Scan(chunk, stack).Corrupted?
    ensures i < |chunk| && chunk[i] == Scan(chunk, stack).c && !IsOpening(chunk[i])
    ensures Scan(chunk[..i], stack).Incomplete?
    ensures var st := Scan(chunk[..i], stack).stack; st != [] && !IsPair(st[|st| - 1], chunk[i])
  {
    var c := chunk[0];
    if IsOpening(c) {
      var j := CorruptedAt(chunk[1..], stack + [c]);
      i := j + 1;
      assert chunk[..i][1..] == chunk[1..][..j];
    } else if IsPair(stack[|stack| - 1], c) {
      var j := CorruptedAt(chunk[1..], stack[..|stack| - 1]);
      i := j + 1;
      assert chunk[..i][1..] == chunk[1..][..j];
    } else {
      i := 0;
      assert chunk[..0] == [];
    }
  }

  /** The score of one bracket of a completion, or None where `unreachable!()` panics. */
  function BracketScore(b: Byte): (r: Option<nat>)
    ensures r.Some? ==> 1 <= r.value <= 4
  {
    if b == OpenParen || b == CloseParen then Some(1)
    else if b == OpenSquare || b == CloseSquare then Some(2)
    else if b == OpenCurly || b == CloseCurly then Some(3)
    else if b == OpenAngle || b == CloseAngle then Some(4)
    else None
  }

  /** `score_incomplete_chunk`: `fold(0, |a, b| a * 5 + score(b))`. */
  function IncompleteScore(stack: seq<Byte>): (r: Option<nat>)
    ensures r.Some? <==> forall k | 0 <= k < |stack| :: BracketScore(stack[k]).Some?
    ensures r.Some? && stack != [] ==> r.value >= 1 && r.value % 5 == BracketScore(stack[|stack| - 1]).value
  {
    if stack == [] then Some(0)
    else
      var init := stack[..|stack| - 1];
      assert forall k | 0 <= k < |init| :: init[k] == stack[k];
      match (IncompleteScore(init), BracketScore(stack[|stack| - 1]))
      case (Some(a), Some(b)) =>
        assert a * 5 + b >= 1 && (a * 5 + b) % 5 == b by {
          LastDigit(a, b);
        }
        Some(a * 5 + b)
      case _ => None
  }

  /** Appending the base-5 digit `b` leaves a positive number whose last digit is `b`. */
  lemma LastDigit(a: nat, b: nat)
    requires 1 <= b <= 4
    ensures a * 5 + b >= 1 && (a * 5 + b) % 5 == b
  {
  }

  /** Which bracket kind a byte is, 1 to 4, the same for an opening bracket and its closer. */
  predicate SameKind(a: Byte, b: Byte)
  {
    BracketScore(a) == BracketScore(b)
  }

  /**
   * The score determines the brackets: two sequences with the same score
   * are the same bracket kinds in the same order, because every bracket is
   * a base-5 digit from 1 to 4.
   */
  lemma {:induction false} IncompleteScoreInjective(s: seq<Byte>, t: seq<Byte>)
    requires IncompleteScore(s).Some? && IncompleteScore(s) == IncompleteScore(t)
    ensures |s| == |t| && forall k | 0 <= k < |s| :: SameKind(s[k], t[k])
  {
    if s == [] || t == [] {
      if s != [] {
        NonEmptyScorePositive(s);
      }
      if t != [] {
        NonEmptyScorePositive(t);
      }
    } else {
      var a, b := IncompleteScore(s[..|s| - 1]).value, BracketScore(s[|s| - 1]).value;
      var a', b' := IncompleteScore(t[..|t| - 1]).value, BracketScore(t[|t| - 1]).value;
      DigitsAgree(a, b, a', b');
      IncompleteScoreInjective(s[..|s| - 1], t[..|t| - 1]);
      assert forall k | 0 <= k < |s| - 1 :: s[k] == s[..|s| - 1][k] && t[k] == t[..|t| - 1][k];
    }
  }

  lemma NonEmptyScorePositive(s: seq<Byte>)
    requires s != [] && IncompleteScore(s).Some?
    ensures IncompleteScore(s).value > 0
  {
  }

  /** Base-5 digits: `a * 5 + b == a' * 5 + b'` with digits from 1 to 4 forces `a == a'` and `b == b'`. */
  lemma DigitsAgree(a: nat, b: nat, a': nat, b': nat)
    requires 1 <= b <= 4 && 1 <= b' <= 4 && a * 5 + b == a' * 5 + b'
    ensures a == a' && b == b'
  {
  }

  /** The scores from the puzzle: `}}]])})]` scores 288957 and `])}>` scores 294. */
  lemma IncompleteScoreExamples()
    ensures IncompleteScore([CloseSquare, CloseParen, CloseCurly, CloseAngle]) == Some(294)
    ensures IncompleteScore([CloseCurly, CloseCurly, CloseSquare, CloseSquare, CloseParen, CloseCurly, CloseParen, CloseSquare]) == Some(288957)
  {
    ShortCompletion();
    LongCompletion();
  }

  /** The completion `])}>` scores 294. */
  lemma ShortCompletion()
    ensures IncompleteScore([CloseSquare, CloseParen, CloseCurly, CloseAngle]) == Some(294)
  {
    var s := [CloseSquare, CloseParen, CloseCurly, CloseAngle];
    assert IncompleteScore(s[..1]) == Some(2) by { assert s[..1][..0] == []; }
    assert IncompleteScore(s[..2]) == Some(11) by { assert s[..2][..1] == s[..1]; }
    assert IncompleteScore(s[..3]) == Some(58) by { assert s[..3][..2] == s[..2]; }
    assert s[..|s| - 1] == s[..3];
  }

  /** The completion `}}]])})]` scores 288957. */
  lemma LongCompletion()
    ensures IncompleteScore([CloseCurly, CloseCurly, CloseSquare, CloseSquare, CloseParen, CloseCurly, CloseParen, CloseSquare]) == Some(288957)
  {
    var t := [CloseCurly, CloseCurly, CloseSquare, CloseSquare, CloseParen, CloseCurly, CloseParen, CloseSquare];
    assert t[..7] == [CloseCurly, CloseCurly, CloseSquare, CloseSquare, CloseParen, CloseCurly, CloseParen];
    assert t[..6] == [CloseCurly, CloseCurly, CloseSquare, CloseSquare, CloseParen, CloseCurly];
    assert t[..5] == [CloseCurly, CloseCurly, CloseSquare, CloseSquare, CloseParen];
    assert t[..4] == [CloseCurly, CloseCurly, CloseSquare, CloseSquare];
    assert t[..3] == [CloseCurly, CloseCurly, CloseSquare];
    assert t[..2] == [CloseCurly, CloseCurly];
    assert t[..1] == [CloseCurly];
    assert IncompleteScore(t[..1]) == Some(3) by { assert t[..1][..0] == []; }
    assert IncompleteScore(t[..2]) == Some(18) by { assert t[..2][..1] == t[..1]; }
    assert IncompleteScore(t[..3]) == Some(92) by { assert t[..3][..2] == t[..2]; }
    assert IncompleteScore(t[..4]) == Some(462) by { assert t[..4][..3] == t[..3]; }
    assert IncompleteScore(t[..5]) == Some(2311) by { assert t[..5][..4] == t[..4]; }
    assert IncompleteScore(t[..6]) == Some(11558) by { assert t[..6][..5] == t[..5]; }
    assert IncompleteScore(t[..7]) == Some(57791) by { assert t[..7][..6] == t[..6]; }
    assert t[..|t| - 1] == t[..7];
  }

  function Reverse(s: seq<Byte>): (r: seq<Byte>)
    ensures |r| == |s| && forall k | 0 <= k < |s| :: r[k] == s[|s| - 1 - k]
  {
    if s == [] then [] else [s[|s| - 1]] + Reverse(s[..|s| - 1])
  }

  /** A stack of opening brackets always has a completion score, so `unreachable!()` is never reached from `solve`. */
  lemma StackAlwaysScores(stack: seq<Byte>)
    requires AllOpening(stack)
    ensures IncompleteScore(Reverse(stack)).Some?
  {
    var r := Reverse(stack);
    forall k | 0 <= k < |r|
      ensures BracketScore(r[k]).Some?
    {
      assert r[k] == stack[|stack| - 1 - k];
    }
  }

  /** Scoring the reversed stack scores its completion: each opener scores as its closer. */
  lemma {:induction false} ReverseScoresCompletion(stack: seq<Byte>)
    requires AllOpening(stack)
    ensures var r, c := Reverse(stack), Completion(stack);
      |r| == |c| && forall k | 0 <= k < |r| :: SameKind(r[k], c[k])
  {
    if stack != [] {
      ReverseScoresCompletion(stack[..|stack| - 1]);
    }
  }

  /** The points for the first illegal character of a corrupted line, or None where `unreachable!()` panics. */
  function CorruptScore(c: Byte): (r: Option<nat>)
    ensures r.Some? <==> BracketScore(c).Some? && !IsOpening(c)
    ensures r.Some? ==> exists l | IsOpening(l) :: Closer(l) == c
  {
    if c == CloseParen then assert Closer(OpenParen) == c; Some(3)
    else if c == CloseSquare then assert Closer(OpenSquare) == c; Some(57)
    else if c == CloseCurly then assert Closer(OpenCurly) == c; Some(1197)
    else if c == CloseAngle then assert Closer(OpenAngle) == c; Some(25137)
    else None
  }

  /** How many elements of `s` are below `v`, and how many at most `v`. */
  function CountBelow(s: seq<int>, v: int): nat
  {
    if s == [] then 0 else CountBelow(s[..|s| - 1], v) + (if s[|s| - 1] < v then 1 else 0)
  }

  function CountAtMost(s: seq<int>, v: int): nat
  {
    if s == [] then 0 else CountAtMost(s[..|s| - 1], v) + (if s[|s| - 1] <= v then 1 else 0)
  }

  function MinOf(s: seq<int>): (m: int)
    requires s != []
    ensures m in s && forall k | 0 <= k < |s| :: m <= s[k]
  {
    if |s| == 1 then s[0] else var m := MinOf(s[..|s| - 1]); if s[|s| - 1] < m then s[|s| - 1] else m
  }

  /** `s` without the elements equal to `v`. */
  function Without(s: seq<int>, v: int): (r: seq<int>)
    ensures |r| == |s| - Count(s, v)
    ensures forall k | 0 <= k < |r| :: r[k] != v && r[k] in s
  {
    if s == [] then [] else Without(s[..|s| - 1], v) + (if s[|s| - 1] == v then [] else [s[|s| - 1]])
  }

  /**
   * The element `select_nth_unstable(k)` puts at index `k`: the element that
   * sorting would put there. Take the smallest value; if its copies cover
   * index `k` it is the answer, otherwise drop them and look further.
   */
  function NthSmallest(s: seq<int>, k: nat): (r: int)
    requires k < |s|
    ensures r in s
    decreases |s|
  {
    var m := MinOf(s);
    CountPositive(s, m);
    if k < Count(s, m) then m else NthSmallest(Without(s, m), k - Count(s, m))
  }

  lemma CountPositive(s: seq<int>, v: int)
    requires v in s
    ensures Count(s, v) >= 1
  {
    var i :| 0 <= i < |s| && s[i] == v;
    CountIsPositive(s, i);
  }

  lemma {:induction false} CountIsPositive(s: seq<int>, i: nat)
    requires i < |s|
    ensures Count(s, s[i]) >= 1
  {
    if i < |s| - 1 {
      CountIsPositive(s[..|s| - 1], i);
    }
  }

  /** The selected element has fewer than `k + 1` smaller elements and more than `k` elements at most it. */
  lemma {:induction false} NthSmallestRank(s: seq<int>, k: nat)
    requires k < |s|
    ensures CountBelow(s, NthSmallest(s, k)) <= k < CountAtMost(s, NthSmallest(s, k))
    decreases |s|
  {
    var m := MinOf(s);
    CountPositive(s, m);
    var r := NthSmallest(s, k);
    if k < Count(s, m) {
      BelowMin(s, m);
      AtMostMin(s, m);
    } else {
      var w := Without(s, m);
      NthSmallestRank(w, k - Count(s, m));
      assert r in w;
      CountsWithout(s, m, r);
    }
  }

  lemma {:induction false} BelowMin(s: seq<int>, m: int)
    requires forall k | 0 <= k < |s| :: m <= s[k]
    ensures CountBelow(s, m) == 0
  {
    if s != [] {
      BelowMin(s[..|s| - 1], m);
    }
  }

  lemma {:induction false} AtMostMin(s: seq<int>, m: int)
    requires forall k | 0 <= k < |s| :: m <= s[k]
    ensures CountAtMost(s, m) == Count(s, m)
  {
    if s != [] {
      AtMostMin(s[..|s| - 1], m);
    }
  }

  /** Dropping the copies of the minimum `m` removes exactly them from the counts for any `v > m`. */
  lemma {:induction false} CountsWithout(s: seq<int>, m: int, v: int)
    requires forall k | 0 <= k < |s| :: m <= s[k]
    requires v > m
    ensures CountBelow(s, v) == CountBelow(Without(s, m), v) + Count(s, m)
    ensures CountAtMost(s, v) == CountAtMost(Without(s, m), v) + Count(s, m)
  {
    if s != [] {
      var init, last := s[..|s| - 1], s[|s| - 1];
      assert forall k | 0 <= k < |init| :: m <= init[k];
      CountsWithout(init, m, v);
      var wi := Without(init, m);
      if last == m {
        assert Without(s, m) == wi by {
          assert Without(s, m) == wi + [];
        }
        assert Count(s, m) == Count(init, m) + 1;
      } else {
        var w := wi + [last];
        assert Without(s, m) == w;
        assert w[..|w| - 1] == wi && w[|w| - 1] == last;
        assert CountBelow(w, v) == CountBelow(wi, v) + (if last < v then 1 else 0);
        assert CountAtMost(w, v) == CountAtMost(wi, v) + (if last <= v then 1 else 0);
      }
    }
  }

  /** `solve`'s answers, or None where it panics. */
  function SolveSpec(lines: seq<seq<Byte>>): Option<(nat, int)>
  {
    match Tally(lines)
    case None => None
    case Some((part1, scores)) =>
      if scores == [] then None else Some((part1, NthSmallest(scores, |scores| / 2)))
  }

  /** The corruption points and the completion scores of the lines, in order. */
  function Tally(lines: seq<seq<Byte>>): Option<(nat, seq<int>)>
  {
    if lines == [] then Some((0, []))
    else match Tally(lines[..|lines| - 1])
      case None => None
      case Some((part1, scores)) =>
        match Scan(lines[|lines| - 1], [])
        case Valid => Some((part1, scores))
        case Corrupted(c) =>
          (match CorruptScore(c)
           case None => None
           case Some(p) => Some((part1 + p, scores)))
        case Incomplete(stack) =>
          match IncompleteScore(Reverse(stack))
          case None => None
          case Some(v) => Some((part1, scores + [v]))
  }

  /** `solve`: one pass over the lines, adding up corruption points and collecting completion scores. */
  method Solve(lines: seq<seq<Byte>>) returns (r: Option<(nat, int)>)
    ensures r == SolveSpec(lines)
  {
    var part1: nat := 0;
    var scores: seq<int> := [];
    for i := 0 to |lines|
      invariant Tally(lines[..i]) == Some((part1, scores))
    {
      assert lines[..i + 1][..i] == lines[..i];
      var outcome := ParseChunk(lines[i]);
      match outcome {
        case Valid =>
        case Corrupted(c) =>
          var points := CorruptScore(c);
          if points.None? {
            TallyNoneStays(lines, i + 1);
            return None;
          }
          part1 := part1 + points.value;
        case Incomplete(stack) =>
          StackAlwaysScores(stack);
          var score := IncompleteScore(Reverse(stack));
          scores := scores + [score.value];
      }
    }
    assert lines[..|lines|] == lines;
    if scores == [] {
      return None;
    }
    return Some((part1, NthSmallest(scores, |scores| / 2)));
  }

  /** Once a prefix of the lines panics, so do all the lines. */
  lemma {:induction false} TallyNoneStays(lines: seq<seq<Byte>>, i: nat)
    requires i <= |lines| && Tally(lines[..i]).None?
    ensures Tally(lines).None?
    decreases |lines| - i
  {
    if i < |lines| {
      assert lines[..i + 1][..i] == lines[..i];
      TallyNoneStays(lines, i + 1);
    } else {
      assert lines[..i] == lines;
    }
  }
}
