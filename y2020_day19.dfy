/**
 * The message rules of 2020 day 19. A rule is a single character, a
 * sequence of rule numbers, or an alternation of two rules. `matches`
 * walks a shared character cursor: a character rule consumes the next
 * character whether or not it is the one wanted, a sequence stops at the
 * first sub-rule that fails (leaving the cursor where that one left it),
 * and an alternation tries its first branch on a copy of the cursor,
 * keeps that copy's position on success, and otherwise runs the second
 * branch from the original position. The first branch that matches is
 * kept even when a later one would let the rest of the message match.
 *
 * `Match` is the specification of `matches` on positions; `None` stands
 * for a call that does not return: a rule number missing from the rules
 * (the map index panics) or rule references nested deeper than `fuel`
 * (unbounded recursion).
 */
module MonsterMessages {
  import opened Common

  datatype Rule = Sequence(ids: seq<nat>) | Alternation(first: Rule, second: Rule) | Atom(c: char)

  type Rules = map<nat, Rule>

  /** Whether a rule matched, and where the cursor stands afterwards. */
  datatype Outcome = Outcome(ok: bool, end: nat)

  /** `Rule::matches` from position `pos`. */
  function Match(rules: Rules, r: Rule, s: seq<char>, pos: nat, fuel: nat): (o: Option<Outcome>)
    requires pos <= |s|
    ensures o.Some? ==> pos <= o.value.end <= |s|
    decreases fuel, 1, r
  {
    match r
    case Atom(c) =>
      if pos < |s| then Some(Outcome(s[pos] == c, pos + 1)) else Some(Outcome(false, pos))
    case Alternation(first, second) =>
      var o := Match(rules, first, s, pos, fuel);
      if o.None? then None
      else if o.value.ok then o
      else Match(rules, second, s, pos, fuel)
    case Sequence(ids) => MatchAll(rules, ids, s, pos, fuel)
  }

  /** The sub-rules of a sequence in order, each looked up in `rules`, stopping at the first failure. */
  function MatchAll(rules: Rules, ids: seq<nat>, s: seq<char>, pos: nat, fuel: nat): (o: Option<Outcome>)
    requires pos <= |s|
    ensures o.Some? ==> pos <= o.value.end <= |s|
    decreases fuel, 0, |ids|
  {
    if ids == [] then Some(Outcome(true, pos))
    else if fuel == 0 || ids[0] !in rules then None
    else
      match Match(rules, rules[ids[0]], s, pos, fuel - 1)
      case None => None
      case Some(o) => if o.ok then MatchAll(rules, ids[1..], s, o.end, fuel) else Some(o)
  }

  /*
   * The language of a rule, as a grammar defines it: the reference the
   * matcher is measured against. `depth` bounds the nesting of rule
   * references, as `fuel` does for the matcher.
   */

  /** `r` derives the word `w`. */
  ghost predicate Derives(rules: Rules, r: Rule, w: seq<char>, depth: nat)
    decreases depth, 1, r
  {
    match r
    case Atom(c) => w == [c]
    case Alternation(first, second) => Derives(rules, first, w, depth) || Derives(rules, second, w, depth)
    case Sequence(ids) => DerivesAll(rules, ids, w, depth)
  }

  /** `w` splits into consecutive words derived by the rules numbered `ids`. */
  ghost predicate DerivesAll(rules: Rules, ids: seq<nat>, w: seq<char>, depth: nat)
    decreases depth, 0, |ids|
  {
    if ids == [] then w == []
    else
      depth > 0 && ids[0] in rules &&
      exists k | 0 <= k <= |w| :: Derives(rules, rules[ids[0]], w[..k], depth - 1) && DerivesAll(rules, ids[1..], w[k..], depth)
  }

  /** What the matcher accepts, the grammar derives. */
  lemma {:induction false} MatchSound(rules: Rules, r: Rule, s: seq<char>, pos: nat, fuel: nat)
    requires pos <= |s|
    requires Match(rules, r, s, pos, fuel).Some? && Match(rules, r, s, pos, fuel).value.ok
    ensures Derives(rules, r, s[pos..Match(rules, r, s, pos, fuel).value.end], fuel)
    decreases fuel, 1, r
  {
    match r
    case Atom(c) =>
    case Alternation(first, second) =>
      var o := Match(rules, first, s, pos, fuel);
      if o.value.ok {
        MatchSound(rules, first, s, pos, fuel);
      } else {
        MatchSound(rules, second, s, pos, fuel);
      }
    case Sequence(ids) =>
      MatchAllSound(rules, ids, s, pos, fuel);
  }

  lemma {:induction false} MatchAllSound(rules: Rules, ids: seq<nat>, s: seq<char>, pos: nat, fuel: nat)
    requires pos <= |s|
    requires MatchAll(rules, ids, s, pos, fuel).Some? && MatchAll(rules, ids, s, pos, fuel).value.ok
    ensures DerivesAll(rules, ids, s[pos..MatchAll(rules, ids, s, pos, fuel).value.end], fuel)
    decreases fuel, 0, |ids|
  {
    if ids != [] {
      var o := Match(rules, rules[ids[0]], s, pos, fuel - 1).value;
      var e := MatchAll(rules, ids, s, pos, fuel).value.end;
      assert MatchAll(rules, ids[1..], s, o.end, fuel).value.end == e;
      MatchSound(rules, rules[ids[0]], s, pos, fuel - 1);
      MatchAllSound(rules, ids[1..], s, o.end, fuel);
      SliceParts(s, pos, o.end, e);
    }
  }

  /** A slice cut at `mid` gives the two slices on either side of `mid`. */
  lemma SliceParts(s: seq<char>, pos: nat, mid: nat, e: nat)
    requires pos <= mid <= e <= |s|
    ensures s[pos..e][..mid - pos] == s[pos..mid]
    ensures s[pos..e][mid - pos..] == s[mid..e]
  {
  }

  /** More fuel changes nothing once the matcher has returned: `fuel` only bounds the recursion. */
  lemma {:induction false} MatchFuel(rules: Rules, r: Rule, s: seq<char>, pos: nat, fuel: nat, more: nat)
    requires pos <= |s| && fuel <= more
    requires Match(rules, r, s, pos, fuel).Some?
    ensures Match(rules, r, s, pos, more) == Match(rules, r, s, pos, fuel)
    decreases fuel, 1, r
  {
    match r
    case Atom(c) =>
    case Alternation(first, second) =>
      MatchFuel(rules, first, s, pos, fuel, more);
      if !Match(rules, first, s, pos, fuel).value.ok {
        MatchFuel(rules, second, s, pos, fuel, more);
      }
    case Sequence(ids) =>
      MatchAllFuel(rules, ids, s, pos, fuel, more);
  }

  lemma {:induction false} MatchAllFuel(rules: Rules, ids: seq<nat>, s: seq<char>, pos: nat, fuel: nat, more: nat)
    requires pos <= |s| && fuel <= more
    requires MatchAll(rules, ids, s, pos, fuel).Some?
    ensures MatchAll(rules, ids, s, pos, more) == MatchAll(rules, ids, s, pos, fuel)
    decreases fuel, 0, |ids|
  {
    if ids != [] {
      MatchFuel(rules, rules[ids[0]], s, pos, fuel - 1, more - 1);
      var o := Match(rules, rules[ids[0]], s, pos, fuel - 1).value;
      if o.ok {
        MatchAllFuel(rules, ids[1..], s, o.end, fuel, more);
      }
    }
  }

  /**
   * Part 1: rule 0 matches and the whole message is consumed. A missing
   * rule 0 is a failed lookup; a message accepted is in the language of
   * rule 0.
   */
  function WholeMatch(rules: Rules, s: seq<char>, fuel: nat): (r: Option<bool>)
    ensures 0 !in rules ==> r.None?
    ensures r == Some(true) ==> Derives(rules, rules[0], s, fuel)
  {
    if 0 !in rules then None
    else
      match Match(rules, rules[0], s, 0, fuel)
      case None => None
      case Some(o) =>
        assert o.ok && o.end == |s| ==> Derives(rules, rules[0], s, fuel) by {
          if o.ok && o.end == |s| {
            MatchSound(rules, rules[0], s, 0, fuel);
            assert s[0..|s|] == s;
          }
        }
        Some(o.ok && o.end == |s|)
  }

  /** The rules 0: 1 2, 1: 3 | 3 4, 2: 4, 3: "a", 4: "b". */
  function CommitRules(): Rules
  {
    map[0 := Sequence([1, 2]), 1 := Alternation(Sequence([3]), Sequence([3, 4])),
        2 := Sequence([4]), 3 := Atom('a'), 4 := Atom('b')]
  }

  /**
   * The matcher commits to the first branch that matches: under
   * `CommitRules`, part 1 rejects "abb", since rule 1 takes "a" and stops
   * there ...
   */
  lemma CommitsToFirst()
    ensures WholeMatch(CommitRules(), "abb", 3) == Some(false)
  {
    var rules, s := CommitRules(), "abb";
    assert Match(rules, rules[1], s, 0, 2) == Some(Outcome(true, 1)) by {
      assert MatchAll(rules, [3], s, 0, 2) == Some(Outcome(true, 1)) by {
        assert MatchAll(rules, [3][1..], s, 1, 2) == Some(Outcome(true, 1));
      }
    }
    assert Match(rules, rules[2], s, 1, 2) == Some(Outcome(true, 2)) by {
      assert MatchAll(rules, [4][1..], s, 2, 2) == Some(Outcome(true, 2));
    }
    assert MatchAll(rules, [1, 2], s, 0, 3) == Some(Outcome(true, 2)) by {
      assert [1, 2][1..] == [2] && [2][1..] == [];
    }
  }

  /** ... although rule 0 derives "abb", with rule 1 as "ab". */
  lemma DerivesLonger(rules: Rules, s: seq<char>)
    requires rules == CommitRules() && s == "abb"
    ensures Derives(rules, rules[0], s, 3)
  {
    assert s[..2] == "ab" && s[2..] == "b" && [1, 2][1..] == [2];
    DerivesFirstRule(rules, s[..2]);
    DerivesB(3);
    assert rules[0] == Sequence([1, 2]);
    DerivesSplit(rules, [1, 2], s, 2, 3);
  }

  lemma DerivesFirstRule(rules: Rules, w: seq<char>)
    requires rules == CommitRules() && w == "ab"
    ensures Derives(rules, rules[1], w, 2)
  {
    DerivesPair(rules, w);
    assert rules[1] == Alternation(Sequence([3]), Sequence([3, 4]));
  }

  /** "ab" is rule 3's "a" followed by rule 4's "b". */
  lemma DerivesPair(rules: Rules, w: seq<char>)
    requires rules == CommitRules() && w == "ab"
    ensures Derives(rules, Sequence([3, 4]), w, 2)
  {
    DerivesB(3);
    assert [3, 4][1..] == [4] && w[..1] == "a" && w[1..] == "b";
    assert Derives(rules, rules[3], w[..1], 1);
    DerivesSplit(rules, [3, 4], w, 1, 2);
  }

  /** "b" is one word of rule 4, and so of rule 2, from any depth above 1. */
  lemma DerivesB(depth: nat)
    requires depth >= 2
    ensures DerivesAll(CommitRules(), [4], "b", depth - 1) && DerivesAll(CommitRules(), [2], "b", depth)
  {
    var rules := CommitRules();
    assert "b"[..1] == "b" && "b"[1..] == [] && [4][1..] == [] && [2][1..] == [];
    assert Derives(rules, rules[4], "b", depth - 2);
    DerivesSplit(rules, [4], "b", 1, depth - 1);
    assert Derives(rules, rules[2], "b", depth - 1);
    DerivesSplit(rules, [2], "b", 1, depth);
  }

  /** A word of the first rule followed by words of the others. */
  lemma DerivesSplit(rules: Rules, ids: seq<nat>, w: seq<char>, k: nat, depth: nat)
    requires ids != [] && depth > 0 && ids[0] in rules && k <= |w|
    requires Derives(rules, rules[ids[0]], w[..k], depth - 1) && DerivesAll(rules, ids[1..], w[k..], depth)
    ensures DerivesAll(rules, ids, w, depth)
  {
  }

  /**
   * The counting loop of part 2: how many times rule `id` matches in a
   * row from `pos`, and where the last match ended. A match that consumes
   * nothing would repeat forever: `None`, like a failed lookup.
   */
  function Repeat(rules: Rules, id: nat, s: seq<char>, pos: nat, fuel: nat): (g: Option<(nat, nat)>)
    requires pos <= |s|
    ensures g.Some? ==> pos <= g.value.1 <= |s|
    decreases |s| - pos
  {
    if id !in rules then None
    else
      match Match(rules, rules[id], s, pos, fuel)
      case None => None
      case Some(o) =>
        if !o.ok then Some((0, pos))
        else if o.end == pos then None
        else
          match Repeat(rules, id, s, o.end, fuel)
          case None => None
          case Some(g) => Some((g.0 + 1, g.1))
  }

  /** `w` is `n` consecutive words derived by `r`. */
  ghost predicate Repeats(rules: Rules, r: Rule, w: seq<char>, n: nat, depth: nat)
    decreases n
  {
    if n == 0 then w == []
    else exists k | 0 < k <= |w| :: Derives(rules, r, w[..k], depth) && Repeats(rules, r, w[k..], n - 1, depth)
  }

  /** The counted matches are words of the rule, and the rule does not match where the count stops. */
  lemma {:induction false} RepeatSound(rules: Rules, id: nat, s: seq<char>, pos: nat, fuel: nat)
    requires pos <= |s| && Repeat(rules, id, s, pos, fuel).Some?
    ensures var g := Repeat(rules, id, s, pos, fuel).value;
      id in rules && Repeats(rules, rules[id], s[pos..g.1], g.0, fuel) &&
      Match(rules, rules[id], s, g.1, fuel).Some? && !Match(rules, rules[id], s, g.1, fuel).value.ok
    decreases |s| - pos
  {
    var o := Match(rules, rules[id], s, pos, fuel).value;
    if o.ok {
      var g := Repeat(rules, id, s, o.end, fuel).value;
      RepeatSound(rules, id, s, o.end, fuel);
      MatchSound(rules, rules[id], s, pos, fuel);
      SliceParts(s, pos, o.end, g.1);
    }
  }

  /**
   * Part 2: as many 42s as match, then as many 31s, the whole message
   * consumed, and more 42s than 31s but at least one 31. A message
   * accepted is `n` words of rule 42 followed by `m` words of rule 31 with
   * `n > m > 0`: the language of `0: 8 11` once `8: 42 | 42 8` and
   * `11: 42 31 | 42 11 31`.
   */
  function LoopMatch(rules: Rules, s: seq<char>, fuel: nat): (r: Option<bool>)
    ensures 42 !in rules ==> r.None?
    ensures r == Some(true) ==>
      Repeat(rules, 42, s, 0, fuel).Some? &&
      var a := Repeat(rules, 42, s, 0, fuel).value;
      a.1 <= |s| && Repeat(rules, 31, s, a.1, fuel).Some? &&
      var b := Repeat(rules, 31, s, a.1, fuel).value;
      42 in rules && 31 in rules && a.0 > b.0 > 0 &&
      Repeats(rules, rules[42], s[..a.1], a.0, fuel) && Repeats(rules, rules[31], s[a.1..], b.0, fuel)
  {
    match Repeat(rules, 42, s, 0, fuel)
    case None => None
    case Some(a) =>
      match Repeat(rules, 31, s, a.1, fuel)
      case None => None
      case Some(b) =>
        RepeatSound(rules, 42, s, 0, fuel);
        RepeatSound(rules, 31, s, a.1, fuel);
        assert s[0..a.1] == s[..a.1];
        assert s[a.1..|s|] == s[a.1..];
        Some(b.1 == |s| && a.0 > b.0 && b.0 > 0)
  }

  /** Rust's `Chars` iterator over a message: the text and the position of the next character. */
  class Cursor {
    const text: seq<char>
    var pos: nat

    predicate Valid()
      reads this
    {
      pos <= |text|
    }

    constructor (text: seq<char>, pos: nat)
      requires pos <= |text|
      ensures this.text == text && this.pos == pos && Valid()
    {
      this.text := text;
      this.pos := pos;
    }

    /** `Chars::next`: the next character, if any, and the cursor moves past it. */
    method Next() returns (c: Option<char>)
      requires Valid()
      modifies this
      ensures Valid()
      ensures old(pos) < |text| ==> c == Some(text[old(pos)]) && pos == old(pos) + 1
      ensures old(pos) == |text| ==> c == None && pos == old(pos)
    {
      if pos < |text| {
        c := Some(text[pos]);
        pos := pos + 1;
      } else {
        c := None;
      }
    }

    /** `iter.clone()`. */
    method Clone() returns (copy: Cursor)
      requires Valid()
      ensures fresh(copy) && copy.Valid() && copy.text == text && copy.pos == pos
    {
      copy := new Cursor(text, pos);
    }
  }

  /** `Rule::matches` on the shared cursor: `None` when it does not return. */
  method Matches(rules: Rules, r: Rule, iter: Cursor, fuel: nat) returns (ok: Option<bool>)
    requires iter.Valid()
    modifies iter
    ensures iter.Valid()
    ensures var o := Match(rules, r, iter.text, old(iter.pos), fuel);
      (o.None? ==> ok.None?) && (o.Some? ==> ok == Some(o.value.ok) && iter.pos == o.value.end)
    decreases fuel, r
  {
    match r
    case Atom(c) =>
      var chr := iter.Next();
      ok := Some(chr.Some? && chr.value == c);
    case Alternation(first, second) =>
      var cloned := iter.Clone();
      var m := Matches(rules, first, cloned, fuel);
      if m == Some(true) {
        iter.pos := cloned.pos;
        ok := m;
      } else if m.None? {
        ok := None;
      } else {
        ok := Matches(rules, second, iter, fuel);
      }
    case Sequence(ids) =>
      ghost var start := iter.pos;
      for i := 0 to |ids|
        invariant iter.Valid()
        invariant MatchAll(rules, ids, iter.text, start, fuel) == MatchAll(rules, ids[i..], iter.text, iter.pos, fuel)
      {
        if fuel == 0 || ids[i] !in rules {
          return None;
        }
        var m := Matches(rules, rules[ids[i]], iter, fuel - 1);
        assert ids[i..][1..] == ids[i + 1..];
        if m != Some(true) {
          return m;
        }
      }
      ok := Some(true);
  }

  /** The filter of part 1 for one message. */
  method AcceptsWhole(rules: Rules, message: seq<char>, fuel: nat) returns (accept: Option<bool>)
    ensures accept == WholeMatch(rules, message, fuel)
  {
    var iter := new Cursor(message, 0);
    if 0 !in rules {
      return None;
    }
    var ruleMatches := Matches(rules, rules[0], iter, fuel);
    var next := iter.Next();
    if ruleMatches.None? {
      return None;
    }
    accept := Some(ruleMatches.value && next.None?);
  }

  /** One counting loop of part 2: match rule `id` until it fails, restoring the cursor saved before the failed try. */
  method CountMatches(rules: Rules, id: nat, iter: Cursor, fuel: nat) returns (count: Option<nat>)
    requires iter.Valid()
    modifies iter
    ensures iter.Valid()
    ensures var g := Repeat(rules, id, iter.text, old(iter.pos), fuel);
      (g.None? ==> count.None?) && (g.Some? ==> count == Some(g.value.0) && iter.pos == g.value.1)
  {
    if id !in rules {
      return None;
    }
    var n := 0;
    ghost var start := iter.pos;
    while true
      invariant iter.Valid() && start <= iter.pos
      invariant Repeat(rules, id, iter.text, start, fuel).None? ==> Repeat(rules, id, iter.text, iter.pos, fuel).None?
      invariant Repeat(rules, id, iter.text, start, fuel).Some? ==>
        Repeat(rules, id, iter.text, iter.pos, fuel).Some? &&
        Repeat(rules, id, iter.text, start, fuel).value == (n + Repeat(rules, id, iter.text, iter.pos, fuel).value.0, Repeat(rules, id, iter.text, iter.pos, fuel).value.1)
      decreases |iter.text| - iter.pos
    {
      var save := iter.Clone();
      var m := Matches(rules, rules[id], iter, fuel);
      if m.None? {
        return None;
      }
      if !m.value {
        iter.pos := save.pos;
        return Some(n);
      }
      if iter.pos == save.pos {
        return None;
      }
      n := n + 1;
    }
  }

  /** The filter of part 2 for one message. */
  method AcceptsLooped(rules: Rules, message: seq<char>, fuel: nat) returns (accept: Option<bool>)
    ensures accept == LoopMatch(rules, message, fuel)
  {
    var iter := new Cursor(message, 0);
    var num42s := CountMatches(rules, 42, iter, fuel);
    if num42s.None? {
      return None;
    }
    var num31s := CountMatches(rules, 31, iter, fuel);
    if num31s.None? {
      return None;
    }
    var next := iter.Next();
    accept := Some(next.None? && num42s.value > num31s.value && num31s.value > 0);
  }
}
