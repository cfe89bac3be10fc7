/**
 * The homework evaluator of 2020 day 18. An expression is a first term
 * followed by `+` or `*` operations on terms; a term is a single digit or
 * a parenthesised expression. `eval` walks the characters once through a
 * shared cursor: a `(` starts a recursive call, a `)` ends the current
 * level. Without `plus_higher` the operations apply strictly left to
 * right. With it, a `*` stores the running sum in `sums` and starts a new
 * one, and the result is the product of the stored sums; a running sum of
 * zero is never stored.
 */
module Homework {
  import opened Common

  type DigitValue = d: nat | d < 10

  datatype Op = Add | Mul

  datatype Term = Digit(d: DigitValue) | Group(e: Expr)

  /** The operations still to apply, in order. */
  datatype Items = End | Then(op: Op, term: Term, next: Items)

  /** An expression: its first term, then the operations applied to it in order. */
  datatype Expr = Expr(first: Term, rest: Items)

  function DigitChar(d: DigitValue): (c: char)
    ensures '0' <= c <= '9' && c as int == '0' as int + d
  {
    ('0' as int + d) as char
  }

  function OpChar(op: Op): char
  {
    match op
    case Add => '+'
    case Mul => '*'
  }

  /** The characters of a term, as the input writes it with the whitespace removed. */
  function RenderTerm(t: Term): (r: seq<char>)
    ensures |r| > 0
    decreases t
  {
    match t
    case Digit(d) => [DigitChar(d)]
    case Group(e) => ['('] + Render(e) + [')']
  }

  function Render(e: Expr): seq<char>
    decreases e
  {
    RenderTerm(e.first) + RenderItems(e.rest)
  }

  function RenderItems(items: Items): (r: seq<char>)
    ensures items.Then? ==> |r| > 0
    decreases items
  {
    match items
    case End => []
    case Then(op, t, next) => [OpChar(op)] + RenderTerm(t) + RenderItems(next)
  }

  /** The running value and the stored sums of `eval`. */
  type State = (int, seq<int>)

  /** A running value and stored sums none of which is negative. */
  predicate NonNegative(state: State)
  {
    state.0 >= 0 && forall k | 0 <= k < |state.1| :: state.1[k] >= 0
  }

  /** One operation of `eval` on the running value, with the operand's value `num`. */
  function Step(state: State, op: Op, num: int, plusHigher: bool): (r: State)
    ensures NonNegative(state) && num >= 0 ==> NonNegative(r)
  {
    match op
    case Add => (state.0 + num, state.1)
    case Mul =>
      if plusHigher then (num, if state.0 != 0 then state.1 + [state.0] else state.1)
      else (state.0 * num, state.1)
  }

  /** The end of `eval`: the running value, or the product of the sums with the last one stored if it is not zero. */
  function Finish(state: State, plusHigher: bool): (r: int)
    ensures NonNegative(state) ==> r >= 0
  {
    assert NonNegative(state) ==> Product(state.1) >= 0 && Product(state.1 + [state.0]) >= 0 by {
      if NonNegative(state) {
        ProductNonNegative(state.1);
        ProductNonNegative(state.1 + [state.0]);
      }
    }
    if plusHigher then Product(if state.0 != 0 then state.1 + [state.0] else state.1) else state.0
  }

  function TermValue(t: Term, plusHigher: bool): (r: int)
    ensures r >= 0
    decreases t
  {
    match t
    case Digit(d) => d
    case Group(e) => Value(e, plusHigher)
  }

  /** What `eval` computes for an expression: never negative, since every digit is not. */
  function Value(e: Expr, plusHigher: bool): (r: int)
    ensures r >= 0
    decreases e
  {
    Finish(FoldItems((TermValue(e.first, plusHigher), []), e.rest, plusHigher), plusHigher)
  }

  function FoldItems(state: State, items: Items, plusHigher: bool): (r: State)
    ensures NonNegative(state) ==> NonNegative(r)
    decreases items
  {
    match items
    case End => state
    case Then(op, t, next) => FoldItems(Step(state, op, TermValue(t, plusHigher), plusHigher), next, plusHigher)
  }

  /** A product of numbers none of which is negative is not negative. */
  lemma {:induction false} ProductNonNegative(s: seq<int>)
    requires forall k | 0 <= k < |s| :: s[k] >= 0
    ensures Product(s) >= 0
  {
    if s != [] {
      ProductNonNegative(s[..|s| - 1]);
    }
  }

  function Apply(v: int, op: Op, num: int): int
  {
    match op
    case Add => v + num
    case Mul => v * num
  }

  /** The operations with one more at the end. */
  function Snoc(items: Items, op: Op, t: Term): Items
  {
    match items
    case End => Then(op, t, End)
    case Then(op', t', next) => Then(op', t', Snoc(next, op, t))
  }

  lemma {:induction false} FoldSnoc(state: State, items: Items, op: Op, t: Term, plusHigher: bool)
    ensures FoldItems(state, Snoc(items, op, t), plusHigher) ==
      Step(FoldItems(state, items, plusHigher), op, TermValue(t, plusHigher), plusHigher)
    decreases items
  {
    if items.Then? {
      FoldSnoc(Step(state, items.op, TermValue(items.term, plusHigher), plusHigher), items.next, op, t, plusHigher);
    }
  }

  /** Without `plus_higher`, the last operation applies to the value of everything before it: strictly left to right. */
  lemma LeftToRight(first: Term, items: Items, op: Op, t: Term)
    ensures Value(Expr(first, Snoc(items, op, t)), false) ==
      Apply(Value(Expr(first, items), false), op, TermValue(t, false))
  {
    FoldSnoc((TermValue(first, false), []), items, op, t, false);
  }

  /** `s` holds the characters `w` from position `i` on. */
  predicate At(s: seq<char>, i: nat, w: seq<char>)
  {
    i + |w| <= |s| && s[i..i + |w|] == w
  }

  lemma AtSplit(s: seq<char>, i: nat, a: seq<char>, b: seq<char>)
    requires At(s, i, a + b)
    ensures At(s, i, a) && At(s, i + |a|, b)
  {
    assert s[i..i + |a|] == (a + b)[..|a|];
    assert s[i + |a|..i + |a| + |b|] == (a + b)[|a|..];
  }

  /** An expression is written from `start` on, and is followed by the end of the line or a `)`. */
  predicate Rendered(s: seq<char>, start: nat, e: Expr)
  {
    At(s, start, Render(e)) && (start + |Render(e)| == |s| || s[start + |Render(e)|] == ')')
  }

  /** Where `eval` stands inside a written expression: the remaining operations are written from `pos` on. */
  predicate Midway(s: seq<char>, pos: nat, stop: nat, items: Items)
  {
    At(s, pos, RenderItems(items)) && pos + |RenderItems(items)| == stop
  }

  /** The first term, once read, leaves the operations still to read. */
  lemma FirstTerm(s: seq<char>, start: nat, e: Expr)
    requires Rendered(s, start, e)
    ensures At(s, start, RenderTerm(e.first))
    ensures Midway(s, start + |RenderTerm(e.first)|, start + |Render(e)|, e.rest)
    ensures e.first.Digit? ==> s[start] == DigitChar(e.first.d)
    ensures e.first.Group? ==> s[start] == '(' && Rendered(s, start + 1, e.first.e)
  {
    AtSplit(s, start, RenderTerm(e.first), RenderItems(e.rest));
    TermChars(s, start, e.first);
  }

  lemma TermChars(s: seq<char>, i: nat, t: Term)
    requires At(s, i, RenderTerm(t))
    ensures t.Digit? ==> s[i] == DigitChar(t.d)
    ensures t.Group? ==> s[i] == '(' && Rendered(s, i + 1, t.e)
  {
    assert s[i] == RenderTerm(t)[0];
    if t.Group? {
      AtSplit(s, i, ['('] + Render(t.e), [')']);
      AtSplit(s, i, ['('], Render(t.e));
    }
  }

  /** The next operation: its operator, then its term, then the rest. */
  lemma NextItem(s: seq<char>, pos: nat, stop: nat, items: Items)
    requires Midway(s, pos, stop, items) && items.Then?
    ensures s[pos] == OpChar(items.op)
    ensures At(s, pos + 1, RenderTerm(items.term))
    ensures Midway(s, pos + 1 + |RenderTerm(items.term)|, stop, items.next)
  {
    AtSplit(s, pos, [OpChar(items.op)] + RenderTerm(items.term), RenderItems(items.next));
    AtSplit(s, pos, [OpChar(items.op)], RenderTerm(items.term));
  }

  function DigitOf(c: char): (r: DigitValue)
    requires '0' <= c <= '9'
    ensures DigitChar(r) == c
  {
    c as int - '0' as int
  }

  /**
   * How far `eval` has read a written expression `e`: nothing yet, or the
   * first term and some operations, with `remaining` still to read from
   * `pos` on and the running state still to be folded over them.
   */
  predicate Reading(s: seq<char>, start: nat, e: Expr, plusHigher: bool, started: bool, remaining: Items, pos: nat, state: State)
  {
    if !started then pos == start && state == (0, []) && remaining == e.rest
    else Midway(s, pos, start + |Render(e)|, remaining) && Finish(FoldItems(state, remaining, plusHigher), plusHigher) == Value(e, plusHigher)
  }

  /** The character `eval` peeks at, inside a written expression. */
  lemma ReadingAt(s: seq<char>, start: nat, e: Expr, plusHigher: bool, started: bool, remaining: Items, pos: nat, state: State)
    requires Rendered(s, start, e) && Reading(s, start, e, plusHigher, started, remaining, pos, state) && pos < |s|
    ensures !started ==> At(s, pos, RenderTerm(e.first)) && (e.first.Group? ==> Rendered(s, pos + 1, e.first.e))
    ensures !started && e.first.Digit? ==> s[pos] == DigitChar(e.first.d)
    ensures !started && e.first.Group? ==> s[pos] == '('
    ensures started && remaining.Then? ==> s[pos] == OpChar(remaining.op)
    ensures started && remaining.End? ==> s[pos] == ')'
  {
    if !started {
      FirstTerm(s, start, e);
    } else if remaining.Then? {
      NextItem(s, pos, start + |Render(e)|, remaining);
    }
  }

  /** Reading the first term, whose value is `v`. */
  lemma ReadFirst(s: seq<char>, start: nat, e: Expr, plusHigher: bool, v: int)
    requires Rendered(s, start, e)
    requires e.first.Group? ==> v == Value(e.first.e, plusHigher)
    requires e.first.Digit? ==> v == e.first.d
    ensures e.first.Group? ==> Rendered(s, start + 1, e.first.e) && |RenderTerm(e.first)| == |Render(e.first.e)| + 2
    ensures e.first.Digit? ==> |RenderTerm(e.first)| == 1
    ensures Reading(s, start, e, plusHigher, true, e.rest, start + |RenderTerm(e.first)|, (v, []))
  {
    FirstTerm(s, start, e);
  }

  /** A digit or `(` inside a written expression is its first term, read before anything else. */
  lemma FirstAt(s: seq<char>, start: nat, e: Expr, plusHigher: bool, started: bool, remaining: Items, pos: nat, state: State)
    requires Rendered(s, start, e) && Reading(s, start, e, plusHigher, started, remaining, pos, state) && pos < |s|
    requires '0' <= s[pos] <= '9' || s[pos] == '('
    ensures !started && pos == start && remaining == e.rest && state == (0, [])
    ensures At(s, pos, RenderTerm(e.first)) && (e.first.Group? ==> Rendered(s, pos + 1, e.first.e))
  {
    ReadingAt(s, start, e, plusHigher, started, remaining, pos, state);
  }

  /** Reading a digit or `(` inside a written expression reads its first term. */
  lemma FirstStep(s: seq<char>, start: nat, e: Expr, plusHigher: bool, started: bool, remaining: Items, pos: nat, state: State,
                  first: Option<int>, end: nat)
    requires Rendered(s, start, e) && Reading(s, start, e, plusHigher, started, remaining, pos, state) && pos < |s|
    requires '0' <= s[pos] <= '9' || s[pos] == '('
    requires At(s, pos, RenderTerm(e.first)) && (e.first.Group? ==> Rendered(s, pos + 1, e.first.e)) ==>
      first == Some(TermValue(e.first, plusHigher)) && end == pos + |RenderTerm(e.first)|
    ensures first.Some? && Reading(s, start, e, plusHigher, true, remaining, end, (first.value, state.1))
  {
    FirstAt(s, start, e, plusHigher, started, remaining, pos, state);
    ReadFirst(s, start, e, plusHigher, first.value);
  }

  /** An operator inside a written expression starts one of the remaining operations. */
  lemma OperatorAt(s: seq<char>, start: nat, e: Expr, plusHigher: bool, started: bool, remaining: Items, pos: nat, state: State)
    requires Rendered(s, start, e) && Reading(s, start, e, plusHigher, started, remaining, pos, state) && pos < |s|
    requires s[pos] == '+' || s[pos] == '*'
    ensures started && remaining.Then?
  {
    ReadingAt(s, start, e, plusHigher, started, remaining, pos, state);
  }

  /** Reading an operator inside a written expression applies the next operation. */
  lemma OperatorStep(s: seq<char>, start: nat, e: Expr, plusHigher: bool, remaining: Items, pos: nat, state: State,
                     r: Option<State>, end: nat)
    requires Rendered(s, start, e) && Reading(s, start, e, plusHigher, true, remaining, pos, state) && remaining.Then?
    requires var t := remaining.term;
      s[pos] == OpChar(remaining.op) && At(s, pos + 1, RenderTerm(t)) && (t.Group? ==> Rendered(s, pos + 2, t.e)) ==>
        r == Some(Step(state, remaining.op, TermValue(t, plusHigher), plusHigher)) && end == pos + 1 + |RenderTerm(t)|
    ensures r.Some? && Reading(s, start, e, plusHigher, true, remaining.next, end, r.value)
  {
    ReadItem(s, start, e, plusHigher, remaining, pos, state, TermValue(remaining.term, plusHigher));
  }

  /** Inside a written expression, `eval` only ever peeks at a digit, a bracket or an operator. */
  lemma TokenAt(s: seq<char>, start: nat, e: Expr, plusHigher: bool, started: bool, remaining: Items, pos: nat, state: State)
    requires Rendered(s, start, e) && Reading(s, start, e, plusHigher, started, remaining, pos, state) && pos < |s|
    ensures '0' <= s[pos] <= '9' || s[pos] == '(' || s[pos] == ')' || s[pos] == '+' || s[pos] == '*'
  {
    ReadingAt(s, start, e, plusHigher, started, remaining, pos, state);
  }

  /** Reading the operator of the next operation, then its term, whose value is `num`. */
  lemma ReadItem(s: seq<char>, start: nat, e: Expr, plusHigher: bool, remaining: Items, pos: nat, state: State, num: int)
    requires Rendered(s, start, e) && Reading(s, start, e, plusHigher, true, remaining, pos, state) && remaining.Then?
    requires num == TermValue(remaining.term, plusHigher)
    ensures pos + 1 < |s|
    ensures s[pos] == OpChar(remaining.op) && At(s, pos + 1, RenderTerm(remaining.term))
    ensures remaining.term.Digit? ==> s[pos + 1] == DigitChar(remaining.term.d)
    ensures remaining.term.Group? ==> s[pos + 1] == '(' && Rendered(s, pos + 2, remaining.term.e)
    ensures remaining.term.Group? ==> |RenderTerm(remaining.term)| == |Render(remaining.term.e)| + 2
    ensures remaining.term.Digit? ==> |RenderTerm(remaining.term)| == 1
    ensures Reading(s, start, e, plusHigher, true, remaining.next, pos + 1 + |RenderTerm(remaining.term)|,
      Step(state, remaining.op, num, plusHigher))
  {
    NextItem(s, pos, start + |Render(e)|, remaining);
    TermChars(s, pos + 1, remaining.term);
  }

  /** `eval` stops at the end of the line or at a `)`, which inside a written expression come only after the whole of it. */
  lemma ReadDone(s: seq<char>, start: nat, e: Expr, plusHigher: bool, started: bool, remaining: Items, pos: nat, state: State)
    requires Rendered(s, start, e) && Reading(s, start, e, plusHigher, started, remaining, pos, state)
    requires pos == |s| || s[pos] == ')'
    ensures started && remaining == End && pos == start + |Render(e)|
    ensures Finish(state, plusHigher) == Value(e, plusHigher)
  {
    if pos < |s| {
      ReadingAt(s, start, e, plusHigher, started, remaining, pos, state);
    }
  }

  /**
   * The operand after an operator in `eval`: a `(` starts a recursive call,
   * a digit is read as its value. The end of the line (the `unwrap` of the
   * peek) and any other character panic: None here.
   */
  method ReadOperand(s: seq<char>, pos: nat, plusHigher: bool, ghost t: Term) returns (r: Option<int>, end: nat)
    requires pos <= |s|
    ensures pos <= end <= |s| && (r.Some? ==> pos < end)
    ensures At(s, pos, RenderTerm(t)) && (t.Group? ==> Rendered(s, pos + 1, t.e)) ==>
      r == Some(TermValue(t, plusHigher)) && end == pos + |RenderTerm(t)|
    decreases |s| - pos, 0
  {
    if pos == |s| {
      return None, pos;
    }
    if s[pos] == '(' {
      r, end := Eval(s, pos + 1, plusHigher, if t.Group? then t.e else Expr(t, End));
    } else if '0' <= s[pos] <= '9' {
      r, end := Some(DigitOf(s[pos]) as int), pos + 1;
    } else {
      r, end := None, pos;
    }
  }

  /**
   * An operator and its operand in `eval`, applied to the running value:
   * `+` adds; `*` multiplies, or with `plus_higher` stores a non-zero
   * running sum and starts a new one.
   */
  method Operation(s: seq<char>, pos: nat, state: State, plusHigher: bool, ghost op: Op, ghost t: Term) returns (r: Option<State>, end: nat)
    requires pos < |s| && (s[pos] == '+' || s[pos] == '*')
    ensures pos < end <= |s|
    ensures s[pos] == OpChar(op) && At(s, pos + 1, RenderTerm(t)) && (t.Group? ==> Rendered(s, pos + 2, t.e)) ==>
      r == Some(Step(state, op, TermValue(t, plusHigher), plusHigher)) && end == pos + 1 + |RenderTerm(t)|
    decreases |s| - pos, 0
  {
    var value, sums := state.0, state.1;
    var operand, after := ReadOperand(s, pos + 1, plusHigher, t);
    if operand.None? {
      return None, after;
    }
    var num := operand.value;
    if s[pos] == '+' {
      value := value + num;
    } else if plusHigher {
      if value != 0 {
        sums := sums + [value];
      }
      value := num;
    } else {
      value := value * num;
    }
    r, end := Some((value, sums)), after;
  }

  /**
   * One token of the loop of `eval`: the first operand, or an operator and
   * its operand. Inside a written expression it reads the next part and
   * keeps track of how far it has read.
   */
  method ReadToken(s: seq<char>, start: nat, pos: nat, state: State, plusHigher: bool,
                   ghost e: Expr, ghost started: bool, ghost remaining: Items)
    returns (r: Option<State>, end: nat, ghost started': bool, ghost remaining': Items)
    requires start <= pos < |s| && s[pos] != ')'
    ensures pos <= end <= |s| && (r.Some? ==> pos < end)
    ensures r.Some? && ('0' <= s[pos] <= '9' || s[pos] == '(') ==> r.value.1 == state.1
    ensures Rendered(s, start, e) && Reading(s, start, e, plusHigher, started, remaining, pos, state) ==>
      r.Some? && Reading(s, start, e, plusHigher, started', remaining', end, r.value)
    decreases |s| - pos, 1
  {
    ghost var wf := Rendered(s, start, e) && Reading(s, start, e, plusHigher, started, remaining, pos, state);
    started', remaining' := started, remaining;
    var tok := s[pos];
    if '0' <= tok <= '9' || tok == '(' {
      var first;
      first, end := ReadOperand(s, pos, plusHigher, e.first);
      if wf {
        FirstStep(s, start, e, plusHigher, started, remaining, pos, state, first, end);
      }
      if first.None? {
        return None, end, started', remaining';
      }
      r, started' := Some((first.value, state.1)), true;
    } else if tok == '+' || tok == '*' {
      ghost var op, t := Add, Digit(0);
      if wf {
        OperatorAt(s, start, e, plusHigher, started, remaining, pos, state);
        op, t := remaining.op, remaining.term;
      }
      r, end := Operation(s, pos, state, plusHigher, op, t);
      if wf {
        OperatorStep(s, start, e, plusHigher, remaining, pos, state, r, end);
        remaining' := remaining.next;
      }
    } else {
      if wf {
        TokenAt(s, start, e, plusHigher, started, remaining, pos, state);
      }
      r, end := None, pos;
    }
  }

  /**
   * `eval` from position `start`: returns the value and the position after
   * the last character read. A token that is not a digit, an operator or a
   * bracket, and an operator without a digit or `(` after it, panic: None
   * here. Read from a written expression `e`, it returns `e`'s value and
   * stops after `e` and its closing `)`.
   */
  method Eval(s: seq<char>, start: nat, plusHigher: bool, ghost e: Expr) returns (r: Option<int>, end: nat)
    requires start <= |s|
    ensures start <= end <= |s|
    ensures Rendered(s, start, e) ==>
      r == Some(Value(e, plusHigher)) &&
      end == start + |Render(e)| + (if start + |Render(e)| < |s| then 1 else 0)
    decreases |s| - start, 3
  {
    var state;
    state, end := ReadLevel(s, start, plusHigher, e);
    if state.None? {
      return None, end;
    }
    var value, sums := state.value.0, state.value.1;
    if plusHigher {
      if value != 0 {
        sums := sums + [value];
      }
      r := Some(Product(sums));
    } else {
      r := Some(value);
    }
  }

  /**
   * The loop of `eval`: the running value and the stored sums once the
   * current level ends, at the end of the line or after its `)`.
   */
  method ReadLevel(s: seq<char>, start: nat, plusHigher: bool, ghost e: Expr) returns (r: Option<State>, end: nat)
    requires start <= |s|
    ensures start <= end <= |s|
    ensures Rendered(s, start, e) ==>
      r.Some? && Finish(r.value, plusHigher) == Value(e, plusHigher) &&
      end == start + |Render(e)| + (if start + |Render(e)| < |s| then 1 else 0)
    decreases |s| - start, 2
  {
    ghost var wf := Rendered(s, start, e);
    ghost var started := false;
    ghost var remaining := e.rest;
    var state: State := (0, []);
    var pos := start;
    while pos < |s| && s[pos] != ')'
      invariant start <= pos <= |s|
      invariant wf ==> Reading(s, start, e, plusHigher, started, remaining, pos, state)
      decreases |s| - pos
    {
      var next, after;
      next, after, started, remaining := ReadToken(s, start, pos, state, plusHigher, e, started, remaining);
      if next.None? {
        return None, after;
      }
      state, pos := next.value, after;
    }
    if wf {
      ReadDone(s, start, e, plusHigher, started, remaining, pos, state);
    }
    r, end := Some(state), if pos < |s| then pos + 1 else pos;
  }

  /*
   * With `plus_higher`, a running sum of 0 is taken for "nothing stored
   * yet" and never pushed, so a real 0 before a `*` is dropped: `0*5`
   * evaluates to 5. The intended reading is that addition binds tighter
   * than multiplication: the value is the product of the sums between the
   * `*`s.
   */

  /** One operation when addition binds tighter: `*` always stores the running sum. */
  function IntendedStep(state: State, op: Op, num: int): State
  {
    match op
    case Add => (state.0 + num, state.1)
    case Mul => (num, state.1 + [state.0])
  }

  function IntendedTerm(t: Term): int
    decreases t
  {
    match t
    case Digit(d) => d
    case Group(e) => IntendedValue(e)
  }

  /** The value of an expression when addition binds tighter than multiplication. */
  function IntendedValue(e: Expr): int
    decreases e
  {
    var last := IntendedFold((IntendedTerm(e.first), []), e.rest);
    Product(last.1 + [last.0])
  }

  function IntendedFold(state: State, items: Items): State
    decreases items
  {
    match items
    case End => state
    case Then(op, t, next) => IntendedFold(IntendedStep(state, op, IntendedTerm(t)), next)
  }

  lemma {:induction false} IntendedFoldSnoc(state: State, items: Items, op: Op, t: Term)
    ensures IntendedFold(state, Snoc(items, op, t)) == IntendedStep(IntendedFold(state, items), op, IntendedTerm(t))
    decreases items
  {
    if items.Then? {
      IntendedFoldSnoc(IntendedStep(state, items.op, IntendedTerm(items.term)), items.next, op, t);
    }
  }

  /** A `*` at the end multiplies the value of everything before it by its operand. */
  lemma IntendedMulLast(first: Term, items: Items, t: Term)
    ensures IntendedValue(Expr(first, Snoc(items, Mul, t))) == IntendedValue(Expr(first, items)) * IntendedTerm(t)
  {
    var before := IntendedFold((IntendedTerm(first), []), items);
    IntendedFoldSnoc((IntendedTerm(first), []), items, Mul, t);
    ProductAppend(before.1 + [before.0], [IntendedTerm(t)]);
    assert Product([IntendedTerm(t)]) == IntendedTerm(t) by {
      assert [IntendedTerm(t)][..0] == [];
    }
  }

  /** A `+` at the end adds its operand to the last sum. */
  lemma IntendedAddLast(first: Term, items: Items, t: Term)
    ensures var before := IntendedFold((IntendedTerm(first), []), items);
      IntendedValue(Expr(first, Snoc(items, Add, t))) == Product(before.1) * (before.0 + IntendedTerm(t))
  {
    var before := IntendedFold((IntendedTerm(first), []), items);
    IntendedFoldSnoc((IntendedTerm(first), []), items, Add, t);
    var v := before.0 + IntendedTerm(t);
    assert Product(before.1 + [v]) == Product(before.1) * v;
  }

  /** No digit of the expression is 0. */
  predicate ZeroFree(e: Expr)
    decreases e
  {
    TermZeroFree(e.first) && ItemsZeroFree(e.rest)
  }

  predicate TermZeroFree(t: Term)
    decreases t
  {
    match t
    case Digit(d) => d != 0
    case Group(e) => ZeroFree(e)
  }

  predicate ItemsZeroFree(items: Items)
    decreases items
  {
    match items
    case End => true
    case Then(_, t, next) => TermZeroFree(t) && ItemsZeroFree(next)
  }

  /** Every element is at least 1. */
  predicate Positive(s: seq<int>)
  {
    forall i | 0 <= i < |s| :: s[i] >= 1
  }

  lemma {:induction false} ProductPositive(s: seq<int>)
    requires Positive(s)
    ensures Product(s) >= 1
  {
    if s != [] {
      ProductPositive(s[..|s| - 1]);
      var p := Product(s[..|s| - 1]);
      assert p * s[|s| - 1] >= p;
    }
  }

  /** Without a 0 digit, `eval` with `plus_higher` computes the intended value, and that value is at least 1. */
  lemma {:induction false} AsWrittenMatchesIntended(e: Expr)
    requires ZeroFree(e)
    ensures Value(e, true) == IntendedValue(e) >= 1
    decreases e, 1
  {
    TermMatches(e.first);
    var last := IntendedFold((IntendedTerm(e.first), []), e.rest);
    FoldMatches((IntendedTerm(e.first), []), e.rest);
    ProductPositive(last.1 + [last.0]);
  }

  lemma {:induction false} TermMatches(t: Term)
    requires TermZeroFree(t)
    ensures TermValue(t, true) == IntendedTerm(t) >= 1
    decreases t, 2
  {
    if t.Group? {
      AsWrittenMatchesIntended(t.e);
    }
  }

  lemma {:induction false} FoldMatches(state: State, items: Items)
    requires ItemsZeroFree(items) && state.0 >= 1 && Positive(state.1)
    ensures FoldItems(state, items, true) == IntendedFold(state, items)
    ensures IntendedFold(state, items).0 >= 1 && Positive(IntendedFold(state, items).1)
    decreases items
  {
    if items.Then? {
      TermMatches(items.term);
      var next := IntendedStep(state, items.op, IntendedTerm(items.term));
      assert Step(state, items.op, TermValue(items.term, true), true) == next;
      FoldMatches(next, items.next);
    }
  }

  /** `0*5`, as written: `eval` with `plus_higher` gives 5 where addition-before-multiplication gives 0. */
  lemma ZeroDroppedBeforeTimes()
    ensures var e := Expr(Digit(0), Then(Mul, Digit(5), End));
      Render(e) == "0*5" && Value(e, true) == 5 && IntendedValue(e) == 0
  {
    var e := Expr(Digit(0), Then(Mul, Digit(5), End));
    assert DigitChar(0) == '0' && DigitChar(5) == '5';
    assert RenderItems(e.rest) == "*5";
    assert FoldItems((0, []), e.rest, true) == (5, []);
    var empty: seq<int> := [];
    assert empty + [0] == [0];
    assert IntendedStep((0, empty), Mul, 5) == (5, [0]);
    assert IntendedFold((0, []), e.rest) == (5, [0]);
    assert [0] + [5] == [0, 5];
    assert IntendedValue(e) == Product([0, 5]);
    assert Product([5]) == 5 by {
      assert [5][..0] == [];
    }
    assert Product([0, 5]) == 0 by {
      assert [0, 5][..1] == [0];
      assert [0][..0] == [];
    }
  }
}
