/**
 * The handheld game console of 2020 day 8: a program of `nop`, `acc` and
 * `jmp` instructions run by an accumulator machine that stops the first
 * time an instruction is about to run twice. Part 2 repairs the program by
 * swapping one `nop` for a `jmp` (or the reverse) until it terminates.
 *
 * `Eval` is the specification of `eval_no_repeat`; `Program.EvalNoRepeat`
 * is the loop with its visited set, and `Part2` the in-place patch search.
 */
module Handheld {
  import opened Common
  import Text

  datatype Instruction = Nop(n: int) | Jmp(n: int) | Acc(n: int)

  /**
   * How `eval_no_repeat` ends. `Crash` is the index panic when the
   * instruction pointer has become negative.
   */
  datatype ReturnState = Repeat(acc: int) | Return(acc: int) | Crash(at: int)

  /** The outcome of an evaluation together with the machine's final registers. */
  datatype Outcome = Outcome(state: ReturnState, ip: int, acc: int)

  /** The valid instruction indices of a program of length `n`. */
  function Indices(n: nat): (r: set<int>)
    ensures forall i :: i in r <==> 0 <= i < n
    ensures |r| == n
  {
    if n == 0 then {} else
      var r := Indices(n - 1) + {n - 1};
      assert n - 1 !in Indices(n - 1);
      r
  }

  /** A set of indices has at most as many elements as there are indices. */
  lemma {:induction false} IndicesBound(s: set<int>, n: nat)
    requires s <= Indices(n)
    ensures |s| <= n
  {
    if n == 0 {
      assert s == {};
    } else {
      var rest := s - {n - 1};
      assert rest <= Indices(n - 1);
      IndicesBound(rest, n - 1);
      assert s <= rest + {n - 1};
    }
  }

  /** One instruction: its new instruction pointer and accumulator. */
  function Step(instr: Instruction, ip: int, acc: int): (r: (int, int))
    ensures instr.Acc? ==> r == (ip + 1, acc + instr.n)
    ensures instr.Jmp? ==> r.0 - ip == instr.n && r.1 == acc
    ensures instr.Nop? ==> r == (ip + 1, acc)
  {
    match instr
    case Acc(n) => (ip + 1, acc + n)
    case Jmp(n) => (ip + (n - 1) + 1, acc)
    case Nop(_) => (ip + 1, acc)
  }

  /**
   * `eval_no_repeat` from registers `ip`, `acc` with the instructions in
   * `visited` already run: return once `ip` leaves the program at the end,
   * report `Repeat` when it reaches an instruction already run.
   */
  function Eval(instrs: seq<Instruction>, ip: int, acc: int, visited: set<int>): (o: Outcome)
    requires visited <= Indices(|instrs|)
    ensures o.state.Return? ==> o.ip >= |instrs| && o.state.acc == o.acc
    ensures o.state.Repeat? ==> 0 <= o.ip < |instrs| && o.state.acc == o.acc
    ensures o.state.Crash? ==> o.ip < 0 && o.state.at == o.ip
    decreases |instrs| - |visited|
  {
    if ip >= |instrs| then Outcome(Return(acc), ip, acc)
    else if ip in visited then Outcome(Repeat(acc), ip, acc)
    else if ip < 0 then Outcome(Crash(ip), ip, acc)
    else
      IndicesBound(visited + {ip}, |instrs|);
      var (ip', acc') := Step(instrs[ip], ip, acc);
      Eval(instrs, ip', acc', visited + {ip})
  }

  /** One instruction of `Eval`: run it, and mark it visited. */
  lemma EvalStep(instrs: seq<Instruction>, ip: int, acc: int, visited: set<int>)
    requires visited <= Indices(|instrs|) && 0 <= ip < |instrs| && ip !in visited
    ensures visited + {ip} <= Indices(|instrs|) && |visited| < |visited + {ip}| <= |instrs|
    ensures var next := Step(instrs[ip], ip, acc);
      Eval(instrs, ip, acc, visited) == Eval(instrs, next.0, next.1, visited + {ip})
  {
    IndicesBound(visited + {ip}, |instrs|);
  }

  /** The instruction indices `Eval` executes, in order. */
  function Trace(instrs: seq<Instruction>, ip: int, acc: int, visited: set<int>): seq<int>
    requires visited <= Indices(|instrs|)
    decreases |instrs| - |visited|
  {
    if ip >= |instrs| || ip in visited || ip < 0 then []
    else
      IndicesBound(visited + {ip}, |instrs|);
      var (ip', acc') := Step(instrs[ip], ip, acc);
      [ip] + Trace(instrs, ip', acc', visited + {ip})
  }

  /** The indices `t` are distinct valid indices below `n`, none of them in `visited`. */
  predicate RunsOnce(t: seq<int>, visited: set<int>, n: int)
  {
    (forall k | 0 <= k < |t| :: 0 <= t[k] < n && t[k] !in visited) &&
    (forall j, k | 0 <= j < k < |t| :: t[j] != t[k])
  }

  /**
   * No instruction runs twice: the executed indices are distinct valid
   * indices, none of them among those run before.
   */
  lemma {:induction false} TraceRunsEachOnce(instrs: seq<Instruction>, ip: int, acc: int, visited: set<int>)
    requires visited <= Indices(|instrs|)
    ensures RunsOnce(Trace(instrs, ip, acc, visited), visited, |instrs|)
    decreases |instrs| - |visited|
  {
    if !(ip >= |instrs| || ip in visited || ip < 0) {
      IndicesBound(visited + {ip}, |instrs|);
      var (ip', acc') := Step(instrs[ip], ip, acc);
      TraceRunsEachOnce(instrs, ip', acc', visited + {ip});
      var rest := Trace(instrs, ip', acc', visited + {ip});
      var t := Trace(instrs, ip, acc, visited);
      assert t == [ip] + rest;
      forall k | 0 < k < |t| ensures t[k] == rest[k - 1] && t[k] !in visited + {ip} {
        assert rest[k - 1] !in visited + {ip};
      }
    }
  }

  /** A `Repeat` stops at an index that had already run: one visited before, or one on the trace. */
  lemma {:induction false} RepeatRevisits(instrs: seq<Instruction>, ip: int, acc: int, visited: set<int>)
    requires visited <= Indices(|instrs|)
    requires Eval(instrs, ip, acc, visited).state.Repeat?
    ensures Eval(instrs, ip, acc, visited).ip in visited ||
            Eval(instrs, ip, acc, visited).ip in Trace(instrs, ip, acc, visited)
    decreases |instrs| - |visited|
  {
    if !(ip >= |instrs| || ip in visited || ip < 0) {
      IndicesBound(visited + {ip}, |instrs|);
      var (ip', acc') := Step(instrs[ip], ip, acc);
      RepeatRevisits(instrs, ip', acc', visited + {ip});
    }
  }

  /** `n` steps of the machine without any loop detection. */
  function Steps(instrs: seq<Instruction>, ip: int, acc: int, n: nat): (int, int)
    decreases n
  {
    if n == 0 || !(0 <= ip < |instrs|) then (ip, acc)
    else
      var (ip', acc') := Step(instrs[ip], ip, acc);
      Steps(instrs, ip', acc', n - 1)
  }

  /** The registers `Eval` stops with are those of plain execution for as many steps as it ran. */
  lemma {:induction false} EvalIsPlainExecution(instrs: seq<Instruction>, ip: int, acc: int, visited: set<int>)
    requires visited <= Indices(|instrs|)
    ensures var o := Eval(instrs, ip, acc, visited);
      Steps(instrs, ip, acc, |Trace(instrs, ip, acc, visited)|) == (o.ip, o.acc)
    decreases |instrs| - |visited|
  {
    if !(ip >= |instrs| || ip in visited || ip < 0) {
      IndicesBound(visited + {ip}, |instrs|);
      var (ip', acc') := Step(instrs[ip], ip, acc);
      EvalIsPlainExecution(instrs, ip', acc', visited + {ip});
    }
  }

  /** The machine: a borrowed program and the two registers it updates. */
  class Program {
    const instrs: seq<Instruction>
    var ip: int
    var acc: int

    constructor (instrs: seq<Instruction>)
      ensures this.instrs == instrs && ip == 0 && acc == 0
    {
      this.instrs := instrs;
      ip := 0;
      acc := 0;
    }

    /** `eval_no_repeat`: run until the program ends or an instruction is about to run twice. */
    method EvalNoRepeat() returns (r: ReturnState)
      modifies this
      ensures var o := Eval(instrs, old(ip), old(acc), {});
        r == o.state && ip == o.ip && acc == o.acc
    {
      var visited: set<int> := {};
      while ip < |instrs|
        invariant visited <= Indices(|instrs|)
        invariant Eval(instrs, ip, acc, visited) == Eval(instrs, old(ip), old(acc), {})
        decreases |instrs| - |visited|
      {
        if ip in visited {
          return Repeat(acc);
        }
        if ip < 0 {
          return Crash(ip);
        }
        EvalStep(instrs, ip, acc, visited);
        var instr := instrs[ip];
        ghost var next := Step(instr, ip, acc);
        visited := visited + {ip};
        match instr {
          case Acc(n) => acc := acc + n;
          case Jmp(n) => ip := ip + (n - 1);
          case Nop(_) =>
        }
        ip := ip + 1;
        assert ip == next.0 && acc == next.1;
      }
      return Return(acc);
    }
  }

  /** `part1`: the accumulator when the first instruction repeats; None if the program returns or crashes (a panic). */
  function Part1(input: seq<Instruction>): (r: Option<int>)
    ensures r.Some? <==> Eval(input, 0, 0, {}).state.Repeat?
    ensures r.Some? ==> r.value == Eval(input, 0, 0, {}).acc
  {
    match Eval(input, 0, 0, {}).state
    case Repeat(n) => Some(n)
    case _ => None
  }

  /** The instruction part 2 tries in place of `instr`: `nop` and `jmp` swap, `acc` stays. */
  function Swap(instr: Instruction): (r: Instruction)
    ensures r.n == instr.n
    ensures instr.Nop? <==> r.Jmp?
    ensures instr.Acc? <==> r.Acc?
  {
    match instr
    case Nop(n) => Jmp(n)
    case Jmp(n) => Nop(n)
    case Acc(n) => Acc(n)
  }

  /** Part 2 tries index `i`: not an `acc`, and the swap is not the self-loop `jmp +0`. */
  predicate Candidate(input: seq<Instruction>, i: int)
    requires 0 <= i < |input|
  {
    !input[i].Acc? && Swap(input[i]) != Jmp(0)
  }

  /** The outcome of running `input` with instruction `i` swapped. */
  function Patched(input: seq<Instruction>, i: int): Outcome
    requires 0 <= i < |input|
  {
    Eval(input[i := Swap(input[i])], 0, 0, {})
  }

  /**
   * The search of `part2` from index `i`: the result of the first candidate
   * patch that returns. None stands for a panic: a patched program that
   * crashes, or no patch that works (`unreachable!`).
   */
  function RepairFrom(input: seq<Instruction>, i: nat): (r: Option<int>)
    requires i <= |input|
    decreases |input| - i
  {
    if i == |input| then None
    else if !Candidate(input, i) then RepairFrom(input, i + 1)
    else match Patched(input, i).state
      case Return(n) => Some(n)
      case Repeat(_) => RepairFrom(input, i + 1)
      case Crash(_) => None
  }

  /**
   * A repair is the accumulator of a patched program that returns, at the
   * first candidate index that does not repeat; every earlier candidate
   * repeats. Without a repair, a candidate that would return comes after
   * one that crashes.
   */
  lemma {:induction false} RepairFromSound(input: seq<Instruction>, i: nat)
    requires i <= |input|
    ensures RepairFrom(input, i).Some? ==>
      exists j | i <= j < |input| ::
        Candidate(input, j) && Patched(input, j).state == Return(RepairFrom(input, i).value) &&
        forall k | i <= k < j :: Candidate(input, k) ==> Patched(input, k).state.Repeat?
    ensures RepairFrom(input, i).None? ==>
      forall k | i <= k < |input| :: Candidate(input, k) && Patched(input, k).state.Return? ==>
        exists j | i <= j < k :: Candidate(input, j) && Patched(input, j).state.Crash?
    decreases |input| - i
  {
    if i < |input| {
      RepairFromSound(input, i + 1);
      if Candidate(input, i) && Patched(input, i).state.Return? {
        assert Candidate(input, i) && Patched(input, i).state == Return(RepairFrom(input, i).value);
      }
    }
  }

  /**
   * `part2`: patch one instruction at a time in a working copy, run it, and
   * restore the instruction when the patched program repeats.
   */
  method Part2(input: seq<Instruction>) returns (r: Option<int>)
    ensures r == RepairFrom(input, 0)
  {
    var instrs := input;
    for i := 0 to |input|
      invariant instrs == input
      invariant RepairFrom(input, 0) == RepairFrom(input, i)
    {
      var original := instrs[i];
      if original.Acc? {
        continue;
      }
      var patch := Swap(original);
      if patch == Jmp(0) {
        continue;
      }
      instrs := instrs[i := patch];
      var program := new Program(instrs);
      var state := program.EvalNoRepeat();
      match state
      case Repeat(_) => instrs := instrs[i := original];
      case Return(n) => return Some(n);
      case Crash(_) => return None;
    }
    return None;
  }

  /** The name `from_str` matches for each kind of instruction. */
  function Mnemonic(instr: Instruction): (m: string)
    ensures |m| == 3 && ' ' !in m
  {
    match instr
    case Nop(_) => "nop"
    case Acc(_) => "acc"
    case Jmp(_) => "jmp"
  }

  /** `Instruction::from_str`: a name, one space, and a signed 64-bit number; None where it panics. */
  function ParseInstruction(s: string): (r: Option<Instruction>)
    ensures r.Some? ==> exists num :: s == Mnemonic(r.value) + " " + num && Text.Parse(Text.I64, num) == Some(r.value.n)
  {
    match Text.Find(s, " ")
    case None => None
    case Some(space) =>
      var name, num := s[..space], s[space + 1..];
      assert s == name + " " + num;
      match Text.Parse(Text.I64, num)
      case None => None
      case Some(n) =>
        if name == "nop" then Some(Nop(n))
        else if name == "acc" then Some(Acc(n))
        else if name == "jmp" then Some(Jmp(n))
        else None
  }

  /** The converse: an instruction's name, a space and a number that parses as an i64 parse to that instruction. */
  lemma ParseMnemonic(instr: Instruction, num: string)
    requires Text.Parse(Text.I64, num) == Some(instr.n)
    ensures ParseInstruction(Mnemonic(instr) + " " + num) == Some(instr)
  {
    var s := Mnemonic(instr) + " " + num;
    assert Text.OccursAt(s, " ", 3);
    forall j | 0 <= j < 3
      ensures !Text.OccursAt(s, " ", j)
    {
      assert s[j] == Mnemonic(instr)[j];
      Text.FirstDiffers(s, " ", j);
    }
    assert Text.Find(s, " ") == Some(3);
    assert s[..3] == Mnemonic(instr) && s[4..] == num;
  }
}
