/**
 * The IntCode computer: a memory of signed 64-bit words, an instruction
 * pointer and a halted flag. `step` executes one instruction (1 add,
 * 2 multiply, 99 halt) whose operands are addresses, `run` steps until the
 * machine halts, and a program is loaded from comma-separated text with 16
 * zero words of scratch space after it.
 *
 * `Machine` and the functions over it are the specification; the class
 * `Computer` is the mutable machine whose methods are proved against them.
 */
module IntCode {
  import opened Common
  import Text

  /** `MemItem`: a signed 64-bit word. */
  newtype Word = x: int | -0x8000_0000_0000_0000 <= x < 0x8000_0000_0000_0000

  /** The number of zero words that `new` reserves after the code. */
  const ExtraCapacity: nat := 16

  /** The ways in which an operation fails. */
  datatype Error =
    | ReadFailed(addr: nat)                  // no memory cell at addr
    | NegativeAddress(value: Word)           // an operand word does not convert to usize
    | WriteFailed(addr: nat, size: nat)      // no memory cell at addr; size is the memory length
    | AlreadyHalted                          // step on a halted computer
    | UnknownInstruction(instr: Word, at: nat)
    | Overflow(a: Word, b: Word)             // the add or multiply leaves the i64 range (a panic)
    | OutOfFuel                              // run was cut off after the given number of steps

  datatype Result<T> = Ok(value: T) | Err(error: Error)

  /** The two arithmetic instructions share one handler, parameterised by the operation. */
  datatype Op = Add | Mul

  /** The instruction word of an arithmetic operation. */
  function OpCode(op: Op): Word
  {
    if op == Add then 1 else 2
  }

  /** The operation applied to two words in mathematical integers, or None when the result is not a word. */
  function Apply(op: Op, a: Word, b: Word): (r: Option<Word>)
    ensures r.Some? ==> r.value as int == if op == Add then a as int + b as int else a as int * b as int
  {
    var v := if op == Add then a as int + b as int else a as int * b as int;
    if -0x8000_0000_0000_0000 <= v < 0x8000_0000_0000_0000 then Some(v as Word) else None
  }

  /** The state of a computer as a value. */
  datatype Machine = Machine(memory: seq<Word>, ip: nat, halted: bool)

  /** `n` zero words. */
  function Zeros(n: nat): (z: seq<Word>)
    ensures |z| == n && forall i | 0 <= i < n :: z[i] == 0
  {
    seq(n, _ => 0)
  }

  /** The machine `new_with_extra_capacity(code, space)` builds. */
  function Load(code: seq<Word>, space: nat): (m: Machine)
    ensures |m.memory| == |code| + space && m.memory[..|code|] == code
    ensures forall i | |code| <= i < |m.memory| :: m.memory[i] == 0
    ensures m.ip == 0 && !m.halted
  {
    Machine(code + Zeros(space), 0, false)
  }

  /** `read_addr`: the word at `addr` used as an address. */
  function AddressAt(memory: seq<Word>, addr: nat): (r: Result<nat>)
    ensures r.Ok? <==> addr < |memory| && memory[addr] >= 0
    ensures r.Ok? ==> r.value == memory[addr] as int
    ensures addr >= |memory| ==> r == Err(ReadFailed(addr))
  {
    if addr >= |memory| then Err(ReadFailed(addr))
    else if memory[addr] < 0 then Err(NegativeAddress(memory[addr]))
    else Ok(memory[addr] as nat)
  }

  /**
   * `arith_op`: read both operands, write the result to `dest` and advance
   * the instruction pointer by 4. The first failure is returned and then
   * nothing has changed.
   */
  function ArithResult(m: Machine, op: Op, arg1: nat, arg2: nat, dest: nat): (r: (Result<()>, Machine))
    ensures r.0.Err? ==> r.1 == m
    ensures r.0.Ok? <==> arg1 < |m.memory| && arg2 < |m.memory| && dest < |m.memory|
                         && Apply(op, m.memory[arg1], m.memory[arg2]).Some?
    ensures r.0.Ok? ==> r.1 == m.(memory := m.memory[dest := Apply(op, m.memory[arg1], m.memory[arg2]).value],
                                  ip := m.ip + 4)
  {
    if arg1 >= |m.memory| then (Err(ReadFailed(arg1)), m)
    else if arg2 >= |m.memory| then (Err(ReadFailed(arg2)), m)
    else
      var a, b := m.memory[arg1], m.memory[arg2];
      match Apply(op, a, b)
      case None => (Err(Overflow(a, b)), m)
      case Some(v) =>
        if dest >= |m.memory| then (Err(WriteFailed(dest, |m.memory|)), m)
        else (Ok(()), m.(memory := m.memory[dest := v], ip := m.ip + 4))
  }

  /** The three operand addresses of the instruction at `ip`, read in order. */
  function Operands(m: Machine): (r: Result<(nat, nat, nat)>)
    ensures r.Ok? ==>
              AddressAt(m.memory, m.ip + 1) == Ok(r.value.0) &&
              AddressAt(m.memory, m.ip + 2) == Ok(r.value.1) &&
              AddressAt(m.memory, m.ip + 3) == Ok(r.value.2)
  {
    match (AddressAt(m.memory, m.ip + 1), AddressAt(m.memory, m.ip + 2), AddressAt(m.memory, m.ip + 3))
    case (Err(e), _, _) => Err(e)
    case (Ok(_), Err(e), _) => Err(e)
    case (Ok(_), Ok(_), Err(e)) => Err(e)
    case (Ok(a), Ok(b), Ok(d)) => Ok((a, b, d))
  }

  /**
   * `step`: execute the instruction at `ip`. Returns whether the machine is
   * now halted, or the error; a step that fails changes nothing.
   */
  function StepResult(m: Machine): (r: (Result<bool>, Machine))
    ensures r.0.Err? ==> r.1 == m
    ensures m.halted ==> r == (Err(AlreadyHalted), m)
    ensures |r.1.memory| == |m.memory|
    ensures r.0.Ok? ==> r.0.value == r.1.halted
    ensures r.0 == Ok(true) ==> !m.halted && m.ip < |m.memory| && m.memory[m.ip] == 99
                                && r.1 == m.(halted := true)
    ensures r.0 == Ok(false) ==> r.1.ip == m.ip + 4 && m.ip < |m.memory| && m.memory[m.ip] in {1, 2}
    ensures !m.halted && m.ip < |m.memory| && m.memory[m.ip] !in {1, 2, 99} ==>
              r.0 == Err(UnknownInstruction(m.memory[m.ip], m.ip))
  {
    if m.halted then (Err(AlreadyHalted), m)
    else if m.ip >= |m.memory| then (Err(ReadFailed(m.ip)), m)
    else
      var instr := m.memory[m.ip];
      if instr == 1 || instr == 2 then
        match Operands(m)
        case Err(e) => (Err(e), m)
        case Ok((a, b, d)) =>
          var (res, m') := ArithResult(m, if instr == 1 then Add else Mul, a, b, d);
          if res.Err? then (Err(res.error), m') else (Ok(m'.halted), m')
      else if instr == 99 then (Ok(true), m.(halted := true))
      else (Err(UnknownInstruction(instr, m.ip)), m)
  }

  /**
   * `run` with at most `fuel` steps: Ok once a step reports the machine
   * halted, the first error otherwise, OutOfFuel if the steps run out.
   */
  function RunResult(m: Machine, fuel: nat): (r: (Result<()>, Machine))
    ensures r.0.Ok? ==> r.1.halted
    ensures |r.1.memory| == |m.memory|
    decreases fuel
  {
    if fuel == 0 then (Err(OutOfFuel), m)
    else
      var (s, m') := StepResult(m);
      if s.Err? then (Err(s.error), m')
      else if s.value then (Ok(()), m')
      else RunResult(m', fuel - 1)
  }

  /** Once `run` has an outcome other than running out of steps, more fuel does not change it. */
  lemma {:induction false} RunFuelIrrelevant(m: Machine, fuel: nat, more: nat)
    requires RunResult(m, fuel).0 != Err(OutOfFuel)
    requires fuel <= more
    ensures RunResult(m, more) == RunResult(m, fuel)
    decreases fuel
  {
    var (s, m') := StepResult(m);
    if s.Ok? && !s.value {
      RunFuelIrrelevant(m', fuel - 1, more - 1);
    }
  }

  /** A machine that has halted stays halted: stepping fails, so running fails without change. */
  lemma {:induction false} RunHaltedFails(m: Machine, fuel: nat)
    requires m.halted && fuel > 0
    ensures RunResult(m, fuel) == (Err(AlreadyHalted), m)
  {
  }

  /**
   * An add or multiply that succeeds writes the result of the operation on
   * the two operand cells into the destination cell and leaves every other
   * cell as it was.
   */
  lemma StepWritesOnlyDest(m: Machine)
    requires StepResult(m).0 == Ok(false)
    ensures Operands(m).Ok?
    ensures var (a, b, d) := Operands(m).value;
      var op := if m.memory[m.ip] == 1 then Add else Mul;
      var m' := StepResult(m).1;
      a < |m.memory| && b < |m.memory| && d < |m.memory| &&
      Apply(op, m.memory[a], m.memory[b]).Some? &&
      m'.memory[d] == Apply(op, m.memory[a], m.memory[b]).value &&
      forall i | 0 <= i < |m.memory| && i != d :: m'.memory[i] == m.memory[i]
  {
    var (a, b, d) := Operands(m).value;
    var op := if m.memory[m.ip] == 1 then Add else Mul;
    assert ArithResult(m, op, a, b, d).0.Ok? && StepResult(m).1 == ArithResult(m, op, a, b, d).1;
  }

  /** `1,0,0,0,99` adds cell 0 to itself and halts after two steps. */
  lemma ExampleAdd()
    ensures RunResult(Load([1, 0, 0, 0, 99], ExtraCapacity), 2).0 == Ok(())
    ensures RunResult(Load([1, 0, 0, 0, 99], ExtraCapacity), 2).1.memory[0] == 2
  {
  }

  /** `1,1,1,4,99,5,6,0,99` rewrites its own second instruction into a multiply. */
  lemma ExampleSelfModifying()
    ensures RunResult(Load([1, 1, 1, 4, 99, 5, 6, 0, 99], ExtraCapacity), 3).0 == Ok(())
    ensures RunResult(Load([1, 1, 1, 4, 99, 5, 6, 0, 99], ExtraCapacity), 3).1.memory[..5] == [30, 1, 1, 4, 2]
  {
  }

  /** `from_str`: the words of the trimmed text split at commas, or None if a piece is not an i64. */
  function ParseProgram(s: string): (r: Option<seq<Word>>)
    ensures r.Some? <==> Text.ParseAll(Text.I64, Text.Split(Text.Trim(s), ',')).Some?
    ensures r.Some? ==> |r.value| == |Text.Split(Text.Trim(s), ',')|
    ensures r.Some? ==> forall i | 0 <= i < |r.value| ::
              Text.Parse(Text.I64, Text.Split(Text.Trim(s), ',')[i]) == Some(r.value[i] as int)
  {
    var pieces := Text.Split(Text.Trim(s), ',');
    match Text.ParseAll(Text.I64, pieces)
    case None => None
    case Some(vs) =>
      assert forall i | 0 <= i < |vs| :: -0x8000_0000_0000_0000 <= vs[i] < 0x8000_0000_0000_0000 by {
        forall i | 0 <= i < |vs| ensures -0x8000_0000_0000_0000 <= vs[i] < 0x8000_0000_0000_0000 {
          assert Text.Parse(Text.I64, pieces[i]) == Some(vs[i]);
        }
      }
      Some(seq(|vs|, i requires 0 <= i < |vs| => vs[i] as Word))
  }

  /** `IntCodeComputer`. */
  class Computer {
    var memory: seq<Word>
    var ip: nat
    var halted: bool

    /** The computer's state as a value. */
    function State(): Machine
      reads this
    {
      Machine(memory, ip, halted)
    }

    /** `new`: the code followed by 16 zero words. */
    constructor New(code: seq<Word>)
      ensures State() == Load(code, ExtraCapacity)
    {
      memory := code + Zeros(ExtraCapacity);
      ip := 0;
      halted := false;
    }

    /** `new_with_extra_capacity`: the code followed by `space` zero words. */
    constructor NewWithExtraCapacity(code: seq<Word>, space: nat)
      ensures State() == Load(code, space)
    {
      memory := code + Zeros(space);
      ip := 0;
      halted := false;
    }

    /** The derived `Clone`: an independent computer in the same state. */
    method Clone() returns (c: Computer)
      ensures fresh(c) && c.State() == State()
    {
      c := new Computer.New([]);
      c.memory, c.ip, c.halted := memory, ip, halted;
    }

    /** `read`: the word at `addr`, if there is one. */
    method Read(addr: nat) returns (r: Option<Word>)
      ensures r.Some? <==> addr < |memory|
      ensures r.Some? ==> r.value == memory[addr]
    {
      if addr < |memory| {
        r := Some(memory[addr]);
      } else {
        r := None;
      }
    }

    /** `read_res`: `read` with a failure naming the address. */
    method ReadRes(addr: nat) returns (r: Result<Word>)
      ensures r.Ok? <==> addr < |memory|
      ensures r.Ok? ==> r.value == memory[addr]
      ensures r.Err? ==> r.error == ReadFailed(addr)
    {
      var v := Read(addr);
      if v.None? {
        return Err(ReadFailed(addr));
      }
      return Ok(v.value);
    }

    /** `read_addr`: the word at `addr` converted to an address. */
    method ReadAddr(addr: nat) returns (r: Result<nat>)
      ensures r == AddressAt(memory, addr)
    {
      var v := ReadRes(addr);
      if v.Err? {
        return Err(v.error);
      }
      if v.value < 0 {
        return Err(NegativeAddress(v.value));
      }
      return Ok(v.value as nat);
    }

    /** `write`: replace the word at `addr`; fails, changing nothing, when there is no such cell. */
    method Write(addr: nat, value: Word) returns (r: Result<()>)
      modifies this
      ensures r.Ok? <==> addr < |old(memory)|
      ensures r.Err? ==> r.error == WriteFailed(addr, |old(memory)|)
      ensures memory == if r.Ok? then old(memory)[addr := value] else old(memory)
      ensures ip == old(ip) && halted == old(halted)
    {
      if addr >= |memory| {
        return Err(WriteFailed(addr, |memory|));
      }
      memory := memory[addr := value];
      return Ok(());
    }

    method IsHalted() returns (h: bool)
      ensures h == halted
    {
      h := halted;
    }

    /** `arith_op`. */
    method ArithOp(op: Op, arg1: nat, arg2: nat, dest: nat) returns (r: Result<()>)
      modifies this
      ensures (r, State()) == ArithResult(old(State()), op, arg1, arg2, dest)
    {
      var val1 := ReadRes(arg1);
      if val1.Err? {
        return Err(val1.error);
      }
      var val2 := ReadRes(arg2);
      if val2.Err? {
        return Err(val2.error);
      }
      var v := Apply(op, val1.value, val2.value);
      if v.None? {
        return Err(Overflow(val1.value, val2.value));
      }
      var w := Write(dest, v.value);
      if w.Err? {
        return Err(w.error);
      }
      ip := ip + 4;
      return Ok(());
    }

    /** `step`: returns whether the computer halted, or why the step failed. */
    method Step() returns (r: Result<bool>)
      modifies this
      ensures (r, State()) == StepResult(old(State()))
    {
      if halted {
        return Err(AlreadyHalted);
      }
      var instr := ReadRes(ip);
      if instr.Err? {
        return Err(instr.error);
      }
      if instr.value == 1 || instr.value == 2 {
        var arg1 := ReadAddr(ip + 1);
        if arg1.Err? {
          return Err(arg1.error);
        }
        var arg2 := ReadAddr(ip + 2);
        if arg2.Err? {
          return Err(arg2.error);
        }
        var arg3 := ReadAddr(ip + 3);
        if arg3.Err? {
          return Err(arg3.error);
        }
        var res := ArithOp(if instr.value == 1 then Add else Mul, arg1.value, arg2.value, arg3.value);
        if res.Err? {
          return Err(res.error);
        }
      } else if instr.value == 99 {
        halted := true;
      } else {
        return Err(UnknownInstruction(instr.value, ip));
      }
      return Ok(halted);
    }

    /** `run`, cut off after `fuel` steps. */
    method Run(fuel: nat) returns (r: Result<()>)
      modifies this
      ensures (r, State()) == RunResult(old(State()), fuel)
      ensures r.Ok? ==> halted
    {
      var left: nat := fuel;
      while left > 0
        invariant left <= fuel
        invariant RunResult(old(State()), fuel) == RunResult(State(), left)
        decreases left
      {
        var stepped := Step();
        if stepped.Err? {
          return Err(stepped.error);
        }
        if stepped.value {
          return Ok(());
        }
        left := left - 1;
      }
      return Err(OutOfFuel);
    }
  }

  /** `from_str`: a new computer holding the parsed program, or None when a piece does not parse. */
  method FromStr(s: string) returns (r: Option<Computer>)
    ensures r.None? <==> ParseProgram(s).None?
    ensures r.Some? ==> fresh(r.value) && r.value.State() == Load(ParseProgram(s).value, ExtraCapacity)
  {
    var code := ParseProgram(s);
    if code.None? {
      return None;
    }
    var c := new Computer.New(code.value);
    return Some(c);
  }
}
