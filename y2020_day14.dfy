/**
 * The docking-data masks of 2020 day 14. A mask line has 36 characters
 * after the 7-character prefix `mask = `, most significant bit first: `1`
 * forces a bit to one, `0` forces it to zero and `X` leaves it alone. A
 * mask is held as a pair of words: `ones`, the bits forced to one, and
 * `zeros`, the bits kept (every one of the 36 bits except those forced to
 * zero). Part 1 masks every value written to memory; the floating-address
 * iterator of part 2 enumerates every way of filling the `X` bits of an
 * address.
 *
 * A `usize` is modelled as its 64 bits, least significant first, so that
 * `|`, `&`, `^` and the file's own `set_bit`, `test_bit` and `clear_bit`
 * act bit by bit.
 */
module Docking {
  import opened Common

  type Word = w: seq<bool> | |w| == 64 witness seq(64, _ => false)

  /** The number a word stands for. */
  function Value(w: seq<bool>): nat
  {
    if w == [] then 0 else Value(w[..|w| - 1]) + (if w[|w| - 1] then Pow2(|w| - 1) else 0)
  }

  function Or(x: Word, y: Word): (r: Word)
    ensures forall i | 0 <= i < 64 :: r[i] == (x[i] || y[i])
  {
    seq(64, i requires 0 <= i < 64 => x[i] || y[i])
  }

  function And(x: Word, y: Word): (r: Word)
    ensures forall i | 0 <= i < 64 :: r[i] == (x[i] && y[i])
  {
    seq(64, i requires 0 <= i < 64 => x[i] && y[i])
  }

  function Xor(x: Word, y: Word): (r: Word)
    ensures forall i | 0 <= i < 64 :: r[i] == (x[i] != y[i])
  {
    seq(64, i requires 0 <= i < 64 => x[i] != y[i])
  }

  /** `set_bit`. */
  function SetBit(x: Word, n: nat): (r: Word)
    requires n < 64
    ensures r[n] && forall i | 0 <= i < 64 && i != n :: r[i] == x[i]
  {
    x[n := true]
  }

  /** `clear_bit`. */
  function ClearBit(x: Word, n: nat): (r: Word)
    requires n < 64
    ensures !r[n] && forall i | 0 <= i < 64 && i != n :: r[i] == x[i]
  {
    x[n := false]
  }

  /** `usize::MIN`. */
  function Zero(): Word
  {
    seq(64, _ => false)
  }

  /** `usize::MAX >> (64 - 36)`: the 36 bits of an address or value. */
  function Low36(): Word
  {
    seq(64, i => i < 36)
  }

  datatype Mask = Mask(ones: Word, zeros: Word)

  /** `Mask::default`: nothing forced to one, all 36 bits kept. */
  function DefaultMask(): Mask
  {
    Mask(Zero(), Low36())
  }

  /** `Mask::mask`. */
  function Apply(m: Mask, v: Word): (r: Word)
    ensures forall i | 0 <= i < 64 :: r[i] == (m.zeros[i] && (m.ones[i] || v[i]))
  {
    And(Or(v, m.ones), m.zeros)
  }

  /** A word none of whose bits lies above bit 35. */
  predicate Within36(x: Word)
  {
    forall i | 36 <= i < 64 :: !x[i]
  }

  /** The default mask keeps every 36-bit value as it is. */
  lemma DefaultKeeps(v: Word)
    requires Within36(v)
    ensures Apply(DefaultMask(), v) == v
  {
    var r := Apply(DefaultMask(), v);
    forall i | 0 <= i < 64
      ensures r[i] == v[i]
    {
      assert DefaultMask().zeros[i] == (i < 36);
    }
  }

  /** The characters `from_str` reads: everything after the first seven. */
  function Body(s: string): string
  {
    if |s| <= 7 then [] else s[7..]
  }

  /**
   * One character of the mask at position `k`, which is bit `35 - k`.
   * `'1'` sets the bit in `ones`, `'0'` clears it in `zeros`; for either,
   * a position past 35 underflows the `u32` bit index and panics. `'X'`
   * changes nothing and any other character panics.
   */
  function Step(m: Mask, k: nat, c: char): Option<Mask>
  {
    if c == '1' then
      if k < 36 then Some(m.(ones := SetBit(m.ones, 35 - k))) else None
    else if c == '0' then
      if k < 36 then Some(m.(zeros := ClearBit(m.zeros, 35 - k))) else None
    else if c == 'X' then Some(m)
    else None
  }

  /** The mask the characters from position `k` on turn `m` into. */
  function ParseFrom(m: Mask, body: string, k: nat): Option<Mask>
    requires k <= |body|
    decreases |body| - k
  {
    if k == |body| then Some(m)
    else match Step(m, k, body[k])
      case None => None
      case Some(m') => ParseFrom(m', body, k + 1)
  }

  /** `Mask::from_str`: start from the default mask and apply every character. */
  method ParseMask(s: string) returns (r: Option<Mask>)
    ensures r == ParseFrom(DefaultMask(), Body(s), 0)
  {
    var body := Body(s);
    var m := DefaultMask();
    for k := 0 to |body|
      invariant ParseFrom(m, body, k) == ParseFrom(DefaultMask(), body, 0)
    {
      var c := body[k];
      if c == '1' {
        if k >= 36 {
          return None;
        }
        m := m.(ones := SetBit(m.ones, 35 - k));
      } else if c == '0' {
        if k >= 36 {
          return None;
        }
        m := m.(zeros := ClearBit(m.zeros, 35 - k));
      } else if c != 'X' {
        return None;
      }
    }
    return Some(m);
  }

  /** A character `from_str` accepts at position `k`. */
  predicate Legal(c: char, k: nat)
  {
    c == 'X' || ((c == '0' || c == '1') && k < 36)
  }

  /** The mask character governing position `k` once `len` characters are read: unread positions are `X`. */
  function CharAt(body: string, len: nat, k: int): char
    requires len <= |body|
  {
    if 0 <= k < len then body[k] else 'X'
  }

  /** `m` holds exactly the bits the first `len` characters of `body` describe. */
  predicate Describes(m: Mask, body: string, len: nat)
    requires len <= |body|
  {
    forall i | 0 <= i < 64 ::
      (m.ones[i] <==> i < 36 && CharAt(body, len, 35 - i) == '1') &&
      (m.zeros[i] <==> i < 36 && CharAt(body, len, 35 - i) != '0')
  }

  /** Reading one more character keeps the description exact. */
  lemma StepDescribes(m: Mask, body: string, k: nat)
    requires k < |body| && Describes(m, body, k) && Step(m, k, body[k]).Some?
    ensures Describes(Step(m, k, body[k]).value, body, k + 1)
  {
    var m' := Step(m, k, body[k]).value;
    forall i | 0 <= i < 64
      ensures m'.ones[i] <==> i < 36 && CharAt(body, k + 1, 35 - i) == '1'
      ensures m'.zeros[i] <==> i < 36 && CharAt(body, k + 1, 35 - i) != '0'
    {
      assert CharAt(body, k + 1, 35 - i) == if 35 - i == k then body[k] else CharAt(body, k, 35 - i);
    }
  }

  /**
   * Parsing from a described mask succeeds exactly when every remaining
   * character is legal at its position, and then describes the whole body.
   */
  lemma {:induction false} ParseDescribes(m: Mask, body: string, k: nat)
    requires k <= |body| && Describes(m, body, k)
    ensures ParseFrom(m, body, k).Some? <==> forall j | k <= j < |body| :: Legal(body[j], j)
    ensures ParseFrom(m, body, k).Some? ==> Describes(ParseFrom(m, body, k).value, body, |body|)
    decreases |body| - k
  {
    if k < |body| {
      var s := Step(m, k, body[k]);
      if s.Some? {
        StepDescribes(m, body, k);
        ParseDescribes(s.value, body, k + 1);
      }
    }
  }

  /**
   * `from_str` succeeds exactly when every character after the prefix is
   * `X`, or `0`/`1` within the 36 bits; bit `i` of the mask is then forced
   * to one by a `1` at position `35 - i`, forced to zero by a `0`, and kept
   * otherwise, while the bits above 35 are neither forced nor kept.
   */
  lemma ParseMaskMeaning(s: string)
    ensures ParseFrom(DefaultMask(), Body(s), 0).Some? <==>
      forall k | 0 <= k < |Body(s)| :: Legal(Body(s)[k], k)
    ensures ParseFrom(DefaultMask(), Body(s), 0).Some? ==>
      Describes(ParseFrom(DefaultMask(), Body(s), 0).value, Body(s), |Body(s)|)
  {
    ParseDescribes(DefaultMask(), Body(s), 0);
  }

  /**
   * A parsed mask applied to a value: bit `i` is one under a `1`, zero
   * under a `0`, the value's own bit under an `X`, and zero above bit 35.
   */
  lemma ApplyParsed(m: Mask, body: string, v: Word, i: nat)
    requires forall k | 0 <= k < |body| :: Legal(body[k], k)
    requires Describes(m, body, |body|) && i < 64
    ensures var c := CharAt(body, |body|, 35 - i);
      Apply(m, v)[i] <==> i < 36 && (c == '1' || (c == 'X' && v[i]))
  {
    CharLegal(m, body, i);
  }

  /** The mask character over bit `i` of a fully legal body is one of `0`, `1`, `X`, and the fields follow it. */
  lemma CharLegal(m: Mask, body: string, i: nat)
    requires forall k | 0 <= k < |body| :: Legal(body[k], k)
    requires Describes(m, body, |body|) && i < 64
    ensures var c := CharAt(body, |body|, 35 - i);
      (c == '0' || c == '1' || c == 'X') &&
      (m.ones[i] <==> i < 36 && c == '1') && (m.zeros[i] <==> i < 36 && c != '0')
  {
    if 0 <= 35 - i < |body| {
      assert Legal(body[35 - i], 35 - i);
    }
  }

  /** A parsed mask forces and keeps only bits within the 36, and its floating bits are the `X` positions. */
  lemma ParsedFloating(m: Mask, body: string)
    requires forall k | 0 <= k < |body| :: Legal(body[k], k)
    requires Describes(m, body, |body|)
    ensures Within36(m.ones) && Within36(m.zeros)
    ensures forall i | 0 <= i < 64 :: Xor(m.ones, m.zeros)[i] <==> i < 36 && CharAt(body, |body|, 35 - i) == 'X'
  {
    forall i | 0 <= i < 64
      ensures (36 <= i ==> !m.ones[i] && !m.zeros[i])
      ensures Xor(m.ones, m.zeros)[i] <==> i < 36 && CharAt(body, |body|, 35 - i) == 'X'
    {
      CharLegal(m, body, i);
    }
  }

  /** The number of set bits of `x` below bit `i`. */
  function PopBelow(x: Word, i: nat): (r: nat)
    requires i <= 64
    ensures r <= i
  {
    if i == 0 then 0 else PopBelow(x, i - 1) + (if x[i - 1] then 1 else 0)
  }

  /** The bits below `i` count zero exactly when they are all clear. */
  lemma {:induction false} PopBelowZero(x: Word, i: nat)
    requires i <= 64
    ensures PopBelow(x, i) == 0 <==> forall k | 0 <= k < i :: !x[k]
    decreases i
  {
    if i > 0 {
      PopBelowZero(x, i - 1);
    }
  }

  /** `count_ones`: zero only for the zero word, and at most 36 for a 36-bit word. */
  function PopCount(x: Word): (r: nat)
    ensures r <= 64
    ensures r == 0 <==> x == Zero()
    ensures Within36(x) ==> r <= 36
  {
    PopBelowZero(x, 64);
    assert (forall k | 0 <= k < 64 :: !x[k]) ==> x == Zero();
    assert Within36(x) ==> PopBelow(x, 64) <= 36 by {
      if Within36(x) {
        PopCountWithin36(x, 64);
      }
    }
    PopBelow(x, 64)
  }

  lemma {:induction false} PopBelowMono(x: Word, i: nat, j: nat)
    requires i <= j <= 64
    ensures PopBelow(x, i) <= PopBelow(x, j)
    decreases j - i
  {
    if i < j {
      PopBelowMono(x, i, j - 1);
    }
  }

  /** A word within 36 bits has no set bit above bit 35 to count. */
  lemma {:induction false} PopCountWithin36(x: Word, j: nat)
    requires Within36(x) && 36 <= j <= 64
    ensures PopBelow(x, j) == PopBelow(x, 36)
    decreases j
  {
    if j > 36 {
      PopCountWithin36(x, j - 1);
    }
  }

  /** `test_bit` on the iteration counter: bit `k` of the number `n`. */
  predicate NumBit(n: nat, k: nat)
  {
    (n / Pow2(k)) % 2 == 1
  }

  /**
   * The address `FloatingMask::next` builds, from bit `i` on, having
   * already filled `applied` floating bits: floating bit `i` takes bit
   * `applied` of the iteration number, and the scan stops once `num`
   * floating bits are filled.
   */
  function Fill(a: Word, floating: Word, it: nat, num: nat, i: nat, applied: nat): Word
    requires i <= 36
    decreases 36 - i
  {
    if i == 36 then a
    else if floating[i] then
      var b := if NumBit(it, applied) then SetBit(a, i) else ClearBit(a, i);
      if applied + 1 >= num then b else Fill(b, floating, it, num, i + 1, applied + 1)
    else Fill(a, floating, it, num, i + 1, applied)
  }

  /**
   * Bit `n` of the filled address: a floating bit at or above `i` (and
   * below 36) is the bit of the iteration number at that floating bit's
   * rank among the floating bits; every other bit is the address's own.
   */
  lemma {:induction false} FillBit(a: Word, floating: Word, it: nat, i: nat, n: nat)
    requires i <= 36 && n < 64
    ensures var filled := Fill(a, floating, it, PopBelow(floating, 36), i, PopBelow(floating, i));
      filled[n] == if i <= n < 36 && floating[n] then NumBit(it, PopBelow(floating, n)) else a[n]
    decreases 36 - i
  {
    var num := PopBelow(floating, 36);
    var applied := PopBelow(floating, i);
    if i < 36 {
      if floating[i] {
        var b := if NumBit(it, applied) then SetBit(a, i) else ClearBit(a, i);
        assert PopBelow(floating, i + 1) == applied + 1;
        if applied + 1 >= num {
          if i < n < 36 && floating[n] {
            PopBelowMono(floating, i + 1, n);
            PopBelowMono(floating, n + 1, 36);
            assert false;
          }
        } else {
          FillBit(b, floating, it, i + 1, n);
        }
      } else {
        assert PopBelow(floating, i + 1) == applied;
        FillBit(a, floating, it, i + 1, n);
      }
    }
  }

  /** The address yielded for iteration number `it`: `Fill` over all 36 bits. */
  function FloatingAddress(addr: Word, floating: Word, it: nat): Word
  {
    Fill(addr, floating, it, PopCount(floating), 0, 0)
  }

  /**
   * Each yielded address agrees with `addr | one_mask` on every bit that is
   * not floating, and its floating bits spell out the iteration number:
   * the floating bit of rank `j` is bit `j` of `it`.
   */
  lemma FloatingAddressBits(addr: Word, floating: Word, it: nat, n: nat)
    requires Within36(floating) && n < 64
    ensures FloatingAddress(addr, floating, it)[n] ==
      if floating[n] then NumBit(it, PopBelow(floating, n)) else addr[n]
  {
    PopCountWithin36(floating, 64);
    FillBit(addr, floating, it, 0, n);
  }

  /** The iterator `iter_floating_addrs` returns. */
  class FloatingMask {
    var addr: Word
    var floating: Word
    var iterNo: nat

    predicate Valid()
      reads this
    {
      Within36(floating)
    }

    /** `iter_floating_addrs`: the address with the ones forced, and the `X` bits as the floating mask. */
    constructor (m: Mask, addr: Word)
      requires Within36(m.ones) && Within36(m.zeros)
      ensures Valid()
      ensures this.addr == Or(addr, m.ones) && floating == Xor(m.ones, m.zeros) && iterNo == 0
    {
      this.addr := Or(addr, m.ones);
      floating := Xor(m.ones, m.zeros);
      iterNo := 0;
    }

    /**
     * `FloatingMask::next`: while the iteration number is below
     * `1 << count_ones(floating)`, fill the floating bits from it, count it
     * and yield the address; afterwards yield `None`.
     */
    method Next() returns (r: Option<Word>)
      requires Valid()
      modifies this
      ensures Valid() && addr == old(addr) && floating == old(floating)
      ensures old(iterNo) < Pow2(PopCount(floating)) ==>
        r == Some(FloatingAddress(addr, floating, old(iterNo))) && iterNo == old(iterNo) + 1
      ensures old(iterNo) >= Pow2(PopCount(floating)) ==> r == None && iterNo == old(iterNo)
    {
      var num := PopCount(floating);
      var maxIterNo := Pow2(num);
      var masked := addr;
      if iterNo < maxIterNo {
        var applied := 0;
        var i := 0;
        while i < 36
          invariant i <= 36
          invariant Fill(masked, floating, iterNo, num, i, applied) == FloatingAddress(addr, floating, iterNo)
        {
          if floating[i] {
            if NumBit(iterNo, applied) {
              masked := SetBit(masked, i);
            } else {
              masked := ClearBit(masked, i);
            }
            applied := applied + 1;
            if applied >= num {
              break;
            }
          }
          i := i + 1;
        }
        iterNo := iterNo + 1;
        r := Some(masked);
      } else {
        r := None;
      }
    }
  }

  /**
   * The `for addr in mask.iter_floating_addrs(addr)` loop of part 2: the
   * iterator yields exactly `2^count_ones(floating)` addresses, the `j`-th
   * filled from iteration number `j`, and then stops.
   */
  method FloatingAddresses(m: Mask, addr: Word) returns (addrs: seq<Word>)
    requires Within36(m.ones) && Within36(m.zeros)
    ensures |addrs| == Pow2(PopCount(Xor(m.ones, m.zeros)))
    ensures forall j | 0 <= j < |addrs| :: addrs[j] == FloatingAddress(Or(addr, m.ones), Xor(m.ones, m.zeros), j)
  {
    var iter := new FloatingMask(m, addr);
    ghost var total := Pow2(PopCount(iter.floating));
    addrs := [];
    while true
      invariant iter.Valid() && iter.addr == Or(addr, m.ones) && iter.floating == Xor(m.ones, m.zeros)
      invariant iter.iterNo == |addrs| <= total
      invariant forall j | 0 <= j < |addrs| :: addrs[j] == FloatingAddress(iter.addr, iter.floating, j)
      decreases total - |addrs|
    {
      var r := iter.Next();
      if r.None? {
        break;
      }
      addrs := addrs + [r.value];
    }
  }

  /** A line of the program: a new mask, or a write of `value` to `mem[addr]`. */
  datatype Instr = SetMask(mask: Mask) | Write(addr: Word, value: Word)

  /**
   * The mask in force and the memory after running `items` in order. The
   * memory holds exactly the addresses some line writes to.
   */
  function Run(items: seq<Instr>): (r: (Mask, map<Word, Word>))
    ensures forall a :: a in r.1 <==> exists j | 0 <= j < |items| :: IsWriteTo(items[j], a)
  {
    if items == [] then (DefaultMask(), map[])
    else
      var init := items[..|items| - 1];
      assert forall j | 0 <= j < |init| :: init[j] == items[j];
      var (mask, mem) := Run(init);
      match items[|items| - 1]
      case SetMask(m) => (m, mem)
      case Write(a, v) => (mask, mem[a := Apply(mask, v)])
  }

  /** The addresses written, in the order of their first write. */
  function FirstWrites(items: seq<Instr>): seq<Word>
  {
    if items == [] then []
    else
      var earlier := FirstWrites(items[..|items| - 1]);
      match items[|items| - 1]
      case SetMask(_) => earlier
      case Write(a, _) => if a in earlier then earlier else earlier + [a]
  }

  predicate IsWriteTo(x: Instr, a: Word)
  {
    x.Write? && x.addr == a
  }

  /**
   * In `part1` the last write to an address wins: it holds the value of
   * that write, masked by the mask in force at that line.
   */
  lemma {:induction false} LastWriteWins(items: seq<Instr>, j: nat)
    requires j < |items| && items[j].Write?
    requires forall k | j < k < |items| :: !IsWriteTo(items[k], items[j].addr)
    ensures items[j].addr in Run(items).1
    ensures Run(items).1[items[j].addr] == Apply(Run(items[..j]).0, items[j].value)
  {
    var init := items[..|items| - 1];
    if j < |items| - 1 {
      assert !IsWriteTo(items[|items| - 1], items[j].addr);
      assert init[j] == items[j] && init[..j] == items[..j];
      LastWriteWins(init, j);
    }
  }

  /** The first-write order lists every address in memory exactly once. */
  lemma {:induction false} FirstWritesEnumerate(items: seq<Instr>)
    ensures var keys := FirstWrites(items);
      (forall j, k | 0 <= j < k < |keys| :: keys[j] != keys[k]) &&
      (forall a :: a in keys <==> a in Run(items).1)
  {
    FirstWritesDistinct(items);
    FirstWritesDomain(items);
  }

  lemma {:induction false} FirstWritesDistinct(items: seq<Instr>)
    ensures forall j, k | 0 <= j < k < |FirstWrites(items)| :: FirstWrites(items)[j] != FirstWrites(items)[k]
  {
    if items != [] {
      var init := items[..|items| - 1];
      FirstWritesDistinct(init);
      var earlier := FirstWrites(init);
      var last := items[|items| - 1];
      if last.Write? && last.addr !in earlier {
        var keys := earlier + [last.addr];
        assert FirstWrites(items) == keys;
        forall j, k | 0 <= j < k < |keys|
          ensures keys[j] != keys[k]
        {
          if k < |earlier| {
            assert keys[j] == earlier[j] && keys[k] == earlier[k];
          } else {
            assert keys[j] == earlier[j] && keys[k] == last.addr;
          }
        }
      }
    }
  }

  lemma {:induction false} FirstWritesDomain(items: seq<Instr>)
    ensures forall a :: a in FirstWrites(items) <==> a in Run(items).1
  {
    if items != [] {
      var init := items[..|items| - 1];
      FirstWritesDomain(init);
    }
  }

  /** The sum of `mem[a]` over the listed addresses (an address not in memory adds nothing). */
  function SumAt(mem: map<Word, Word>, keys: seq<Word>): int
  {
    if keys == [] then 0
    else
      var a := keys[|keys| - 1];
      SumAt(mem, keys[..|keys| - 1]) + (if a in mem then Value(mem[a]) else 0)
  }

  /**
   * `part1`: run the program, then add up the memory's values. The sum is
   * taken over the addresses in the order of their first write, which lists
   * each address in memory once.
   */
  method Part1(items: seq<Instr>) returns (total: int)
    ensures total == SumAt(Run(items).1, FirstWrites(items))
  {
    var mask := DefaultMask();
    var mem: map<Word, Word> := map[];
    var keys: seq<Word> := [];
    for i := 0 to |items|
      invariant (mask, mem) == Run(items[..i]) && keys == FirstWrites(items[..i])
      invariant forall a :: a in keys <==> a in mem
    {
      assert items[..i + 1][..i] == items[..i];
      match items[i] {
        case SetMask(m) =>
          mask := m;
        case Write(a, v) =>
          if a !in mem {
            keys := keys + [a];
          }
          mem := mem[a := Apply(mask, v)];
      }
    }
    assert items[..|items|] == items;
    total := 0;
    for j := 0 to |keys|
      invariant forall a :: a in keys <==> a in mem
      invariant total == SumAt(mem, keys[..j])
    {
      assert keys[..j + 1][..j] == keys[..j];
      total := total + Value(mem[keys[j]]);
    }
    assert keys[..|keys|] == keys;
  }
}
