/**
 * The binary boarding passes of 2020 day 5. A pass is read as a binary
 * number, most significant character first, with `F` and `L` as 0 and `B`
 * and `R` as 1; the first seven characters pick the row and the last three
 * the column, so the number is `row * 8 + column`. Any other character
 * panics. The seat id is a `usize` shifted left once per character, so
 * bits shifted past bit 63 are lost.
 */
module Boarding {
  import opened Common

  /** The bit a pass character stands for, or None for a character that panics. */
  function BitOf(c: char): (b: Option<nat>)
    ensures b.Some? ==> b.value < 2
    ensures b.Some? <==> c in {'F', 'B', 'L', 'R'}
  {
    match c
    case 'F' => Some(0)
    case 'L' => Some(0)
    case 'B' => Some(1)
    case 'R' => Some(1)
    case _ => None
  }

  /** Every character of the pass is one of `F`, `B`, `L`, `R`. */
  predicate WellFormed(s: string)
  {
    forall k | 0 <= k < |s| :: BitOf(s[k]).Some?
  }

  /** The unbounded binary value of a well-formed pass, most significant character first. */
  function Decode(s: string): (n: nat)
    requires WellFormed(s)
    ensures n < Pow2(|s|)
  {
    if s == [] then 0
    else
      var init := s[..|s| - 1];
      assert WellFormed(init) by {
        assert forall k | 0 <= k < |init| :: init[k] == s[k];
      }
      Decode(init) * 2 + BitOf(s[|s| - 1]).value
  }

  /** 2^64, the modulus of `usize`. */
  const WordSize: nat := 0x1_0000_0000_0000_0000

  /**
   * `BSPTicket::from_str`: shift the id left and or in each character's bit;
   * a character other than `F`, `B`, `L`, `R` panics, which is None here.
   */
  method SeatId(s: string) returns (r: Option<nat>)
    ensures r.Some? <==> WellFormed(s)
    ensures r.Some? ==> r.value == Decode(s) % WordSize
  {
    var seatId: nat := 0;
    for i := 0 to |s|
      invariant WellFormed(s[..i])
      invariant seatId == Decode(s[..i]) % WordSize
    {
      var bit := BitOf(s[i]);
      if bit.None? {
        return None;
      }
      assert s[..i + 1][..i] == s[..i];
      ShiftWraps(Decode(s[..i]), bit.value);
      seatId := (seatId * 2 + bit.value) % WordSize;
    }
    assert s[..|s|] == s;
    return Some(seatId);
  }

  /** Shifting the truncated id gives the truncation of the shifted id. */
  lemma ShiftWraps(n: nat, bit: nat)
    ensures ((n % WordSize) * 2 + bit) % WordSize == (n * 2 + bit) % WordSize
  {
    var q := n / WordSize;
    assert n * 2 + bit == (n % WordSize) * 2 + bit + (2 * q) * WordSize;
  }

  /** A pass of at most ten characters, as every boarding pass is, names a seat below 1024 and is read without loss. */
  lemma ShortPassExact(s: string)
    requires WellFormed(s) && |s| <= 10
    ensures Decode(s) < 1024 && Decode(s) % WordSize == Decode(s)
  {
    Pow2Mono(|s|, 10);
    assert Pow2(10) == 1024;
  }

  lemma {:induction false} Pow2Mono(i: nat, j: nat)
    requires i <= j
    ensures Pow2(i) <= Pow2(j)
    decreases j
  {
    if i < j {
      Pow2Mono(i, j - 1);
    }
  }

  /** A pass of only `F` and `L` is seat 0. */
  lemma {:induction false} FrontLeftIsZero(s: string)
    requires forall k | 0 <= k < |s| :: s[k] == 'F' || s[k] == 'L'
    ensures WellFormed(s) && Decode(s) == 0
  {
    if s != [] {
      FrontLeftIsZero(s[..|s| - 1]);
    }
  }

  lemma WellFormedAppend(a: string, b: string)
    requires WellFormed(a) && WellFormed(b)
    ensures WellFormed(a + b)
  {
    forall k | 0 <= k < |a + b|
      ensures BitOf((a + b)[k]).Some?
    {
      if k < |a| {
        assert (a + b)[k] == a[k];
      } else {
        assert (a + b)[k] == b[k - |a|];
      }
    }
  }

  /** Reading two passes one after the other: the first part's value is shifted past the second's. */
  lemma {:induction false} DecodeAppend(a: string, b: string)
    requires WellFormed(a) && WellFormed(b)
    ensures WellFormed(a + b)
    ensures Decode(a + b) == Decode(a) * Pow2(|b|) + Decode(b)
  {
    WellFormedAppend(a, b);
    if b != [] {
      var init := b[..|b| - 1];
      var bit := BitOf(b[|b| - 1]).value;
      assert (a + b)[..|a + b| - 1] == a + init;
      assert (a + b)[|a + b| - 1] == b[|b| - 1];
      assert WellFormed(init) by {
        assert forall k | 0 <= k < |init| :: init[k] == b[k];
      }
      DecodeAppend(a, init);
      Regroup(Decode(a), Pow2(|init|), Decode(init), bit);
    } else {
      assert a + b == a;
    }
  }

  lemma Regroup(x: int, p: int, y: int, bit: int)
    ensures (x * p + y) * 2 + bit == x * (p * 2) + (y * 2 + bit)
  {
  }

  /** A ten-character pass names seat `row * 8 + column`, the row from its first seven characters and the column from its last three. */
  lemma RowAndColumn(s: string)
    requires WellFormed(s) && |s| == 10
    ensures WellFormed(s[..7]) && WellFormed(s[7..])
    ensures Decode(s) == Decode(s[..7]) * 8 + Decode(s[7..])
    ensures Decode(s[..7]) < 128 && Decode(s[7..]) < 8
  {
    assert WellFormed(s[..7]) by {
      assert forall k | 0 <= k < 7 :: s[..7][k] == s[k];
    }
    assert WellFormed(s[7..]) by {
      assert forall k | 0 <= k < 3 :: s[7..][k] == s[k + 7];
    }
    assert s == s[..7] + s[7..];
    DecodeAppend(s[..7], s[7..]);
    assert Pow2(3) == 8;
    assert Pow2(7) == 128;
  }

  /** The pass of `len` characters (using `F` and `B`) that reads as `n`. */
  function Encode(n: nat, len: nat): (s: string)
    ensures |s| == len && WellFormed(s)
  {
    if len == 0 then []
    else Encode(n / 2, len - 1) + [if n % 2 == 0 then 'F' else 'B']
  }

  /** Reading the encoding of a seat number gives the number back. */
  lemma {:induction false} DecodeEncode(n: nat, len: nat)
    requires n < Pow2(len)
    ensures Decode(Encode(n, len)) == n
  {
    if len > 0 {
      var s := Encode(n, len);
      assert s[..|s| - 1] == Encode(n / 2, len - 1);
      DecodeEncode(n / 2, len - 1);
    }
  }

  /** Encoding the value of a pass gives the pass with every `L` written `F` and every `R` written `B`. */
  lemma {:induction false} EncodeDecode(s: string)
    requires WellFormed(s)
    ensures forall k | 0 <= k < |s| ::
      Encode(Decode(s), |s|)[k] == (if BitOf(s[k]) == Some(0) then 'F' else 'B')
  {
    if s != [] {
      var init := s[..|s| - 1];
      assert WellFormed(init) by {
        assert forall k | 0 <= k < |init| :: init[k] == s[k];
      }
      EncodeDecode(init);
      var d := Decode(s);
      assert d / 2 == Decode(init) && d % 2 == BitOf(s[|s| - 1]).value;
    }
  }

  /** `part1`: the highest seat id, the last of the sorted ids (None for no passes). */
  function Part1(ids: seq<nat>): (r: Option<nat>)
    requires Sorted(ids)
    ensures r.Some? <==> ids != []
    ensures r.Some? ==> r.value in ids && forall k | 0 <= k < |ids| :: ids[k] <= r.value
  {
    if ids == [] then None else Some(ids[|ids| - 1])
  }

  predicate Sorted(ids: seq<nat>)
  {
    forall j, k | 0 <= j < k < |ids| :: ids[j] <= ids[k]
  }

  /**
   * The seat `part2` names: one past the first id, among neighbouring sorted
   * ids, that is followed by the id two above it.
   */
  function FirstGap(ids: seq<nat>): (r: Option<nat>)
    ensures r.Some? ==> exists k | 0 <= k < |ids| - 1 :: ids[k] + 2 == ids[k + 1] && r.value == ids[k] + 1
    ensures r.None? <==> forall k | 0 <= k < |ids| - 1 :: ids[k] + 2 != ids[k + 1]
  {
    if |ids| < 2 then None
    else if ids[0] + 2 == ids[1] then Some(ids[0] + 1)
    else
      var r := FirstGap(ids[1..]);
      assert forall k | 0 <= k < |ids| - 2 :: ids[1..][k] == ids[k + 1];
      r
  }

  /** `part2`: scan the windows of two neighbouring ids; no gap is the `unreachable!` panic. */
  method Part2(ids: seq<nat>) returns (r: Option<nat>)
    ensures r == FirstGap(ids)
  {
    var k := 0;
    while k + 1 < |ids|
      invariant k <= |ids|
      invariant FirstGap(ids) == FirstGap(ids[k..])
    {
      assert ids[k..][1..] == ids[k + 1..];
      if ids[k] + 2 == ids[k + 1] {
        return Some(ids[k] + 1);
      }
      k := k + 1;
    }
    return None;
  }

  /**
   * For distinct sorted ids, the seat `part2` finds is not taken, and the
   * seats on either side of it are.
   */
  lemma GapIsFreeSeat(ids: seq<nat>)
    requires forall j, k | 0 <= j < k < |ids| :: ids[j] < ids[k]
    requires FirstGap(ids).Some?
    ensures var seat := FirstGap(ids).value;
      seat !in ids && seat - 1 in ids && seat + 1 in ids
  {
    var seat := FirstGap(ids).value;
    var k :| 0 <= k < |ids| - 1 && ids[k] + 2 == ids[k + 1] && seat == ids[k] + 1;
    forall j | 0 <= j < |ids|
      ensures ids[j] != seat
    {
      if j <= k {
        assert ids[j] <= ids[k];
      } else {
        assert ids[j] >= ids[k + 1];
      }
    }
  }
}
