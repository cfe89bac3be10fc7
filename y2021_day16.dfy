/**
 * The BITS packet decoder of 2021 day 16. The transmission is a sequence of
 * bits read most significant bit first through a cursor; `take(n)` reads the
 * next `n` bits as a number and fails when fewer than `n` remain. A packet
 * is a 3-bit version and a 3-bit type id; type 4 is a literal made of 5-bit
 * groups, every other type an operator whose sub-packets are delimited
 * either by their total length in bits or by their number.
 *
 * The functions `Parsed*` state what the parser computes; the methods
 * `ParsePacket`, `ParseContents`, `ReadOperator` and `ReadLiteral` are the
 * parser with its loops over the cursor, proved to compute those functions.
 */
module Packets {
  import opened Common

  type Bit = b: int | 0 <= b <= 1

  /** The range of `u64`, in which a literal accumulates with wrap-around. */
  const Wrap: nat := 0x1_0000_0000_0000_0000

  type U64 = v: nat | v < Wrap

  /** The number a run of bits spells, most significant bit first. */
  function BitsValue(s: seq<Bit>): (r: nat)
    ensures r < Pow2(|s|)
  {
    if s == [] then 0 else BitsValue(s[..|s| - 1]) * 2 + s[|s| - 1]
  }

  /** The `n` low bits of `v`, most significant bit first. */
  function ToBits(v: nat, n: nat): (s: seq<Bit>)
    ensures |s| == n
  {
    if n == 0 then [] else ToBits(v / 2, n - 1) + [v % 2]
  }

  lemma {:induction false} BitsRoundTrip(v: nat, n: nat)
    requires v < Pow2(n)
    ensures BitsValue(ToBits(v, n)) == v
  {
    if n > 0 {
      BitsRoundTrip(v / 2, n - 1);
      assert ToBits(v, n)[..n - 1] == ToBits(v / 2, n - 1);
    }
  }

  /** The result of a parser: the value and the cursor after it, or the error nom reports when the bits run out. */
  datatype Res<T> = Ok(value: T, pos: nat) | Incomplete

  /** nom's `take(n)`. */
  function Take(bits: seq<Bit>, pos: nat, n: nat): (r: Res<nat>)
    ensures r.Ok? ==> r.pos == pos + n <= |bits| && r.value < Pow2(n)
    ensures r.Incomplete? <==> pos + n > |bits|
  {
    if pos + n > |bits| then Incomplete else Ok(BitsValue(bits[pos..pos + n]), pos + n)
  }

  datatype Packet = Packet(version: nat, typeId: nat, contents: Contents)

  datatype Contents = Literal(value: U64) | Operator(subs: seq<Packet>)

  datatype LengthTypeId = TotalLength(length: nat) | NumSubPackets(count: nat)

  /** `read_literal` from accumulator `acc`: shift in the low 4 bits of each group until one has bit 4 clear. */
  function ParsedLiteral(bits: seq<Bit>, pos: nat, acc: U64): (r: Res<Contents>)
    ensures r.Ok? ==> pos < r.pos <= |bits| && r.value.Literal?
    decreases |bits| - pos
  {
    match Take(bits, pos, 5)
    case Incomplete => Incomplete
    case Ok(block, next) =>
      var v := (acc * 16 + block % 16) % Wrap;
      if block / 16 % 2 == 0 then Ok(Literal(v), next) else ParsedLiteral(bits, next, v)
  }

  /** `LengthTypeId::parse`: one bit, then a 15-bit length for 0 and an 11-bit count for 1. */
  function ParsedLengthTypeId(bits: seq<Bit>, pos: nat): (r: Res<LengthTypeId>)
    ensures r.Ok? ==> r.pos <= |bits|
    ensures r.Ok? && r.value.TotalLength? ==> r.pos == pos + 16 && r.value.length < Pow2(15)
    ensures r.Ok? && r.value.NumSubPackets? ==> r.pos == pos + 12 && r.value.count < Pow2(11)
  {
    match Take(bits, pos, 1)
    case Incomplete => Incomplete
    case Ok(t, p) =>
      if t == 0 then
        match Take(bits, p, 15)
        case Incomplete => Incomplete
        case Ok(n, q) => Ok(TotalLength(n), q)
      else
        match Take(bits, p, 11)
        case Incomplete => Incomplete
        case Ok(n, q) => Ok(NumSubPackets(n), q)
  }

  /** `Packet::parse`: a 3-bit version, then the contents. */
  function ParsedPacket(bits: seq<Bit>, pos: nat): (r: Res<Packet>)
    ensures r.Ok? ==> pos < r.pos <= |bits| && r.value.version < 8 && r.value.typeId < 8
    ensures r.Ok? ==> (r.value.typeId == 4 <==> r.value.contents.Literal?)
    decreases |bits| - pos, 2
  {
    match Take(bits, pos, 3)
    case Incomplete => Incomplete
    case Ok(version, p) =>
      match ParsedContents(bits, p)
      case Incomplete => Incomplete
      case Ok((t, c), q) => Ok(Packet(version, t, c), q)
  }

  /** `PacketContents::parse`: a 3-bit type id; type 4 is a literal and every other type an operator. */
  function ParsedContents(bits: seq<Bit>, pos: nat): (r: Res<(nat, Contents)>)
    ensures r.Ok? ==> pos < r.pos <= |bits| && r.value.0 < 8
    ensures r.Ok? ==> (r.value.0 == 4 <==> r.value.1.Literal?)
    decreases |bits| - pos, 1
  {
    match Take(bits, pos, 3)
    case Incomplete => Incomplete
    case Ok(t, p) =>
      if t == 4 then
        match ParsedLiteral(bits, p, 0)
        case Incomplete => Incomplete
        case Ok(c, q) => Ok((t, c), q)
      else
        match ParsedOperator(bits, p)
        case Incomplete => Incomplete
        case Ok(c, q) => Ok((t, c), q)
  }

  /** `read_operator`: the length type id, then the sub-packets it delimits. */
  function ParsedOperator(bits: seq<Bit>, pos: nat): (r: Res<Contents>)
    ensures r.Ok? ==> pos < r.pos <= |bits| && r.value.Operator?
    decreases |bits| - pos, 0
  {
    match ParsedLengthTypeId(bits, pos)
    case Incomplete => Incomplete
    case Ok(TotalLength(n), p) => ByLength(bits, p, p, n, [])
    case Ok(NumSubPackets(n), p) => ByCount(bits, p, n, [])
  }

  /**
   * The `TotalLength` loop from cursor `pos`, having read `acc` since
   * `start`: read a packet, and stop once exactly `length` bits have been
   * read since `start`.
   */
  function ByLength(bits: seq<Bit>, start: nat, pos: nat, length: nat, acc: seq<Packet>): (r: Res<Contents>)
    requires start <= pos
    ensures r.Ok? ==> pos < r.pos <= |bits| && r.pos - start == length
    ensures r.Ok? ==> r.value.Operator? && |r.value.subs| > |acc| && r.value.subs[..|acc|] == acc
    decreases |bits| - pos, 3
  {
    match ParsedPacket(bits, pos)
    case Incomplete => Incomplete
    case Ok(p, q) =>
      if q - start == length then Ok(Operator(acc + [p]), q)
      else ByLength(bits, start, q, length, acc + [p])
  }

  /** The `NumSubPackets` loop: read exactly `n` more packets after `acc`. */
  function ByCount(bits: seq<Bit>, pos: nat, n: nat, acc: seq<Packet>): (r: Res<Contents>)
    requires pos <= |bits|
    ensures r.Ok? ==> pos <= r.pos <= |bits|
    ensures r.Ok? ==> r.value.Operator? && |r.value.subs| == |acc| + n && r.value.subs[..|acc|] == acc
    decreases |bits| - pos, 3
  {
    if n == 0 then Ok(Operator(acc), pos)
    else match ParsedPacket(bits, pos)
      case Incomplete => Incomplete
      case Ok(p, q) => ByCount(bits, q, n - 1, acc + [p])
  }

  /** `read_literal`: the loop over 5-bit groups. */
  method ReadLiteral(bits: seq<Bit>, pos0: nat) returns (r: Res<Contents>)
    ensures r == ParsedLiteral(bits, pos0, 0)
  {
    var pos: nat, val: U64 := pos0, 0;
    while true
      invariant ParsedLiteral(bits, pos, val) == ParsedLiteral(bits, pos0, 0)
      decreases |bits| - pos
    {
      var block := Take(bits, pos, 5);
      if block.Incomplete? {
        return Incomplete;
      }
      pos := block.pos;
      val := (val * 16 + block.value % 16) % Wrap;
      if block.value / 16 % 2 == 0 {
        return Ok(Literal(val), pos);
      }
    }
  }

  /** `Packet::parse`. */
  method ParsePacket(bits: seq<Bit>, pos: nat) returns (r: Res<Packet>)
    ensures r == ParsedPacket(bits, pos)
    decreases |bits| - pos, 2
  {
    var version := Take(bits, pos, 3);
    if version.Incomplete? {
      return Incomplete;
    }
    var contents := ParseContents(bits, version.pos);
    if contents.Incomplete? {
      return Incomplete;
    }
    return Ok(Packet(version.value, contents.value.0, contents.value.1), contents.pos);
  }

  /** `PacketContents::parse`. */
  method ParseContents(bits: seq<Bit>, pos: nat) returns (r: Res<(nat, Contents)>)
    ensures r == ParsedContents(bits, pos)
    decreases |bits| - pos, 1
  {
    var typeId := Take(bits, pos, 3);
    if typeId.Incomplete? {
      return Incomplete;
    }
    var contents;
    if typeId.value == 4 {
      contents := ReadLiteral(bits, typeId.pos);
    } else {
      contents := ReadOperator(bits, typeId.pos);
    }
    if contents.Incomplete? {
      return Incomplete;
    }
    return Ok((typeId.value, contents.value), contents.pos);
  }

  /** `read_operator`: both loops push each sub-packet as it is read. */
  method ReadOperator(bits: seq<Bit>, pos0: nat) returns (r: Res<Contents>)
    ensures r == ParsedOperator(bits, pos0)
    decreases |bits| - pos0, 0
  {
    var lengthTypeId := ParsedLengthTypeId(bits, pos0);
    if lengthTypeId.Incomplete? {
      return Incomplete;
    }
    var pos := lengthTypeId.pos;
    var subs: seq<Packet> := [];
    match lengthTypeId.value {
      case TotalLength(length) =>
        var start := pos;
        while true
          invariant pos0 < start <= pos <= |bits|
          invariant ByLength(bits, start, pos, length, subs) == ParsedOperator(bits, pos0)
          decreases |bits| - pos
        {
          var packet := ParsePacket(bits, pos);
          if packet.Incomplete? {
            return Incomplete;
          }
          pos := packet.pos;
          subs := subs + [packet.value];
          if pos - start == length {
            return Ok(Operator(subs), pos);
          }
        }
      case NumSubPackets(count) =>
        for i := 0 to count
          invariant pos0 < pos <= |bits|
          invariant ByCount(bits, pos, count - i, subs) == ParsedOperator(bits, pos0)
        {
          var packet := ParsePacket(bits, pos);
          if packet.Incomplete? {
            return Incomplete;
          }
          pos := packet.pos;
          subs := subs + [packet.value];
        }
        return Ok(Operator(subs), pos);
    }
  }

  /** `version_sum`: a packet's version plus the version sums of its sub-packets. */
  function VersionSum(p: Packet): (v: nat)
    ensures v >= p.version
    decreases p
  {
    p.version + match p.contents
      case Literal(_) => 0
      case Operator(subs) => VersionSumAll(subs)
  }

  function VersionSumAll(ps: seq<Packet>): nat
    decreases ps
  {
    if ps == [] then 0 else VersionSum(ps[0]) + VersionSumAll(ps[1..])
  }

  /** Every packet of the tree, each before its sub-packets. */
  function Flatten(p: Packet): (r: seq<Packet>)
    ensures |r| >= 1 && r[0] == p
    decreases p
  {
    [p] + match p.contents
      case Literal(_) => []
      case Operator(subs) => FlattenAll(subs)
  }

  function FlattenAll(ps: seq<Packet>): seq<Packet>
    decreases ps
  {
    if ps == [] then [] else Flatten(ps[0]) + FlattenAll(ps[1..])
  }

  function Versions(ps: seq<Packet>): (r: seq<int>)
    ensures |r| == |ps|
  {
    seq(|ps|, i requires 0 <= i < |ps| => ps[i].version)
  }

  /** The version sum is the sum of the versions of all the packets in the tree. */
  lemma {:induction false} VersionSumIsSumOfVersions(p: Packet)
    ensures VersionSum(p) == Sum(Versions(Flatten(p)))
    decreases p, 1
  {
    var rest := match p.contents case Literal(_) => [] case Operator(subs) => FlattenAll(subs);
    assert Versions(Flatten(p)) == [p.version] + Versions(rest);
    SumAppend([p.version], Versions(rest));
    assert Sum([p.version]) == Sum([]) + p.version;
    match p.contents
    case Literal(_) =>
    case Operator(subs) => VersionSumAllIsSum(subs);
  }

  lemma {:induction false} VersionSumAllIsSum(ps: seq<Packet>)
    ensures VersionSumAll(ps) == Sum(Versions(FlattenAll(ps)))
    decreases ps, 0
  {
    if ps != [] {
      VersionSumIsSumOfVersions(ps[0]);
      VersionSumAllIsSum(ps[1..]);
      assert Versions(FlattenAll(ps)) == Versions(Flatten(ps[0])) + Versions(FlattenAll(ps[1..]));
      SumAppend(Versions(Flatten(ps[0])), Versions(FlattenAll(ps[1..])));
    }
  }

  /** `literal as i64`: a `u64` above `i64::MAX` wraps to a negative number. */
  function AsI64(v: U64): (r: int)
    ensures -0x8000_0000_0000_0000 <= r < 0x8000_0000_0000_0000
    ensures (r - v) % Wrap == 0
  {
    if v < 0x8000_0000_0000_0000 then v else v - Wrap
  }

  function MinOf(vs: seq<int>): (m: int)
    requires vs != []
    ensures m in vs && forall k | 0 <= k < |vs| :: m <= vs[k]
  {
    if |vs| == 1 then vs[0]
    else var m := MinOf(vs[1..]); if vs[0] <= m then vs[0] else m
  }

  function MaxOf(vs: seq<int>): (m: int)
    requires vs != []
    ensures m in vs && forall k | 0 <= k < |vs| :: vs[k] <= m
  {
    if |vs| == 1 then vs[0]
    else var m := MaxOf(vs[1..]); if vs[0] >= m then vs[0] else m
  }

  /**
   * `eval`: None where it panics, that is where an operator type meets a
   * literal or a literal type an operator, where the minimum or maximum of
   * no values is taken, where a comparison does not have exactly two
   * sub-packets, or for a type id above 7.
   */
  function Eval(p: Packet): (r: Option<int>)
    ensures r.Some? && 5 <= p.typeId <= 7 ==> r.value == 0 || r.value == 1
    ensures r.Some? && p.typeId != 4 ==> p.contents.Operator?
    decreases p, 1
  {
    match p.contents
    case Literal(v) => if p.typeId == 4 then Some(AsI64(v)) else None
    case Operator(subs) =>
      match EvalAll(subs)
      case None => None
      case Some(vs) =>
        if p.typeId == 0 then Some(Sum(vs))
        else if p.typeId == 1 then Some(Product(vs))
        else if p.typeId == 2 then (if vs == [] then None else Some(MinOf(vs)))
        else if p.typeId == 3 then (if vs == [] then None else Some(MaxOf(vs)))
        else if 5 <= p.typeId <= 7 && |vs| == 2 then
          Some(if Compare(p.typeId, vs[0], vs[1]) then 1 else 0)
        else None
  }

  /** The comparisons of types 5, 6 and 7: greater than, less than, equal to. */
  predicate Compare(typeId: nat, a: int, b: int)
  {
    if typeId == 5 then a > b else if typeId == 6 then a < b else a == b
  }

  /** The values of the sub-packets, or None if any of them panics. */
  function EvalAll(ps: seq<Packet>): (r: Option<seq<int>>)
    ensures r.Some? ==> |r.value| == |ps|
    decreases ps, 0
  {
    if ps == [] then Some([])
    else match Eval(ps[0])
      case None => None
      case Some(v) =>
        match EvalAll(ps[1..])
        case None => None
        case Some(vs) => Some([v] + vs)
  }

  /** The nibbles of `v`, most significant first, with no leading zero nibble except for `v == 0`. */
  function Nibbles(v: nat): (r: seq<nat>)
    ensures |r| >= 1 && forall i | 0 <= i < |r| :: r[i] < 16
  {
    if v < 16 then [v] else Nibbles(v / 16) + [v % 16]
  }

  /** The 5-bit groups of a literal: bit 4 set on every group but the last. */
  function Groups(ns: seq<nat>): (s: seq<Bit>)
    ensures |s| == 5 * |ns|
  {
    if ns == [] then [] else if |ns| == 1 then ToBits(ns[0], 5) else ToBits(16 + ns[0], 5) + Groups(ns[1..])
  }

  /** How an encoded operator delimits its sub-packets: by their number (length type 1) or by their total length in bits (length type 0). */
  datatype Framing = CountFramed | LengthFramed

  /**
   * How a transmission lays out a packet: its version and type id, and for
   * a literal the nibbles of its 5-bit groups, for an operator its own
   * framing and the layouts of its sub-packets. Operators of one
   * transmission may be framed differently, and a literal may carry
   * leading zero nibbles.
   */
  datatype Layout = Layout(version: nat, typeId: nat, body: Body)

  datatype Body = LiteralGroups(nibbles: seq<nat>) | SubPackets(framing: Framing, subs: seq<Layout>)

  /** The bits of a layout: the transmission the parser reads. */
  function Encode(t: Layout): (e: seq<Bit>)
    ensures |e| >= 6
    decreases t
  {
    ToBits(t.version, 3) + ToBits(t.typeId, 3) +
    match t.body
    case LiteralGroups(ns) => Groups(ns)
    case SubPackets(f, subs) =>
      var body := EncodeAll(subs);
      if f == CountFramed then [1] + ToBits(|subs|, 11) + body else [0] + ToBits(|body|, 15) + body
  }

  function EncodeAll(ts: seq<Layout>): seq<Bit>
    decreases ts
  {
    if ts == [] then [] else Encode(ts[0]) + EncodeAll(ts[1..])
  }

  /** The packet a layout carries: a literal is its nibbles shifted into a `u64`. */
  function Decoded(t: Layout): Packet
    decreases t
  {
    Packet(t.version, t.typeId,
      match t.body
      case LiteralGroups(ns) => Literal(Accumulate(0, ns))
      case SubPackets(_, subs) => Operator(DecodedAll(subs)))
  }

  function DecodedAll(ts: seq<Layout>): (ps: seq<Packet>)
    ensures |ps| == |ts|
    decreases ts
  {
    if ts == [] then [] else [Decoded(ts[0])] + DecodedAll(ts[1..])
  }

  /**
   * A layout the transmission format can carry: 3-bit fields, type 4
   * exactly for literals, at least one nibble below 16 per literal, and
   * for each operator fewer than 2048 sub-packets, or at least one
   * sub-packet and fewer than 32768 bits of them, as its framing needs.
   */
  predicate WellFormed(t: Layout)
    decreases t
  {
    t.version < 8 && t.typeId < 8 && (t.typeId == 4 <==> t.body.LiteralGroups?) &&
    match t.body
    case LiteralGroups(ns) => ns != [] && forall i | 0 <= i < |ns| :: ns[i] < 16
    case SubPackets(f, subs) =>
      (if f == CountFramed then |subs| < 2048 else subs != [] && |EncodeAll(subs)| < 32768) &&
      AllWellFormed(subs)
  }

  predicate AllWellFormed(ts: seq<Layout>)
    decreases ts
  {
    ts == [] || (WellFormed(ts[0]) && AllWellFormed(ts[1..]))
  }

  /** The layout of a packet with the fewest nibbles and every operator framed by `f`. */
  function Canonical(p: Packet, f: Framing): Layout
    decreases p
  {
    Layout(p.version, p.typeId,
      match p.contents
      case Literal(v) => LiteralGroups(Nibbles(v))
      case Operator(subs) => SubPackets(f, CanonicalAll(subs, f)))
  }

  function CanonicalAll(ps: seq<Packet>, f: Framing): seq<Layout>
    decreases ps
  {
    if ps == [] then [] else [Canonical(ps[0], f)] + CanonicalAll(ps[1..], f)
  }

  /** Every packet has a layout: its canonical layout carries it. */
  lemma {:induction false} CanonicalDecodes(p: Packet, f: Framing)
    ensures Decoded(Canonical(p, f)) == p
    decreases p, 1
  {
    match p.contents
    case Literal(v) => AccumulateNibbles(v);
    case Operator(subs) => CanonicalAllDecodes(subs, f);
  }

  lemma {:induction false} CanonicalAllDecodes(ps: seq<Packet>, f: Framing)
    ensures DecodedAll(CanonicalAll(ps, f)) == ps
    decreases ps, 0
  {
    if ps != [] {
      CanonicalDecodes(ps[0], f);
      CanonicalAllDecodes(ps[1..], f);
    }
  }

  /** `val = (val << 4) | nibble` over a run of nibbles, in `u64`. */
  function Accumulate(acc: U64, ns: seq<nat>): U64
    decreases |ns|
  {
    if ns == [] then acc else Accumulate((acc * 16 + ns[0]) % Wrap, ns[1..])
  }

  lemma {:induction false} AccumulateSnoc(acc: U64, ns: seq<nat>, x: nat)
    ensures Accumulate(acc, ns + [x]) == (Accumulate(acc, ns) * 16 + x) % Wrap
    decreases |ns|
  {
    if ns == [] {
      assert [x][1..] == [];
    } else {
      assert (ns + [x])[1..] == ns[1..] + [x];
      AccumulateSnoc((acc * 16 + ns[0]) % Wrap, ns[1..], x);
    }
  }

  /** Shifting in the nibbles of a `u64` gives it back. */
  lemma {:induction false} AccumulateNibbles(v: U64)
    ensures Accumulate(0, Nibbles(v)) == v
  {
    if v >= 16 {
      AccumulateNibbles(v / 16);
      AccumulateSnoc(0, Nibbles(v / 16), v % 16);
    }
  }

  lemma Pow2Values()
    ensures Pow2(3) == 8 && Pow2(5) == 32 && Pow2(11) == 2048 && Pow2(15) == 32768
  {
    assert Pow2(1) == 2 && Pow2(2) == 4 && Pow2(3) == 8 && Pow2(4) == 16 && Pow2(5) == 32;
    assert Pow2(6) == 64 && Pow2(7) == 128 && Pow2(8) == 256 && Pow2(9) == 512 && Pow2(10) == 1024;
    assert Pow2(11) == 2048 && Pow2(12) == 4096 && Pow2(13) == 8192 && Pow2(14) == 16384;
  }

  /** A slice of the bits at `pos` that hold `e` holds the same slice of `e`. */
  lemma Slice(bits: seq<Bit>, pos: nat, e: seq<Bit>, i: nat, j: nat)
    requires pos + |e| <= |bits| && bits[pos..pos + |e|] == e && i <= j <= |e|
    ensures bits[pos + i..pos + j] == e[i..j]
  {
    forall k | 0 <= k < j - i
      ensures bits[pos + i..pos + j][k] == e[i..j][k]
    {
      assert bits[pos + i + k] == bits[pos..pos + |e|][i + k];
    }
  }

  /** Reading `n` bits where the encoding `e` holds `ToBits(v, n)` gives `v` back. */
  lemma TakeEncoded(bits: seq<Bit>, pos: nat, e: seq<Bit>, i: nat, n: nat, v: nat)
    requires pos + |e| <= |bits| && bits[pos..pos + |e|] == e && i + n <= |e|
    requires v < Pow2(n) && e[i..i + n] == ToBits(v, n)
    ensures Take(bits, pos + i, n) == Ok(v, pos + i + n)
  {
    Slice(bits, pos, e, i, i + n);
    BitsRoundTrip(v, n);
  }

  /** A last group's low four bits are its nibble and its bit 4 is clear. */
  lemma LastGroupFields(x: nat)
    requires x < 16
    ensures x % 16 == x && x / 16 % 2 == 0
  {
  }

  /** A group followed by more has its nibble in the low four bits and bit 4 set. */
  lemma MoreGroupFields(x: nat)
    requires x < 16
    ensures (16 + x) % 16 == x && (16 + x) / 16 % 2 == 1
  {
  }

  /** The first 5-bit group of `Groups(ns)` carries `ns[0]` and says whether more groups follow. */
  lemma FirstGroup(bits: seq<Bit>, pos: nat, ns: seq<nat>)
    requires ns != [] && forall i | 0 <= i < |ns| :: ns[i] < 16
    requires pos + |Groups(ns)| <= |bits| && bits[pos..pos + |Groups(ns)|] == Groups(ns)
    ensures var block := if |ns| == 1 then ns[0] else 16 + ns[0];
      Take(bits, pos, 5) == Ok(block, pos + 5) && block % 16 == ns[0] && (block / 16 % 2 == 0 <==> |ns| == 1)
    ensures |ns| > 1 ==> bits[pos + 5..pos + |Groups(ns)|] == Groups(ns[1..])
  {
    FirstBlock(bits, pos, ns);
    if |ns| > 1 {
      var g := Groups(ns);
      Slice(bits, pos, g, 5, |g|);
      assert g[5..] == Groups(ns[1..]);
    }
  }

  /** The 5-bit block read at the start of `Groups(ns)`. */
  lemma FirstBlock(bits: seq<Bit>, pos: nat, ns: seq<nat>)
    requires ns != [] && forall i | 0 <= i < |ns| :: ns[i] < 16
    requires pos + |Groups(ns)| <= |bits| && bits[pos..pos + |Groups(ns)|] == Groups(ns)
    ensures var block := if |ns| == 1 then ns[0] else 16 + ns[0];
      Take(bits, pos, 5) == Ok(block, pos + 5) && block % 16 == ns[0] && (block / 16 % 2 == 0 <==> |ns| == 1)
  {
    var g := Groups(ns);
    var block := if |ns| == 1 then ns[0] else 16 + ns[0];
    assert g[0..5] == ToBits(block, 5);
    assert Pow2(5) == 32 by { Pow2Values(); }
    TakeEncoded(bits, pos, g, 0, 5, block);
    if |ns| == 1 {
      LastGroupFields(ns[0]);
    } else {
      MoreGroupFields(ns[0]);
    }
  }

  /** Bits at `pos` holding `head + body` hold `head` and then `body`. */
  lemma SplitAt(bits: seq<Bit>, pos: nat, head: seq<Bit>, body: seq<Bit>)
    requires pos + |head + body| <= |bits| && bits[pos..pos + |head + body|] == head + body
    ensures bits[pos..pos + |head|] == head
    ensures bits[pos + |head|..pos + |head| + |body|] == body
  {
    var e := head + body;
    Slice(bits, pos, e, 0, |head|);
    assert e[0..|head|] == head;
    Slice(bits, pos, e, |head|, |e|);
    assert e[|head|..] == body;
  }

  /** The literal groups of `ns` parse to the nibbles shifted into the accumulator. */
  lemma {:induction false} ParseGroups(bits: seq<Bit>, pos: nat, ns: seq<nat>, acc: U64)
    requires ns != [] && forall i | 0 <= i < |ns| :: ns[i] < 16
    requires pos + |Groups(ns)| <= |bits| && bits[pos..pos + |Groups(ns)|] == Groups(ns)
    ensures ParsedLiteral(bits, pos, acc) == Ok(Literal(Accumulate(acc, ns)), pos + |Groups(ns)|)
    decreases |ns|
  {
    FirstGroup(bits, pos, ns);
    var v := (acc * 16 + ns[0]) % Wrap;
    assert Accumulate(acc, ns) == Accumulate(v, ns[1..]);
    if |ns| > 1 {
      ParseGroups(bits, pos + 5, ns[1..], v);
    }
  }

  /** The version and type id of an encoded packet are its first two 3-bit fields. */
  lemma ParseHeader(bits: seq<Bit>, pos: nat, t: Layout)
    requires t.version < 8 && t.typeId < 8
    requires pos + |Encode(t)| <= |bits| && bits[pos..pos + |Encode(t)|] == Encode(t)
    ensures Take(bits, pos, 3) == Ok(t.version, pos + 3)
    ensures Take(bits, pos + 3, 3) == Ok(t.typeId, pos + 6)
    ensures bits[pos + 6..pos + |Encode(t)|] == Encode(t)[6..]
  {
    var e := Encode(t);
    Pow2Values();
    Slice(bits, pos, e, 0, 3);
    assert e[0..3] == ToBits(t.version, 3);
    BitsRoundTrip(t.version, 3);
    Slice(bits, pos, e, 3, 6);
    assert e[3..6] == ToBits(t.typeId, 3);
    BitsRoundTrip(t.typeId, 3);
    Slice(bits, pos, e, 6, |e|);
  }

  /** An operator encoded with length type id 1 and `n` in the next 11 bits has `n` sub-packets. */
  lemma ParseCount(bits: seq<Bit>, pos: nat, n: nat)
    requires n < 2048 && pos + 12 <= |bits| && bits[pos..pos + 12] == [1] + ToBits(n, 11)
    ensures ParsedLengthTypeId(bits, pos) == Ok(NumSubPackets(n), pos + 12)
  {
    var e := [1] + ToBits(n, 11);
    assert Take(bits, pos, 1) == Ok(1, pos + 1) by {
      Slice(bits, pos, e, 0, 1);
      assert e[0..1] == [1];
      assert [1][..0] == [];
    }
    assert Take(bits, pos + 1, 11) == Ok(n, pos + 12) by {
      Pow2Values();
      Slice(bits, pos, e, 1, 12);
      assert e[1..12] == ToBits(n, 11);
      BitsRoundTrip(n, 11);
    }
  }

  /** An operator encoded with length type id 0 and `n` in the next 15 bits has `n` bits of sub-packets. */
  lemma ParseLength(bits: seq<Bit>, pos: nat, n: nat)
    requires n < 32768 && pos + 16 <= |bits| && bits[pos..pos + 16] == [0] + ToBits(n, 15)
    ensures ParsedLengthTypeId(bits, pos) == Ok(TotalLength(n), pos + 16)
  {
    var e := [0] + ToBits(n, 15);
    assert Take(bits, pos, 1) == Ok(0, pos + 1) by {
      Slice(bits, pos, e, 0, 1);
      assert e[0..1] == [0];
      assert [0][..0] == [];
    }
    assert Take(bits, pos + 1, 15) == Ok(n, pos + 16) by {
      Pow2Values();
      Slice(bits, pos, e, 1, 16);
      assert e[1..16] == ToBits(n, 15);
      BitsRoundTrip(n, 15);
    }
  }

  /** Parsing a well-formed layout's bits gives the packet it carries and stops right after them. */
  lemma {:induction false} ParseEncoded(bits: seq<Bit>, pos: nat, t: Layout)
    requires WellFormed(t)
    requires pos + |Encode(t)| <= |bits| && bits[pos..pos + |Encode(t)|] == Encode(t)
    ensures ParsedPacket(bits, pos) == Ok(Decoded(t), pos + |Encode(t)|)
    decreases t, 1
  {
    var e := Encode(t);
    ParseHeader(bits, pos, t);
    match t.body
    case LiteralGroups(ns) =>
      assert e[6..] == Groups(ns);
      ParseGroups(bits, pos + 6, ns, 0);
      assert ParsedContents(bits, pos + 3) == Ok((t.typeId, Decoded(t).contents), pos + |e|);
    case SubPackets(_, _) =>
      ParseOperatorEncoded(bits, pos + 6, t);
      assert ParsedContents(bits, pos + 3) == Ok((t.typeId, Decoded(t).contents), pos + |e|);
  }

  /** The operator part of a layout's bits, after its version and type id, parses back to its sub-packets. */
  lemma {:induction false} ParseOperatorEncoded(bits: seq<Bit>, pos: nat, t: Layout)
    requires WellFormed(t) && t.body.SubPackets?
    requires pos + |Encode(t)| - 6 <= |bits| && bits[pos..pos + |Encode(t)| - 6] == Encode(t)[6..]
    ensures ParsedOperator(bits, pos) == Ok(Decoded(t).contents, pos + |Encode(t)| - 6)
    decreases t, 0
  {
    var subs := t.body.subs;
    if t.body.framing == CountFramed {
      assert Encode(t)[6..] == [1] + ToBits(|subs|, 11) + EncodeAll(subs);
      ParseCountFramed(bits, pos, subs);
    } else {
      assert Encode(t)[6..] == [0] + ToBits(|EncodeAll(subs)|, 15) + EncodeAll(subs);
      ParseLengthFramedOperator(bits, pos, subs);
    }
  }

  lemma {:induction false} ParseCountFramed(bits: seq<Bit>, pos: nat, subs: seq<Layout>)
    requires |subs| < 2048 && AllWellFormed(subs)
    requires var e := [1] + ToBits(|subs|, 11) + EncodeAll(subs);
      pos + |e| <= |bits| && bits[pos..pos + |e|] == e
    ensures ParsedOperator(bits, pos) == Ok(Operator(DecodedAll(subs)), pos + 12 + |EncodeAll(subs)|)
    decreases subs, 4
  {
    var body := EncodeAll(subs);
    SplitAt(bits, pos, [1] + ToBits(|subs|, 11), body);
    assert ParsedLengthTypeId(bits, pos) == Ok(NumSubPackets(|subs|), pos + 12) by {
      ParseCount(bits, pos, |subs|);
    }
    assert ByCount(bits, pos + 12, |subs|, []) == Ok(Operator(DecodedAll(subs)), pos + 12 + |body|) by {
      ParseCounted(bits, pos + 12, subs, []);
      assert [] + DecodedAll(subs) == DecodedAll(subs);
    }
  }

  lemma {:induction false} ParseLengthFramedOperator(bits: seq<Bit>, pos: nat, subs: seq<Layout>)
    requires subs != [] && |EncodeAll(subs)| < 32768 && AllWellFormed(subs)
    requires var e := [0] + ToBits(|EncodeAll(subs)|, 15) + EncodeAll(subs);
      pos + |e| <= |bits| && bits[pos..pos + |e|] == e
    ensures ParsedOperator(bits, pos) == Ok(Operator(DecodedAll(subs)), pos + 16 + |EncodeAll(subs)|)
    decreases subs, 3
  {
    var body := EncodeAll(subs);
    LengthHeader(bits, pos, body);
    assert ByLength(bits, pos + 16, pos + 16, |body|, []) == Ok(Operator(DecodedAll(subs)), pos + 16 + |body|) by {
      ParseLengthFramed(bits, pos + 16, pos + 16, subs, [], |body|, pos + 16 + |body|);
      assert [] + DecodedAll(subs) == DecodedAll(subs);
    }
  }

  /** A length-framed header: type id 0 and the body's length in 15 bits, followed by the body. */
  lemma LengthHeader(bits: seq<Bit>, pos: nat, body: seq<Bit>)
    requires |body| < 32768
    requires var e := [0] + ToBits(|body|, 15) + body;
      pos + |e| <= |bits| && bits[pos..pos + |e|] == e
    ensures ParsedLengthTypeId(bits, pos) == Ok(TotalLength(|body|), pos + 16)
    ensures pos + 16 + |body| <= |bits| && bits[pos + 16..pos + 16 + |body|] == body
  {
    SplitAt(bits, pos, [0] + ToBits(|body|, 15), body);
    ParseLength(bits, pos, |body|);
  }

  /** The bits of a non-empty list of layouts start with the bits of the first one. */
  lemma SplitFirst(bits: seq<Bit>, pos: nat, ts: seq<Layout>)
    requires ts != []
    requires pos + |EncodeAll(ts)| <= |bits| && bits[pos..pos + |EncodeAll(ts)|] == EncodeAll(ts)
    ensures var first := Encode(ts[0]);
      |EncodeAll(ts)| == |first| + |EncodeAll(ts[1..])| &&
      bits[pos..pos + |first|] == first &&
      bits[pos + |first|..pos + |first| + |EncodeAll(ts[1..])|] == EncodeAll(ts[1..])
  {
    var e, first := EncodeAll(ts), Encode(ts[0]);
    assert e == first + EncodeAll(ts[1..]);
    Slice(bits, pos, e, 0, |first|);
    assert e[0..|first|] == first;
    Slice(bits, pos, e, |first|, |e|);
    assert e[|first|..] == EncodeAll(ts[1..]);
  }

  /** Moving the packet of the first of `ts` onto the end of `acc` keeps `acc` followed by the packets of `ts`. */
  lemma MoveFirst(acc: seq<Packet>, ts: seq<Layout>)
    requires ts != []
    ensures acc + [Decoded(ts[0])] + DecodedAll(ts[1..]) == acc + DecodedAll(ts)
  {
    assert DecodedAll(ts) == [Decoded(ts[0])] + DecodedAll(ts[1..]);
  }

  /** One turn of the count-framed loop on the bits: read the next packet, one fewer to go. */
  lemma ByCountStep(bits: seq<Bit>, pos: nat, n: nat, acc: seq<Packet>, p: Packet, q: nat, m: nat)
    requires pos <= |bits| && n == m + 1 && ParsedPacket(bits, pos) == Ok(p, q)
    ensures q <= |bits| && ByCount(bits, pos, n, acc) == ByCount(bits, q, m, acc + [p])
  {
  }

  /** One turn of the count-framed loop: read the first encoded packet, one fewer to go. */
  lemma {:induction false} CountedStep(bits: seq<Bit>, pos: nat, ts: seq<Layout>, acc: seq<Packet>)
    requires ts != [] && AllWellFormed(ts)
    requires pos + |EncodeAll(ts)| <= |bits| && bits[pos..pos + |EncodeAll(ts)|] == EncodeAll(ts)
    ensures var q, rest := pos + |Encode(ts[0])|, EncodeAll(ts[1..]);
      AllWellFormed(ts[1..]) && q + |rest| == pos + |EncodeAll(ts)| && bits[q..q + |rest|] == rest &&
      ByCount(bits, pos, |ts|, acc) == ByCount(bits, q, |ts[1..]|, acc + [Decoded(ts[0])])
    decreases ts, 1
  {
    FirstPacketParses(bits, pos, ts);
    ByCountStep(bits, pos, |ts|, acc, Decoded(ts[0]), pos + |Encode(ts[0])|, |ts[1..]|);
  }

  /** The whole count-framed loop after the first packet of `ts` gives it for all of `ts`. */
  lemma CountedJoin(bits: seq<Bit>, pos: nat, ts: seq<Layout>, acc: seq<Packet>)
    requires ts != [] && AllWellFormed(ts)
    requires pos + |EncodeAll(ts)| <= |bits| && bits[pos..pos + |EncodeAll(ts)|] == EncodeAll(ts)
    requires pos + |Encode(ts[0])| <= |bits|
    requires var q, first := pos + |Encode(ts[0])|, Decoded(ts[0]);
      ByCount(bits, q, |ts[1..]|, acc + [first]) == Ok(Operator(acc + [first] + DecodedAll(ts[1..])), q + |EncodeAll(ts[1..])|)
    ensures ByCount(bits, pos, |ts|, acc) == Ok(Operator(acc + DecodedAll(ts)), pos + |EncodeAll(ts)|)
    decreases ts, 2
  {
    CountedStep(bits, pos, ts, acc);
    MoveFirst(acc, ts);
  }

  /** The count-framed loop reads back exactly the packets of the encoded layouts. */
  lemma {:induction false} ParseCounted(bits: seq<Bit>, pos: nat, ts: seq<Layout>, acc: seq<Packet>)
    requires AllWellFormed(ts)
    requires pos + |EncodeAll(ts)| <= |bits| && bits[pos..pos + |EncodeAll(ts)|] == EncodeAll(ts)
    ensures ByCount(bits, pos, |ts|, acc) == Ok(Operator(acc + DecodedAll(ts)), pos + |EncodeAll(ts)|)
    decreases ts, 3
  {
    if ts == [] {
      assert acc + DecodedAll(ts) == acc;
    } else {
      var q, first := pos + |Encode(ts[0])|, Decoded(ts[0]);
      assert q <= |bits| && ByCount(bits, q, |ts[1..]|, acc + [first]) == Ok(Operator(acc + [first] + DecodedAll(ts[1..])), q + |EncodeAll(ts[1..])|) by {
        SplitFirst(bits, pos, ts);
        ParseCounted(bits, q, ts[1..], acc + [first]);
      }
      CountedJoin(bits, pos, ts, acc);
    }
  }

  /** One turn of the length-framed loop: read the next packet, and stop if the length is reached. */
  lemma ByLengthLast(bits: seq<Bit>, start: nat, pos: nat, length: nat, acc: seq<Packet>, p: Packet, q: nat)
    requires start <= pos && ParsedPacket(bits, pos) == Ok(p, q) && q - start == length
    ensures ByLength(bits, start, pos, length, acc) == Ok(Operator(acc + [p]), q)
  {
  }

  lemma ByLengthMore(bits: seq<Bit>, start: nat, pos: nat, length: nat, acc: seq<Packet>, p: Packet, q: nat)
    requires start <= pos && ParsedPacket(bits, pos) == Ok(p, q) && q - start != length
    ensures ByLength(bits, start, pos, length, acc) == ByLength(bits, start, q, length, acc + [p])
  {
  }

  /** The first of a list of encoded layouts parses back, and the rest of the bits encode the others. */
  lemma {:induction false} FirstPacketParses(bits: seq<Bit>, pos: nat, ts: seq<Layout>)
    requires ts != [] && AllWellFormed(ts)
    requires pos + |EncodeAll(ts)| <= |bits| && bits[pos..pos + |EncodeAll(ts)|] == EncodeAll(ts)
    ensures var q, rest := pos + |Encode(ts[0])|, EncodeAll(ts[1..]);
      AllWellFormed(ts[1..]) && q + |rest| == pos + |EncodeAll(ts)| && bits[q..q + |rest|] == rest
    ensures ParsedPacket(bits, pos) == Ok(Decoded(ts[0]), pos + |Encode(ts[0])|)
    ensures |ts| > 1 ==> |EncodeAll(ts[1..])| > 0
    decreases ts, 0
  {
    SplitFirst(bits, pos, ts);
    assert WellFormed(ts[0]) && AllWellFormed(ts[1..]);
    ParseEncoded(bits, pos, ts[0]);
    if |ts| > 1 {
      assert |Encode(ts[1])| >= 6;
    }
  }

  /** The length-framed loop over a single encoded layout reads it back and stops. */
  lemma LengthLast(bits: seq<Bit>, start: nat, pos: nat, ts: seq<Layout>, acc: seq<Packet>, length: nat, end: nat)
    requires |ts| == 1 && AllWellFormed(ts) && start <= pos
    requires pos + |EncodeAll(ts)| <= |bits| && bits[pos..pos + |EncodeAll(ts)|] == EncodeAll(ts)
    requires length == pos - start + |EncodeAll(ts)| && end == pos + |EncodeAll(ts)|
    ensures ByLength(bits, start, pos, length, acc) == Ok(Operator(acc + DecodedAll(ts)), end)
    decreases ts, 1
  {
    FirstPacketParses(bits, pos, ts);
    ByLengthLast(bits, start, pos, length, acc, Decoded(ts[0]), end);
    assert DecodedAll(ts) == [Decoded(ts[0])];
  }

  /** The whole length-framed loop after a first packet `p` that does not reach the length gives it from before `p`. */
  lemma LengthJoin(bits: seq<Bit>, start: nat, pos: nat, length: nat, acc: seq<Packet>, p: Packet, q: nat, ps: seq<Packet>, end: nat, all: seq<Packet>)
    requires start <= pos && ParsedPacket(bits, pos) == Ok(p, q) && q - start != length && all == [p] + ps
    requires ByLength(bits, start, q, length, acc + [p]) == Ok(Operator(acc + [p] + ps), end)
    ensures ByLength(bits, start, pos, length, acc) == Ok(Operator(acc + all), end)
  {
    ByLengthMore(bits, start, pos, length, acc, p, q);
    assert acc + [p] + ps == acc + all;
  }

  /** The length-framed loop over encoded layouts after the first reads them all back. */
  lemma {:induction false} LengthMore(bits: seq<Bit>, start: nat, pos: nat, ts: seq<Layout>, acc: seq<Packet>, length: nat, end: nat)
    requires |ts| > 1 && AllWellFormed(ts) && start <= pos
    requires pos + |EncodeAll(ts)| <= |bits| && bits[pos..pos + |EncodeAll(ts)|] == EncodeAll(ts)
    requires length == pos - start + |EncodeAll(ts)| && end == pos + |EncodeAll(ts)|
    ensures ByLength(bits, start, pos, length, acc) == Ok(Operator(acc + DecodedAll(ts)), end)
    decreases ts, 1
  {
    var q, first := pos + |Encode(ts[0])|, Decoded(ts[0]);
    assert ParsedPacket(bits, pos) == Ok(first, q) && q - start != length &&
      ByLength(bits, start, q, length, acc + [first]) == Ok(Operator(acc + [first] + DecodedAll(ts[1..])), end) by {
      FirstPacketParses(bits, pos, ts);
      ParseLengthFramed(bits, start, q, ts[1..], acc + [first], length, end);
    }
    assert DecodedAll(ts) == [first] + DecodedAll(ts[1..]);
    LengthJoin(bits, start, pos, length, acc, first, q, DecodedAll(ts[1..]), end, DecodedAll(ts));
  }

  /**
   * The length-framed loop reads back exactly the packets of the encoded
   * layouts: the bits read since `start` reach the length only after the
   * last one.
   */
  lemma {:induction false} ParseLengthFramed(bits: seq<Bit>, start: nat, pos: nat, ts: seq<Layout>, acc: seq<Packet>, length: nat, end: nat)
    requires ts != [] && AllWellFormed(ts) && start <= pos
    requires pos + |EncodeAll(ts)| <= |bits| && bits[pos..pos + |EncodeAll(ts)|] == EncodeAll(ts)
    requires length == pos - start + |EncodeAll(ts)| && end == pos + |EncodeAll(ts)|
    ensures ByLength(bits, start, pos, length, acc) == Ok(Operator(acc + DecodedAll(ts)), end)
    decreases ts, 2
  {
    if |ts| == 1 {
      LengthLast(bits, start, pos, ts, acc, length, end);
    } else {
      LengthMore(bits, start, pos, ts, acc, length, end);
    }
  }

  /**
   * `Packet::parse` inverts the transmission of any well-formed layout,
   * whatever the framing of each operator and whatever padding follows.
   */
  lemma DecodeEncode(t: Layout, padding: seq<Bit>)
    requires WellFormed(t)
    ensures ParsedPacket(Encode(t) + padding, 0) == Ok(Decoded(t), |Encode(t)|)
  {
    var bits := Encode(t) + padding;
    assert bits[0..|Encode(t)|] == Encode(t);
    ParseEncoded(bits, 0, t);
  }

  function Lit(version: nat, v: U64): Packet
  {
    Packet(version, 4, Literal(v))
  }

  /** The examples `C200B40A82` (1 + 2 = 3) and `04005AC33890` (6 * 9 = 54). */
  lemma EvalSumProduct()
    ensures Eval(Packet(6, 0, Operator([Lit(6, 1), Lit(2, 2)]))) == Some(3)
    ensures Eval(Packet(0, 1, Operator([Lit(5, 6), Lit(3, 9)]))) == Some(54)
  {
    assert [Lit(6, 1), Lit(2, 2)][1..] == [Lit(2, 2)];
    assert [Lit(5, 6), Lit(3, 9)][1..] == [Lit(3, 9)];
    assert Sum([1, 2]) == 3 by { assert [1, 2][..1] == [1]; }
    assert Product([6, 9]) == 54 by { assert [6, 9][..1] == [6]; }
  }

  /** The examples `880086C3E88112` (the minimum of 7, 8, 9) and `CE00C43D881120` (their maximum). */
  lemma EvalMinMax()
    ensures Eval(Packet(4, 2, Operator([Lit(5, 7), Lit(6, 8), Lit(0, 9)]))) == Some(7)
    ensures Eval(Packet(6, 3, Operator([Lit(0, 7), Lit(5, 8), Lit(0, 9)]))) == Some(9)
  {
    EvalSevenEightNine(Lit(5, 7), Lit(6, 8), Lit(0, 9));
    EvalSevenEightNine(Lit(0, 7), Lit(5, 8), Lit(0, 9));
  }

  /** Three literal sub-packets holding 7, 8 and 9 evaluate to those values. */
  lemma EvalSevenEightNine(a: Packet, b: Packet, c: Packet)
    requires a.typeId == 4 && a.contents == Literal(7)
    requires b.typeId == 4 && b.contents == Literal(8)
    requires c.typeId == 4 && c.contents == Literal(9)
    ensures EvalAll([a, b, c]) == Some([7, 8, 9])
  {
    assert Eval(a) == Some(7) && Eval(b) == Some(8) && Eval(c) == Some(9);
    assert EvalAll([c]) == Some([9]) by {
      assert [c][1..] == [] && [9] + [] == [9];
    }
    assert [b, c][1..] == [c];
    assert EvalAll([b, c]) == Some([8] + [9]);
    assert [a, b, c][1..] == [b, c];
    assert [7] + ([8] + [9]) == [7, 8, 9];
  }

  /** The examples `D8005AC2A8F0` (5 < 15), `F600BC2D8F` (5 > 15) and `9C005AC2F8F0` (5 == 15). */
  lemma EvalComparisons()
    ensures Eval(Packet(6, 6, Operator([Lit(5, 5), Lit(2, 15)]))) == Some(1)
    ensures Eval(Packet(7, 5, Operator([Lit(7, 5), Lit(5, 15)]))) == Some(0)
    ensures Eval(Packet(4, 7, Operator([Lit(5, 5), Lit(7, 15)]))) == Some(0)
  {
    assert [Lit(5, 5), Lit(2, 15)][1..] == [Lit(2, 15)];
    assert [Lit(7, 5), Lit(5, 15)][1..] == [Lit(5, 15)];
    assert [Lit(5, 5), Lit(7, 15)][1..] == [Lit(7, 15)];
  }

  /** The example `9C0141080250320F1802104A08`: 1 + 3 equals 2 * 2. */
  lemma EvalNested()
    ensures Eval(Packet(4, 7, Operator([Packet(2, 0, Operator([Lit(2, 1), Lit(4, 3)])),
                                        Packet(6, 1, Operator([Lit(0, 2), Lit(2, 2)]))]))) == Some(1)
  {
    var sum, product := Packet(2, 0, Operator([Lit(2, 1), Lit(4, 3)])), Packet(6, 1, Operator([Lit(0, 2), Lit(2, 2)]));
    assert [Lit(2, 1), Lit(4, 3)][1..] == [Lit(4, 3)];
    assert [Lit(0, 2), Lit(2, 2)][1..] == [Lit(2, 2)];
    assert [sum, product][1..] == [product];
    assert Sum([1, 3]) == 4 by { assert [1, 3][..1] == [1]; }
    assert Product([2, 2]) == 4 by { assert [2, 2][..1] == [2]; }
    assert Eval(sum) == Some(4);
    assert Eval(product) == Some(4);
  }

  /** The layout of the transmission `8A004A801A8002F478`: two count-framed operators round a length-framed one. */
  const Example1: Layout :=
    Layout(4, 2, SubPackets(CountFramed, [Layout(1, 2, SubPackets(CountFramed, [
      Layout(5, 2, SubPackets(LengthFramed, [Layout(6, 4, LiteralGroups([15]))]))]))]))

  /** The layout of `620080001611562C8802118E34`: a count-framed operator holding one of each framing. */
  const Example2: Layout :=
    Layout(3, 0, SubPackets(CountFramed, [
      Layout(0, 0, SubPackets(LengthFramed, [Layout(0, 4, LiteralGroups([10])), Layout(5, 4, LiteralGroups([11]))])),
      Layout(1, 0, SubPackets(CountFramed, [Layout(0, 4, LiteralGroups([12])), Layout(3, 4, LiteralGroups([13]))]))]))

  /** The layout of `C0015000016115A2E0802F182340`: a length-framed operator holding one of each framing. */
  const Example3: Layout :=
    Layout(6, 0, SubPackets(LengthFramed, [
      Layout(0, 0, SubPackets(LengthFramed, [Layout(0, 4, LiteralGroups([10])), Layout(6, 4, LiteralGroups([11]))])),
      Layout(4, 0, SubPackets(CountFramed, [Layout(7, 4, LiteralGroups([12])), Layout(0, 4, LiteralGroups([13]))]))]))

  /** The layout of `A0016C880162017C3686B18A3D4780`: a length-framed operator round two count-framed ones. */
  const Example4: Layout :=
    Layout(5, 0, SubPackets(LengthFramed, [Layout(1, 0, SubPackets(CountFramed, [Layout(3, 0, SubPackets(CountFramed, [
      Layout(7, 4, LiteralGroups([6])), Layout(6, 4, LiteralGroups([6])), Layout(5, 4, LiteralGroups([12])),
      Layout(2, 4, LiteralGroups([15])), Layout(2, 4, LiteralGroups([15]))]))]))]))

  /** A well-formed layout's transmission parses to a packet whose version sum is `n`. */
  predicate ParsesWithVersionSum(t: Layout, n: nat)
  {
    ParsedPacket(Encode(t), 0).Ok? && VersionSum(ParsedPacket(Encode(t), 0).value) == n
  }

  /** `8A004A801A8002F478` has version sum 16. */
  lemma VersionSumExample1()
    ensures ParsesWithVersionSum(Example1, 16)
  {
    ExampleParses(Example1);
  }

  /** `620080001611562C8802118E34` has version sum 12. */
  lemma VersionSumExample2()
    ensures ParsesWithVersionSum(Example2, 12)
  {
    ExampleParses(Example2);
  }

  /** `C0015000016115A2E0802F182340` has version sum 23. */
  lemma VersionSumExample3()
    ensures ParsesWithVersionSum(Example3, 23)
  {
    ExampleParses(Example3);
  }

  /** `A0016C880162017C3686B18A3D4780` has version sum 31. */
  lemma VersionSumExample4()
    ensures ParsesWithVersionSum(Example4, 31)
  {
    ExampleParses(Example4);
  }

  /** The nibbles 7, 14 and 5 make 2021. */
  lemma NibblesOf2021()
    ensures Decoded(Layout(6, 4, LiteralGroups([7, 14, 5]))) == Packet(6, 4, Literal(2021))
  {
    assert [7, 14, 5][1..] == [14, 5] && [14, 5][1..] == [5] && [5][1..] == [];
    assert (0 * 16 + 7) % Wrap == 7 && (7 * 16 + 14) % Wrap == 126 && (126 * 16 + 5) % Wrap == 2021;
    assert Accumulate(2021, []) == 2021;
    assert Accumulate(126, [5]) == 2021;
    assert Accumulate(7, [14, 5]) == 2021;
    assert Accumulate(0, [7, 14, 5]) == 2021;
  }

  /** `D2FE28`: a literal in three groups, 2021. */
  lemma StructureExample1()
    ensures ParsedPacket(Encode(Layout(6, 4, LiteralGroups([7, 14, 5]))), 0) == Ok(Packet(6, 4, Literal(2021)), 21)
  {
    var t := Layout(6, 4, LiteralGroups([7, 14, 5]));
    NibblesOf2021();
    assert |Encode(t)| == 21;
    ExampleParses(t);
  }

  /** `38006F45291200`: a length-framed operator of type 6 over the literals 10 and 20. */
  lemma StructureExample2()
    ensures ParsedPacket(Encode(Layout(1, 6, SubPackets(LengthFramed, [Layout(6, 4, LiteralGroups([10])), Layout(2, 4, LiteralGroups([1, 4]))]))), 0)
      == Ok(Packet(1, 6, Operator([Lit(6, 10), Lit(2, 20)])), 49)
  {
    var a, b := Layout(6, 4, LiteralGroups([10])), Layout(2, 4, LiteralGroups([1, 4]));
    var t := Layout(1, 6, SubPackets(LengthFramed, [a, b]));
    assert [a, b][1..] == [b];
    assert Decoded(b) == Lit(2, 20) by {
      assert [1, 4][1..] == [4];
    }
    assert DecodedAll([b]) == [Lit(2, 20)];
    assert DecodedAll([a, b]) == [Lit(6, 10), Lit(2, 20)];
    assert |EncodeAll([b])| == 16;
    assert |EncodeAll([a, b])| == 27;
    assert WellFormed(a) && WellFormed(b);
    assert [b][1..] == [] && AllWellFormed([]);
    assert AllWellFormed([b]);
    assert AllWellFormed([a, b]);
    ExampleParses(t);
  }

  /** `EE00D40C823060`: a count-framed operator of type 3 over the literals 1, 2 and 3. */
  lemma StructureExample3()
    ensures ParsedPacket(Encode(Layout(7, 3, SubPackets(CountFramed, [Layout(2, 4, LiteralGroups([1])), Layout(4, 4, LiteralGroups([2])), Layout(1, 4, LiteralGroups([3]))]))), 0)
      == Ok(Packet(7, 3, Operator([Lit(2, 1), Lit(4, 2), Lit(1, 3)])), 51)
  {
    var a, b, c := Layout(2, 4, LiteralGroups([1])), Layout(4, 4, LiteralGroups([2])), Layout(1, 4, LiteralGroups([3]));
    var t := Layout(7, 3, SubPackets(CountFramed, [a, b, c]));
    ThreeLiterals(a, b, c);
    ExampleParses(t);
  }

  /** The sub-packets of `EE00D40C823060`: three one-group literals, 33 bits in all. */
  lemma ThreeLiterals(a: Layout, b: Layout, c: Layout)
    requires a == Layout(2, 4, LiteralGroups([1])) && b == Layout(4, 4, LiteralGroups([2])) && c == Layout(1, 4, LiteralGroups([3]))
    ensures AllWellFormed([a, b, c]) && |EncodeAll([a, b, c])| == 33
    ensures DecodedAll([a, b, c]) == [Lit(2, 1), Lit(4, 2), Lit(1, 3)]
  {
    assert [a, b, c][1..] == [b, c] && [b, c][1..] == [c];
    assert DecodedAll([c]) == [Lit(1, 3)];
    assert DecodedAll([b, c]) == [Lit(4, 2), Lit(1, 3)];
    assert |EncodeAll([c])| == 11;
    assert |EncodeAll([b, c])| == 22;
    assert WellFormed(a) && WellFormed(b) && WellFormed(c);
    assert [c][1..] == [] && AllWellFormed([]);
    assert AllWellFormed([c]);
    assert AllWellFormed([b, c]);
  }

  lemma ExampleParses(t: Layout)
    requires WellFormed(t)
    ensures ParsedPacket(Encode(t), 0) == Ok(Decoded(t), |Encode(t)|)
  {
    DecodeEncode(t, []);
    assert Encode(t) + [] == Encode(t);
  }

  /** `solve`: parse the outermost packet, then its version sum and its value; None where either panics. */
  function Solve(bits: seq<Bit>): (r: Option<(nat, int)>)
    ensures r.Some? <==> ParsedPacket(bits, 0).Ok? && Eval(ParsedPacket(bits, 0).value).Some?
    ensures r.Some? ==> r.value.0 == Sum(Versions(Flatten(ParsedPacket(bits, 0).value)))
    ensures r.Some? ==> r.value.1 == Eval(ParsedPacket(bits, 0).value).value
  {
    match ParsedPacket(bits, 0)
    case Incomplete => None
    case Ok(p, _) =>
      VersionSumIsSumOfVersions(p);
      match Eval(p)
      case None => None
      case Some(v) => Some((VersionSum(p), v))
  }

  /** The answers for a transmission are those of the packet its layout carries. */
  lemma SolveEncoded(t: Layout, padding: seq<Bit>)
    requires WellFormed(t) && Eval(Decoded(t)).Some?
    ensures Solve(Encode(t) + padding) == Some((VersionSum(Decoded(t)), Eval(Decoded(t)).value))
  {
    DecodeEncode(t, padding);
  }
}
