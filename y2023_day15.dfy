/**
 * The HASH algorithm and the HASHMAP of lens boxes of 2023 day 15. A step
 * is a byte string: `name=n` puts a lens of focal length `n` into box
 * `hash(name)`, replacing the lens with that name in place if there is
 * one and appending it otherwise; any other step drops its last byte to get
 * a name and removes that name's lens from its box.
 *
 * Strings are handled as their UTF-8 bytes, as `str::bytes` sees them.
 */
module Lenses {
  import opened Common
  import Text

  /** The same fold with no wrap-around: `c_0 * 17^n + c_1 * 17^(n-1) + ... + c_(n-1) * 17`. */
  function Poly(s: seq<Byte>): nat
  {
    if s == [] then 0 else (Poly(s[..|s| - 1]) + s[|s| - 1]) * 17
  }

  /**
   * `hash`: fold `(state + c) * 17` over the bytes with 8-bit wrap-around.
   * Wrapping at every step gives the exact polynomial reduced modulo 256 once.
   */
  function Hash(s: seq<Byte>): (h: Byte)
    ensures h == Poly(s) % 256
  {
    if s == [] then 0
    else
      var init, c := s[..|s| - 1], s[|s| - 1];
      ModMulStep(Poly(init), c);
      ((Hash(init) + c) % 256 * 17) % 256
  }

  /** `((p % 256 + c) % 256 * 17) % 256 == ((p + c) * 17) % 256`. */
  lemma ModMulStep(p: nat, c: nat)
    ensures ((p % 256 + c) % 256 * 17) % 256 == ((p + c) * 17) % 256
  {
    var x := p % 256 + c;
    ModMul(x, 17);
    assert (p + c) * 17 == (p / 256 * 17) * 256 + x * 17;
    ModAddMultiple(x * 17, p / 256 * 17);
  }

  /** Reducing a factor modulo 256 before multiplying does not change the product modulo 256. */
  lemma ModMul(x: nat, k: nat)
    ensures (x % 256 * k) % 256 == (x * k) % 256
  {
    assert x * k == (x / 256 * k) * 256 + x % 256 * k;
    ModAddMultiple(x % 256 * k, x / 256 * k);
  }

  lemma ModAddMultiple(a: nat, q: nat)
    ensures (q * 256 + a) % 256 == a % 256
  {
  }

  /** The hash of the puzzle's example `HASH` is 52. */
  lemma HashExample()
    ensures Hash([72, 65, 83, 72]) == 52
  {
    assert [72, 65, 83, 72][..3] == [72, 65, 83];
    assert [72, 65, 83][..2] == [72, 65];
    assert [72, 65][..1] == [72];
    assert [72][..0] == [];
    assert Hash([72]) == 200;
    assert Hash([72, 65]) == 153;
    assert Hash([72, 65, 83]) == 172;
  }

  /** `part1`: the sum of the hashes of the steps. */
  function Part1(steps: seq<seq<Byte>>): (r: nat)
    ensures r <= 255 * |steps|
  {
    if steps == [] then 0 else Part1(steps[..|steps| - 1]) + Hash(steps[|steps| - 1])
  }

  datatype Lens = Lens(name: seq<Byte>, focal: Byte)

  /** A parsed step: assign a focal length to a name, or remove the name. */
  datatype Step = Assign(name: seq<Byte>, focal: Byte) | Remove(name: seq<Byte>)

  const Equals: Byte := 61

  /** The bytes as characters, for the integer parser (the digits are ASCII). */
  function AsText(s: seq<Byte>): (t: string)
    ensures |t| == |s| && forall i | 0 <= i < |s| :: t[i] as int == s[i]
  {
    seq(|s|, i requires 0 <= i < |s| => s[i] as char)
  }

  /** The first index of byte `b` in `s`. */
  function IndexOf(s: seq<Byte>, b: Byte): (r: Option<nat>)
    ensures r.Some? ==> r.value < |s| && s[r.value] == b && b !in s[..r.value]
    ensures r.None? ==> b !in s
  {
    if s == [] then None
    else if s[0] == b then Some(0)
    else match IndexOf(s[1..], b)
      case None => None
      case Some(i) =>
        assert s[..i + 1] == [s[0]] + s[1..][..i];
        Some(i + 1)
  }

  /**
   * The step a string denotes, or None where `part2` panics: a focal length
   * that is not a `u8`, an empty step, or a cut that is not on a character
   * boundary (a last byte that continues a multi-byte character).
   */
  function ParseStep(s: seq<Byte>): (r: Option<Step>)
    ensures r.Some? && r.value.Assign? ==>
      |r.value.name| < |s| && s[..|r.value.name|] == r.value.name && s[|r.value.name|] == Equals && Equals !in r.value.name
    ensures r.Some? && r.value.Remove? ==> Equals !in s && |s| > 0 && r.value.name == s[..|s| - 1]
  {
    match IndexOf(s, Equals)
    case Some(i) =>
      (match Text.Parse(Text.U8, AsText(s[i + 1..]))
       case None => None
       case Some(n) =>
         Some(Assign(s[..i], n)))
    case None =>
      if s == [] || s[|s| - 1] >= 128 then None
      else
        Some(Remove(s[..|s| - 1]))
  }

  /** The index of the first lens with `name` in a box. */
  function FindLabel(box: seq<Lens>, name: seq<Byte>): (r: Option<nat>)
    ensures r.Some? ==> r.value < |box| && box[r.value].name == name &&
                        forall k | 0 <= k < r.value :: box[k].name != name
    ensures r.None? ==> forall k | 0 <= k < |box| :: box[k].name != name
  {
    if box == [] then None
    else if box[0].name == name then Some(0)
    else match FindLabel(box[1..], name)
      case None => None
      case Some(i) => Some(i + 1)
  }

  /** `name=n` on a box: change that lens's focal length where it stands, or append a new lens. */
  function Put(box: seq<Lens>, name: seq<Byte>, focal: Byte): (r: seq<Lens>)
    ensures Lens(name, focal) in r
    ensures |r| == |box| || (|r| == |box| + 1 && forall k | 0 <= k < |box| :: box[k].name != name)
    ensures forall k | 0 <= k < |box| && box[k].name != name :: r[k] == box[k]
  {
    match FindLabel(box, name)
    case Some(k) =>
      assert box[k := Lens(name, focal)][k] == Lens(name, focal);
      box[k := Lens(name, focal)]
    case None => box + [Lens(name, focal)]
  }

  /** `retain(|(l, _)| l != name)`. */
  function Take(box: seq<Lens>, name: seq<Byte>): (r: seq<Lens>)
    ensures |r| <= |box|
    ensures forall k | 0 <= k < |r| :: r[k].name != name && r[k] in box
  {
    if box == [] then []
    else if box[|box| - 1].name == name then Take(box[..|box| - 1], name)
    else Take(box[..|box| - 1], name) + [box[|box| - 1]]
  }

  /** No two lenses in a box share a name. */
  predicate Distinct(box: seq<Lens>)
  {
    forall j, k | 0 <= j < k < |box| :: box[j].name != box[k].name
  }

  /**
   * `name=n`: if the name is present, the box keeps its length and every
   * other lens, and that lens gets the new focal length; otherwise the new
   * lens is appended. Labels stay distinct.
   */
  lemma PutInPlaceOrAppend(box: seq<Lens>, name: seq<Byte>, focal: Byte)
    ensures Distinct(box) ==>
      forall k | 0 <= k < |box| && box[k].name == name :: Put(box, name, focal) == box[k := Lens(name, focal)]
    ensures (forall k | 0 <= k < |box| :: box[k].name != name) ==> Put(box, name, focal) == box + [Lens(name, focal)]
    ensures Distinct(box) ==> Distinct(Put(box, name, focal))
  {
  }

  /**
   * `name-`: the lenses left are those of the box without that name, in
   * their original order, and labels stay distinct.
   */
  lemma {:induction false} TakeKeepsOrder(box: seq<Lens>, name: seq<Byte>)
    ensures Take(box, name) == Without(box, name)
    ensures Distinct(box) ==> Distinct(Take(box, name))
  {
    if box != [] {
      var init := box[..|box| - 1];
      TakeKeepsOrder(init, name);
      WithoutAppend(init, box[|box| - 1], name);
      assert box == init + [box[|box| - 1]];
    }
    if Distinct(box) {
      TakeDistinct(box, name);
    }
  }

  /** Taking lenses out of a box with distinct labels leaves the labels distinct. */
  lemma {:induction false} TakeDistinct(box: seq<Lens>, name: seq<Byte>)
    requires Distinct(box)
    ensures Distinct(Take(box, name))
  {
    if box != [] {
      var init, last := box[..|box| - 1], box[|box| - 1];
      assert Distinct(init);
      TakeDistinct(init, name);
      assert forall k | 0 <= k < |init| :: init[k].name != last.name;
    }
  }

  /** The lenses of `box` without those labelled `name`, from the front: an independent statement of `retain`. */
  function Without(box: seq<Lens>, name: seq<Byte>): seq<Lens>
  {
    if box == [] then []
    else (if box[0].name == name then [] else [box[0]]) + Without(box[1..], name)
  }

  lemma {:induction false} WithoutAppend(box: seq<Lens>, x: Lens, name: seq<Byte>)
    ensures Without(box + [x], name) == Without(box, name) + (if x.name == name then [] else [x])
  {
    if box == [] {
      assert [x][1..] == [];
    } else {
      var head, tail := if box[0].name == name then [] else [box[0]], if x.name == name then [] else [x];
      assert (box + [x])[0] == box[0] && (box + [x])[1..] == box[1..] + [x];
      WithoutAppend(box[1..], x, name);
      assert Without(box + [x], name) == head + (Without(box[1..], name) + tail);
      assert head + (Without(box[1..], name) + tail) == (head + Without(box[1..], name)) + tail;
    }
  }

  /** Every lens in box `i` has a name that hashes to `i`. */
  predicate Sorted(boxes: seq<seq<Lens>>)
  {
    forall i, k | 0 <= i < |boxes| && 0 <= k < |boxes[i]| :: Hash(boxes[i][k].name) == i
  }

  /** The boxes after a step. */
  function ApplyStep(boxes: seq<seq<Lens>>, step: Step): (r: seq<seq<Lens>>)
    requires |boxes| == 256
    ensures |r| == 256
  {
    match step
    case Assign(name, focal) => boxes[Hash(name) := Put(boxes[Hash(name)], name, focal)]
    case Remove(name) => boxes[Hash(name) := Take(boxes[Hash(name)], name)]
  }

  /** A step keeps every box sorted by hash and free of repeated labels. */
  lemma ApplyStepInvariant(boxes: seq<seq<Lens>>, step: Step)
    requires |boxes| == 256 && Sorted(boxes) && forall i | 0 <= i < 256 :: Distinct(boxes[i])
    ensures var r := ApplyStep(boxes, step);
      Sorted(r) && forall i | 0 <= i < 256 :: Distinct(r[i])
  {
    var h := Hash(step.name);
    match step
    case Assign(name, focal) =>
      PutInPlaceOrAppend(boxes[h], name, focal);
      var b := Put(boxes[h], name, focal);
      assert forall k | 0 <= k < |b| :: b[k] in boxes[h] || b[k] == Lens(name, focal) by {
        match FindLabel(boxes[h], name)
        case Some(j) =>
        case None =>
      }
    case Remove(name) =>
      TakeKeepsOrder(boxes[h], name);
  }

  /** The boxes after the steps, or None at the first step that panics. */
  function Arrange(boxes: seq<seq<Lens>>, steps: seq<seq<Byte>>): (r: Option<seq<seq<Lens>>>)
    requires |boxes| == 256
    ensures r.Some? ==> |r.value| == 256
    decreases |steps|
  {
    if steps == [] then Some(boxes)
    else match ParseStep(steps[0])
      case None => None
      case Some(step) => Arrange(ApplyStep(boxes, step), steps[1..])
  }

  /** The focusing power of the lenses of one box numbered `i`. */
  function BoxPower(i: nat, box: seq<Lens>): (p: nat)
    ensures p == (i + 1) * BoxPower(0, box)
  {
    if box == [] then 0
    else
      var init, slot := box[..|box| - 1], |box| * box[|box| - 1].focal;
      assert (i + 1) * |box| * box[|box| - 1].focal == (i + 1) * slot;
      assert (i + 1) * BoxPower(0, init) + (i + 1) * slot == (i + 1) * (BoxPower(0, init) + slot);
      BoxPower(i, init) + (i + 1) * |box| * box[|box| - 1].focal
  }

  /** The focusing power of boxes `0..|boxes|`. */
  function Power(boxes: seq<seq<Lens>>): (r: nat)
    ensures forall k | 0 <= k < |boxes| :: BoxPower(k, boxes[k]) <= r
  {
    if boxes == [] then 0 else Power(boxes[..|boxes| - 1]) + BoxPower(|boxes| - 1, boxes[|boxes| - 1])
  }

  function Part2Spec(steps: seq<seq<Byte>>): Option<nat>
  {
    match Arrange(seq(256, _ => []), steps)
    case None => None
    case Some(boxes) => Some(Power(boxes))
  }

  /** Arranging keeps the boxes sorted by hash and free of repeated labels. */
  lemma {:induction false} ArrangeInvariant(boxes: seq<seq<Lens>>, steps: seq<seq<Byte>>)
    requires |boxes| == 256 && Sorted(boxes) && forall i | 0 <= i < 256 :: Distinct(boxes[i])
    requires Arrange(boxes, steps).Some?
    ensures var r := Arrange(boxes, steps).value;
      Sorted(r) && forall i | 0 <= i < 256 :: Distinct(r[i])
    decreases |steps|
  {
    if steps != [] {
      var step := ParseStep(steps[0]).value;
      ApplyStepInvariant(boxes, step);
      ArrangeInvariant(ApplyStep(boxes, step), steps[1..]);
    }
  }

  /** One step on the boxes in place: the lens replaced where its label is, else appended; or the label's lens taken out. */
  method Perform(boxes: array<seq<Lens>>, step: Step)
    requires boxes.Length == 256
    modifies boxes
    ensures boxes[..] == ApplyStep(old(boxes[..]), step)
  {
    match step {
      case Assign(name, focal) =>
        var b := Hash(name);
        var found := FindLabel(boxes[b], name);
        if found.Some? {
          boxes[b] := boxes[b][found.value := Lens(name, focal)];
        } else {
          boxes[b] := boxes[b] + [Lens(name, focal)];
        }
      case Remove(name) =>
        var b := Hash(name);
        boxes[b] := Take(boxes[b], name);
    }
  }

  /** `part2`: apply the steps to 256 boxes in place, then add up the focusing power. */
  method Part2(steps: seq<seq<Byte>>) returns (r: Option<nat>)
    ensures r == Part2Spec(steps)
  {
    var boxes := new seq<Lens>[256](_ => []);
    assert boxes[..] == seq(256, _ => []);
    var i := 0;
    while i < |steps|
      invariant 0 <= i <= |steps|
      invariant Arrange(seq(256, _ => []), steps) == Arrange(boxes[..], steps[i..])
    {
      assert steps[i..][1..] == steps[i + 1..];
      var parsed := ParseStep(steps[i]);
      if parsed.None? {
        return None;
      }
      Perform(boxes, parsed.value);
      i := i + 1;
    }
    return Some(Power(boxes[..]));
  }
}
