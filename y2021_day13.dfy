/**
 * The transparent origami of 2021 day 13. Dots on a sheet are folded along
 * a vertical (`x=`) or horizontal (`y=`) line: a dot at or past the line is
 * mirrored onto the near side, a dot before it stays. Coordinates are
 * `usize`, so a dot further past the line than the line is from the edge
 * makes `2 * line - x` underflow, which panics; that is None (or `false`)
 * here.
 */
module Origami {
  import opened Common

  datatype Axis = X | Y

  /** `Axis::from_str`: exactly `x` or `y`. */
  function ParseAxis(s: string): (r: Option<Axis>)
    ensures r == Some(X) <==> s == "x"
    ensures r == Some(Y) <==> s == "y"
    ensures r.None? <==> s != "x" && s != "y"
  {
    if s == "x" then Some(X) else if s == "y" then Some(Y) else None
  }

  datatype Instruction = Instruction(axis: Axis, line: nat)

  /** A dot on the sheet. */
  datatype Dot = Dot(x: nat, y: nat)

  /** The coordinate of a dot across the fold line. */
  function Across(d: Dot, axis: Axis): nat
  {
    if axis == X then d.x else d.y
  }

  /** The coordinate of a dot along the fold line. */
  function Along(d: Dot, axis: Axis): nat
  {
    if axis == X then d.y else d.x
  }

  /** The mirror image of coordinate `c` in `line`, or None where `2 * line - c` underflows. */
  function Mirror(c: nat, line: nat): (r: Option<nat>)
    ensures r.Some? <==> c <= 2 * line
    ensures r.Some? && c < line ==> r.value == c
    ensures r.Some? && c >= line ==> r.value == 2 * line - c
  {
    if c < line then Some(c)
    else if c <= 2 * line then Some(2 * line - c)
    else None
  }

  /** `Point::fold` on values. */
  function Folded(d: Dot, i: Instruction): (r: Option<Dot>)
    ensures r.Some? <==> Mirror(Across(d, i.axis), i.line).Some?
    ensures r.Some? ==> Across(r.value, i.axis) == Mirror(Across(d, i.axis), i.line).value
    ensures r.Some? ==> Along(r.value, i.axis) == Along(d, i.axis)
  {
    match Mirror(Across(d, i.axis), i.line)
    case None => None
    case Some(c) => Some(if i.axis == X then Dot(c, d.y) else Dot(d.x, c))
  }

  /**
   * A fold keeps the distance to the line, lands on or before the line, and
   * leaves the dots before the line where they are.
   */
  lemma FoldMirrors(d: Dot, i: Instruction)
    requires Folded(d, i).Some?
    ensures var c, c' := Across(d, i.axis), Across(Folded(d, i).value, i.axis);
      c' <= i.line && (c < i.line ==> c' == c) &&
      (if c >= i.line then c - i.line else i.line - c) == i.line - c'
  {
  }

  /** Folding twice along the same line changes nothing the second time. */
  lemma FoldIdempotent(d: Dot, i: Instruction)
    requires Folded(d, i).Some?
    ensures var e := Folded(d, i).value; Folded(e, i) == Some(e)
  {
  }

  /** Two dots fold onto the same dot exactly when they are equal or mirror images in the line. */
  lemma FoldMeets(d: Dot, e: Dot, i: Instruction)
    requires Folded(d, i).Some? && Folded(e, i).Some?
    ensures Folded(d, i) == Folded(e, i) <==>
      Along(d, i.axis) == Along(e, i.axis) &&
      (Across(d, i.axis) == Across(e, i.axis) || Across(d, i.axis) + Across(e, i.axis) == 2 * i.line)
  {
    var a, b := Folded(d, i).value, Folded(e, i).value;
    if i.axis == X {
      assert a == b <==> a.x == b.x && a.y == b.y;
    } else {
      assert a == b <==> a.x == b.x && a.y == b.y;
    }
  }

  /** `Point`: a dot whose coordinates a fold updates in place. */
  class Point {
    var x: nat
    var y: nat

    function Value(): Dot
      reads this
    {
      Dot(x, y)
    }

    constructor (d: Dot)
      ensures Value() == d
    {
      x, y := d.x, d.y;
    }

    /** `Point::fold`: mirror the coordinate across the line when it is at or past it; false where that underflows. */
    method Fold(i: Instruction) returns (ok: bool)
      modifies this
      ensures ok == Folded(old(Value()), i).Some?
      ensures ok ==> Value() == Folded(old(Value()), i).value
      ensures !ok ==> Value() == old(Value())
    {
      match i.axis {
        case X =>
          if x >= i.line {
            if x > 2 * i.line {
              return false;
            }
            x := 2 * i.line - x;
          }
        case Y =>
          if y >= i.line {
            if y > 2 * i.line {
              return false;
            }
            y := 2 * i.line - y;
          }
      }
      return true;
    }
  }

  /** Every dot of the sheet can be folded by `i`. */
  predicate Foldable(dots: seq<Dot>, i: Instruction)
  {
    forall k | 0 <= k < |dots| :: Folded(dots[k], i).Some?
  }

  /**
   * The `points.iter_mut()` loop of `solve`: fold every dot in place, in
   * order; false at the first dot that panics.
   */
  method FoldSheet(dots: array<Dot>, i: Instruction) returns (ok: bool)
    modifies dots
    ensures ok == Foldable(old(dots[..]), i)
    ensures ok ==> forall k | 0 <= k < dots.Length :: dots[k] == Folded(old(dots[k]), i).value
  {
    for k := 0 to dots.Length
      invariant forall j | 0 <= j < k :: Folded(old(dots[j]), i).Some? && dots[j] == Folded(old(dots[j]), i).value
      invariant forall j | k <= j < dots.Length :: dots[j] == old(dots[j])
    {
      var folded := Folded(dots[k], i);
      if folded.None? {
        return false;
      }
      dots[k] := folded.value;
    }
    return true;
  }

  /** The dots visible on the sheet: each position once, however many dots lie there. */
  function Visible(dots: seq<Dot>): set<Dot>
  {
    set k | 0 <= k < |dots| :: dots[k]
  }

  /** The dots of a foldable sheet after the fold. */
  function FoldAll(dots: seq<Dot>, i: Instruction): (r: seq<Dot>)
    requires Foldable(dots, i)
    ensures |r| == |dots| && forall k | 0 <= k < |dots| :: r[k] == Folded(dots[k], i).value
  {
    seq(|dots|, k requires 0 <= k < |dots| => Folded(dots[k], i).value)
  }

  /** Folding never shows more dots than before: each visible dot comes from one before the fold. */
  lemma FoldNeverAddsDots(dots: seq<Dot>, i: Instruction)
    requires Foldable(dots, i)
    ensures Visible(FoldAll(dots, i)) == set d | d in Visible(dots) :: Folded(d, i).value
    ensures |Visible(FoldAll(dots, i))| <= |Visible(dots)|
  {
    var after := FoldAll(dots, i);
    var image := set d | d in Visible(dots) :: Folded(d, i).value;
    forall e | e in Visible(after)
      ensures e in image
    {
      var k :| 0 <= k < |after| && after[k] == e;
      assert dots[k] in Visible(dots);
    }
    forall e | e in image
      ensures e in Visible(after)
    {
      var d :| d in Visible(dots) && Folded(d, i).value == e;
      var k :| 0 <= k < |dots| && dots[k] == d;
      assert after[k] == e;
    }
    ImageNoLarger(Visible(dots), i);
  }

  /** The image of a set of foldable dots has at most as many elements as the set. */
  lemma {:induction false} ImageNoLarger(s: set<Dot>, i: Instruction)
    requires forall d | d in s :: Folded(d, i).Some?
    ensures |set d | d in s :: Folded(d, i).value| <= |s|
    decreases |s|
  {
    var image := set e | e in s :: Folded(e, i).value;
    if s == {} {
      assert image == {};
    } else {
      var d :| d in s;
      var rest := s - {d};
      ImageNoLarger(rest, i);
      var restImage := set e | e in rest :: Folded(e, i).value;
      assert image == restImage + {Folded(d, i).value};
      assert |s| == |rest| + 1;
    }
  }

  /** Part 1: the number of visible dots after the first fold. */
  method Part1(dots: array<Dot>, first: Instruction) returns (r: Option<nat>)
    modifies dots
    ensures r.Some? <==> Foldable(old(dots[..]), first)
    ensures r.Some? ==> r.value == |Visible(FoldAll(old(dots[..]), first))|
  {
    var ok := FoldSheet(dots, first);
    if !ok {
      return None;
    }
    assert dots[..] == FoldAll(old(dots[..]), first);
    return Some(|Visible(dots[..])|);
  }
}
