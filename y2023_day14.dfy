/**
 * The parabolic reflector dish of 2023 day 14. The platform is a grid of
 * round rocks (`O`), cube rocks (`#`) and empty space (`.`), stored row by
 * row in one vector. Tilting it rolls every round rock as far as it goes
 * towards one edge; cube rocks never move. `tilt` walks the grid in lanes
 * (columns for North and South, rows for East and West), keeping the first
 * free cell of the lane in `top_free` and swapping each round rock there.
 *
 * A lane is modelled as the list of flat indices the inner loop visits, in
 * visiting order: for South and East that is the reversed column or row,
 * and `top_free` then counts cells from the lane's start. The
 * `saturating_sub` in the reversed loops only saturates after the lane's
 * last cell, where it no longer matters.
 */
module Dish {
  import opened Common

  datatype Tile = Round | Cube | Space

  datatype Direction = North | West | South | East

  /** No round rock sits right after an empty cell: nothing can roll further towards the start. */
  predicate Settled(s: seq<Tile>)
  {
    forall k | 0 < k < |s| :: !(s[k] == Round && s[k - 1] == Space)
  }

  /**
   * `tilt`'s handling of one more cell, the `n`th of the lane, given the
   * lane so far and its first free cell: an empty cell stays, a cube rock
   * moves the free cell past itself, and a round rock is swapped into the
   * free cell (the cell it leaves is empty) and the free cell advances.
   */
  function RollCell(prev: (seq<Tile>, nat), x: Tile, n: nat): (r: (seq<Tile>, nat))
    requires prev.1 <= |prev.0|
    ensures |r.0| == |prev.0| + 1
  {
    match x
    case Space => (prev.0 + [Space], prev.1)
    case Cube => (prev.0 + [Cube], n)
    case Round => ((prev.0 + [Space])[prev.1 := Round], prev.1 + 1)
  }

  /**
   * One lane rolled towards its start, cell by cell, together with the
   * first cell a round rock can still roll to.
   */
  function RollState(s: seq<Tile>): (r: (seq<Tile>, nat))
    ensures |r.0| == |s| && r.1 <= |s|
  {
    if s == [] then ([], 0)
    else RollCell(RollState(s[..|s| - 1]), s[|s| - 1], |s|)
  }

  /** A lane after tilting towards its start. */
  function Roll(s: seq<Tile>): seq<Tile>
  {
    RollState(s).0
  }

  /** One more cell of the lane, as `tilt` handles it. */
  lemma RollSnoc(p: seq<Tile>, x: Tile)
    ensures x == Space ==> RollState(p + [x]) == (Roll(p) + [Space], RollState(p).1)
    ensures x == Cube ==> RollState(p + [x]) == (Roll(p) + [Cube], |p| + 1)
    ensures x == Round && RollState(p).1 < |p| ==>
      RollState(p + [x]) == (Roll(p)[RollState(p).1 := Round] + [Space], RollState(p).1 + 1)
    ensures x == Round && RollState(p).1 == |p| ==> RollState(p + [x]) == (Roll(p) + [Round], |p| + 1)
  {
    RollLast(p, x);
    if x == Round {
      RoundCell(RollState(p), |p| + 1);
    }
  }

  /** Where the free cell goes after one more cell. */
  lemma FreeStep(p: seq<Tile>, x: Tile)
    ensures RollState(p + [x]).1 == match x case Space => RollState(p).1 case Cube => |p| + 1 case Round => RollState(p).1 + 1
  {
    RollLast(p, x);
  }

  lemma RollLast(p: seq<Tile>, x: Tile)
    ensures RollState(p + [x]) == RollCell(RollState(p), x, |p| + 1)
  {
    var s := p + [x];
    assert s[..|s| - 1] == p && s[|s| - 1] == x;
  }

  /** A round rock swapped into the free cell, or left where it is when that is its own cell. */
  lemma RoundCell(prev: (seq<Tile>, nat), n: nat)
    requires prev.1 <= |prev.0|
    ensures prev.1 < |prev.0| ==> RollCell(prev, Round, n) == (prev.0[prev.1 := Round] + [Space], prev.1 + 1)
    ensures prev.1 == |prev.0| ==> RollCell(prev, Round, n) == (prev.0 + [Round], prev.1 + 1)
  {
    var t := prev.0 + [Space];
    if prev.1 < |prev.0| {
      assert t[prev.1 := Round] == prev.0[prev.1 := Round] + [Space];
    } else {
      assert t[prev.1 := Round] == prev.0 + [Round];
    }
  }

  /**
   * The free cell ends the rolled rocks: every cell from it on is empty and
   * the cell before it is not. Cube rocks stay where they are.
   */
  lemma {:induction false} RollFree(s: seq<Tile>)
    ensures forall k | RollState(s).1 <= k < |s| :: Roll(s)[k] == Space
    ensures RollState(s).1 == 0 || Roll(s)[RollState(s).1 - 1] != Space
    ensures forall k | 0 <= k < |s| :: Roll(s)[k] == Cube <==> s[k] == Cube
  {
    if s != [] {
      var p, x := s[..|s| - 1], s[|s| - 1];
      assert s == p + [x];
      RollFree(p);
      RollSnoc(p, x);
    }
  }

  lemma MultisetUpdate(t: seq<Tile>, i: nat, v: Tile)
    requires i < |t|
    ensures multiset(t[i := v]) == multiset(t) - multiset{t[i]} + multiset{v}
  {
    assert t == t[..i] + [t[i]] + t[i + 1..];
    assert t[i := v] == t[..i] + [v] + t[i + 1..];
  }

  /** Rolling keeps the rocks: the lane is rearranged, nothing more. */
  lemma {:induction false} RollKeepsRocks(s: seq<Tile>)
    ensures multiset(Roll(s)) == multiset(s)
  {
    if s != [] {
      var p, x := s[..|s| - 1], s[|s| - 1];
      assert s == p + [x];
      RollFree(p);
      RollKeepsRocks(p);
      RollSnoc(p, x);
      var t, top := Roll(p), RollState(p).1;
      if x == Round && top < |p| {
        MultisetUpdate(t, top, Round);
      }
    }
  }

  /** No round rock crosses a cube rock: the cells before a cube rock keep their rocks. */
  lemma {:induction false} RollBlocked(s: seq<Tile>)
    ensures forall c | 0 <= c < |s| && s[c] == Cube :: multiset(Roll(s)[..c]) == multiset(s[..c])
  {
    if s != [] {
      var p, x := s[..|s| - 1], s[|s| - 1];
      assert s == p + [x];
      RollFree(p);
      RollKeepsRocks(p);
      RollBlocked(p);
      RollSnoc(p, x);
      var t, top := Roll(p), RollState(p).1;
      forall c | 0 <= c < |s| && s[c] == Cube
        ensures multiset(Roll(s)[..c]) == multiset(s[..c])
      {
        if c < |p| {
          assert p[c] == Cube;
          assert t[c] == Cube;
          assert Roll(s)[..c] == t[..c];
          assert s[..c] == p[..c];
        } else {
          assert Roll(s)[..c] == t;
          assert s[..c] == p;
        }
      }
    }
  }

  /** A rolled lane is settled. */
  lemma {:induction false} RollSettles(s: seq<Tile>)
    ensures Settled(Roll(s))
  {
    if s != [] {
      var p, x := s[..|s| - 1], s[|s| - 1];
      assert s == p + [x];
      RollFree(p);
      RollSettles(p);
      RollSnoc(p, x);
      var t, top, r := Roll(p), RollState(p).1, Roll(s);
      forall k | 0 < k < |s|
        ensures !(r[k] == Round && r[k - 1] == Space)
      {
        if k < |p| && (x != Round || k < top) {
          assert r[k] == t[k] && r[k - 1] == t[k - 1];
        }
      }
    }
  }

  /** A settled lane rolls onto itself, and its free cell is its end unless it ends in empty space. */
  lemma {:induction false} RollSettled(s: seq<Tile>)
    requires Settled(s)
    ensures Roll(s) == s
    ensures RollState(s).1 == |s| || (s[|s| - 1] == Space && RollState(s).1 < |s|)
  {
    if s != [] {
      var p, x := s[..|s| - 1], s[|s| - 1];
      assert s == p + [x];
      assert Settled(p);
      RollSettled(p);
      RollSnoc(p, x);
      if x == Round && p != [] {
        assert s[|s| - 2] != Space;
      }
    }
  }

  /** Tilting a lane twice is tilting it once. */
  lemma RollIdempotent(s: seq<Tile>)
    ensures Roll(Roll(s)) == Roll(s)
  {
    RollSettles(s);
    RollSettled(Roll(s));
  }

  /** `Platform::compute_idx`: the flat index of (row, col). */
  function ComputeIdx(row: nat, col: nat, width: nat): nat
  {
    row * width + col
  }

  /**
   * The cells the inner loop of `tilt` visits for outer value `o`, in
   * visiting order: `i` runs up the lane, or down it for South and East.
   */
  function Lane(direction: Direction, o: nat, innerLim: nat, width: nat): (lane: seq<nat>)
    ensures |lane| == innerLim
  {
    seq(innerLim, j requires 0 <= j < innerLim =>
      var i := if direction == South || direction == East then innerLim - 1 - j else j;
      if direction == North || direction == South then ComputeIdx(i, o, width) else ComputeIdx(o, i, width))
  }

  /** The lanes of the outer loop, in order. */
  function LanesOf(direction: Direction, outerLim: nat, innerLim: nat, width: nat): (lanes: seq<seq<nat>>)
    ensures |lanes| == outerLim
  {
    seq(outerLim, o requires 0 <= o < outerLim => Lane(direction, o, innerLim, width))
  }

  /**
   * The lanes `tilt` walks, as written: `no_cols` is the number of rows and
   * `no_rows` the row width, and North and South take `no_cols` lanes of
   * `no_rows` cells.
   */
  function AsWrittenLanes(direction: Direction, len: nat, width: nat): seq<seq<nat>>
    requires width > 0
  {
    var noCols, noRows := len / width, width;
    if direction == North || direction == South then LanesOf(direction, noCols, noRows, width)
    else LanesOf(direction, noRows, noCols, width)
  }

  /** The lanes of the grid: one per column for North and South, one per row for East and West. */
  function TiltLanes(direction: Direction, len: nat, width: nat): seq<seq<nat>>
    requires width > 0
  {
    var rows := len / width;
    if direction == North || direction == South then LanesOf(direction, width, rows, width)
    else LanesOf(direction, rows, width, width)
  }

  predicate Distinct(lane: seq<nat>)
  {
    forall j, k | 0 <= j < k < |lane| :: lane[j] != lane[k]
  }

  predicate InBounds(lane: seq<nat>, len: nat)
  {
    forall k | 0 <= k < |lane| :: lane[k] < len
  }

  predicate AllInBounds(lanes: seq<seq<nat>>, len: nat)
  {
    forall l | 0 <= l < |lanes| :: InBounds(lanes[l], len)
  }

  predicate AllDistinct(lanes: seq<seq<nat>>)
  {
    forall l | 0 <= l < |lanes| :: Distinct(lanes[l])
  }

  /** Two lanes share no cell. */
  predicate Apart(a: seq<nat>, b: seq<nat>)
  {
    forall j, k | 0 <= j < |a| && 0 <= k < |b| :: a[j] != b[k]
  }

  /** No cell lies in two lanes. */
  predicate Disjoint(lanes: seq<seq<nat>>)
  {
    forall l, m | 0 <= l < |lanes| && 0 <= m < |lanes| && l != m :: Apart(lanes[l], lanes[m])
  }

  /** The tiles of a lane, in lane order. */
  function Contents(t: seq<Tile>, lane: seq<nat>): (c: seq<Tile>)
    requires InBounds(lane, |t|)
    ensures |c| == |lane|
  {
    seq(|lane|, k requires 0 <= k < |lane| => t[lane[k]])
  }

  /** The tiles of a lane prefix grow by one cell at a time. */
  lemma ContentsSnoc(t: seq<Tile>, lane: seq<nat>, j: nat)
    requires j < |lane| && InBounds(lane[..j + 1], |t|)
    ensures InBounds(lane[..j], |t|)
    ensures Contents(t, lane[..j + 1]) == Contents(t, lane[..j]) + [t[lane[j]]]
  {
    assert forall k | 0 <= k < j :: lane[..j][k] == lane[..j + 1][k];
  }

  /** `t` with `vals[k]` written at `lane[k]`. */
  function Place(t: seq<Tile>, lane: seq<nat>, vals: seq<Tile>): (r: seq<Tile>)
    requires InBounds(lane, |t|) && |vals| == |lane|
    ensures |r| == |t|
    decreases |lane|
  {
    if lane == [] then t else Place(t[lane[0] := vals[0]], lane[1..], vals[1..])
  }

  /** Writing along a lane that visits no cell twice: the lane holds the values, the rest stays. */
  lemma {:induction false} PlaceAt(t: seq<Tile>, lane: seq<nat>, vals: seq<Tile>)
    requires InBounds(lane, |t|) && |vals| == |lane| && Distinct(lane)
    ensures forall k | 0 <= k < |lane| :: Place(t, lane, vals)[lane[k]] == vals[k]
    ensures forall x | 0 <= x < |t| && x !in lane :: Place(t, lane, vals)[x] == t[x]
    decreases |lane|
  {
    if lane != [] {
      var u := t[lane[0] := vals[0]];
      PlaceAt(u, lane[1..], vals[1..]);
      forall k | 0 <= k < |lane|
        ensures Place(t, lane, vals)[lane[k]] == vals[k]
      {
        if k > 0 {
          assert lane[k] == lane[1..][k - 1];
        } else {
          assert lane[0] !in lane[1..];
        }
      }
    }
  }

  /** One lane of the grid rolled towards its start. */
  function ApplyLane(t: seq<Tile>, lane: seq<nat>): (r: seq<Tile>)
    requires InBounds(lane, |t|)
    ensures |r| == |t|
  {
    Place(t, lane, Roll(Contents(t, lane)))
  }

  /** The lanes rolled one after another. */
  function ApplyLanes(t: seq<Tile>, lanes: seq<seq<nat>>): (r: seq<Tile>)
    requires AllInBounds(lanes, |t|)
    ensures |r| == |t|
  {
    if lanes == [] then t
    else ApplyLane(ApplyLanes(t, lanes[..|lanes| - 1]), lanes[|lanes| - 1])
  }

  /** A grid that holds the rolled contents on the lane and is unchanged elsewhere is the lane applied. */
  lemma ApplyLaneMeans(t: seq<Tile>, lane: seq<nat>, u: seq<Tile>)
    requires InBounds(lane, |t|) && Distinct(lane) && |u| == |t|
    requires forall k | 0 <= k < |lane| :: u[lane[k]] == Roll(Contents(t, lane))[k]
    requires forall x | 0 <= x < |t| && x !in lane :: u[x] == t[x]
    ensures u == ApplyLane(t, lane)
  {
    var r := ApplyLane(t, lane);
    PlaceAt(t, lane, Roll(Contents(t, lane)));
    forall x | 0 <= x < |t|
      ensures u[x] == r[x]
    {
      if x in lane {
        var k :| 0 <= k < |lane| && lane[k] == x;
      }
    }
  }

  /**
   * Rolling lanes that share no cell: each lane ends up holding its own
   * contents rolled, and cells outside every lane stay.
   */
  lemma ApplyLanesDisjoint(t: seq<Tile>, lanes: seq<seq<nat>>)
    requires AllInBounds(lanes, |t|) && AllDistinct(lanes) && Disjoint(lanes)
    ensures forall l, k | 0 <= l < |lanes| && 0 <= k < |lanes[l]| ::
      ApplyLanes(t, lanes)[lanes[l][k]] == Roll(Contents(t, lanes[l]))[k]
    ensures forall x | 0 <= x < |t| && (forall l | 0 <= l < |lanes| :: x !in lanes[l]) ::
      ApplyLanes(t, lanes)[x] == t[x]
  {
    ApplyLanesRolled(t, lanes);
    ApplyLanesOutside(t, lanes);
  }

  /** Each of a set of disjoint lanes ends up holding its own contents rolled. */
  lemma {:induction false} ApplyLanesRolled(t: seq<Tile>, lanes: seq<seq<nat>>)
    requires AllInBounds(lanes, |t|) && AllDistinct(lanes) && Disjoint(lanes)
    ensures forall l, k | 0 <= l < |lanes| && 0 <= k < |lanes[l]| ::
      ApplyLanes(t, lanes)[lanes[l][k]] == Roll(Contents(t, lanes[l]))[k]
  {
    if lanes != [] {
      var n := |lanes| - 1;
      var init, last := lanes[..n], lanes[n];
      assert forall l | 0 <= l < n :: init[l] == lanes[l];
      ApplyLanesRolled(t, init);
      var u := ApplyLanes(t, init);
      var r := ApplyLanes(t, lanes);
      LastLaneUntouched(t, lanes);
      PlaceAt(u, last, Roll(Contents(u, last)));
      forall l, k | 0 <= l < n && 0 <= k < |lanes[l]|
        ensures r[lanes[l][k]] == Roll(Contents(t, lanes[l]))[k]
      {
        assert Apart(lanes[n], lanes[l]);
      }
    }
  }

  /** Rolling all lanes but the last leaves the last one's contents as they were, lanes being disjoint. */
  lemma LastLaneUntouched(t: seq<Tile>, lanes: seq<seq<nat>>)
    requires lanes != [] && AllInBounds(lanes, |t|) && AllDistinct(lanes) && Disjoint(lanes)
    ensures var n := |lanes| - 1;
      AllInBounds(lanes[..n], |t|) && Contents(ApplyLanes(t, lanes[..n]), lanes[n]) == Contents(t, lanes[n])
  {
    var n := |lanes| - 1;
    var init, last := lanes[..n], lanes[n];
    assert forall l | 0 <= l < n :: init[l] == lanes[l];
    ApplyLanesOutside(t, init);
    var u := ApplyLanes(t, init);
    forall k | 0 <= k < |last|
      ensures u[last[k]] == t[last[k]]
    {
      forall l | 0 <= l < n
        ensures last[k] !in init[l]
      {
        assert Apart(lanes[l], lanes[n]);
      }
    }
  }

  /** Rolling lanes leaves every cell outside all of them as it was. */
  lemma {:induction false} ApplyLanesOutside(t: seq<Tile>, lanes: seq<seq<nat>>)
    requires AllInBounds(lanes, |t|) && AllDistinct(lanes)
    ensures forall x | 0 <= x < |t| && (forall l | 0 <= l < |lanes| :: x !in lanes[l]) ::
      ApplyLanes(t, lanes)[x] == t[x]
  {
    if lanes != [] {
      var n := |lanes| - 1;
      assert forall l | 0 <= l < n :: lanes[..n][l] == lanes[l];
      ApplyLanesOutside(t, lanes[..n]);
      var u := ApplyLanes(t, lanes[..n]);
      PlaceAt(u, lanes[n], Roll(Contents(u, lanes[n])));
      forall x | 0 <= x < |t| && (forall l | 0 <= l < |lanes| :: x !in lanes[l])
        ensures ApplyLanes(t, lanes)[x] == t[x]
      {
        assert x !in lanes[n];
      }
    }
  }

  /** Rolling lanes that are already settled changes nothing. */
  lemma {:induction false} ApplyLanesSettled(t: seq<Tile>, lanes: seq<seq<nat>>)
    requires AllInBounds(lanes, |t|) && AllDistinct(lanes)
    requires forall l | 0 <= l < |lanes| :: Settled(Contents(t, lanes[l]))
    ensures ApplyLanes(t, lanes) == t
  {
    if lanes != [] {
      var n := |lanes| - 1;
      assert forall l | 0 <= l < n :: lanes[..n][l] == lanes[l];
      ApplyLanesSettled(t, lanes[..n]);
      RollSettled(Contents(t, lanes[n]));
      ApplyLaneMeans(t, lanes[n], t);
    }
  }

  /** A larger factor gives a multiple at least one width larger. */
  lemma MulStep(a: nat, b: nat, width: nat)
    requires a < b
    ensures a * width + width <= b * width
  {
    var d := b - a - 1;
    assert b * width == a * width + width + d * width;
  }

  /** Equal multiples of a positive width have equal factors. */
  lemma MulCancel(a: nat, b: nat, width: nat)
    requires width > 0 && a * width == b * width
    ensures a == b
  {
    if a < b {
      MulStep(a, b, width);
    } else if b < a {
      MulStep(b, a, width);
    }
  }

  /** Cells of a grid `width` wide are distinct for distinct (row, col) with col below the width. */
  lemma CellUnique(r1: nat, c1: nat, r2: nat, c2: nat, width: nat)
    requires c1 < width && c2 < width
    requires ComputeIdx(r1, c1, width) == ComputeIdx(r2, c2, width)
    ensures r1 == r2 && c1 == c2
  {
    if r1 < r2 {
      MulStep(r1, r2, width);
    } else if r2 < r1 {
      MulStep(r2, r1, width);
    }
  }

  /** Every cell of the first `len / width` rows lies in the grid. */
  lemma CellInGrid(row: nat, col: nat, width: nat, len: nat)
    requires width > 0 && row < len / width && col < width
    ensures ComputeIdx(row, col, width) < len
  {
    var q := len / width;
    MulStep(row, q, width);
    assert q * width + len % width == len;
  }

  /** A lane visits no cell twice. */
  lemma LaneDistinct(direction: Direction, o: nat, innerLim: nat, width: nat)
    requires width > 0
    ensures Distinct(Lane(direction, o, innerLim, width))
  {
    var lane := Lane(direction, o, innerLim, width);
    forall j, k | 0 <= j < k < |lane|
      ensures lane[j] != lane[k]
    {
      if (direction == North || direction == South) && lane[j] == lane[k] {
        var i1 := if direction == South then innerLim - 1 - j else j;
        var i2 := if direction == South then innerLim - 1 - k else k;
        MulCancel(i1, i2, width);
      }
    }
  }

  lemma LanesOfDistinct(direction: Direction, outerLim: nat, innerLim: nat, width: nat)
    requires width > 0
    ensures AllDistinct(LanesOf(direction, outerLim, innerLim, width))
  {
    forall o | 0 <= o < outerLim
      ensures Distinct(LanesOf(direction, outerLim, innerLim, width)[o])
    {
      LaneDistinct(direction, o, innerLim, width);
    }
  }

  /** The row and column of cell `j` of lane `o` of the grid's lanes. */
  function LaneCell(direction: Direction, o: nat, j: nat, len: nat, width: nat): (nat, nat)
    requires width > 0
    requires if direction == North || direction == South then j < len / width else j < width
  {
    if direction == North then (j, o)
    else if direction == South then (len / width - 1 - j, o)
    else if direction == West then (o, j)
    else (o, width - 1 - j)
  }

  lemma LaneCellIs(direction: Direction, len: nat, width: nat, o: nat, j: nat)
    requires width > 0
    requires 0 <= o < |TiltLanes(direction, len, width)| && 0 <= j < |TiltLanes(direction, len, width)[o]|
    ensures if direction == North || direction == South then j < len / width else j < width
    ensures var (row, col) := LaneCell(direction, o, j, len, width);
      row < len / width && col < width &&
      TiltLanes(direction, len, width)[o][j] == ComputeIdx(row, col, width) &&
      (if direction == North || direction == South then col == o else row == o)
  {
    var rows := len / width;
    match direction
    case North =>
      assert TiltLanes(direction, len, width)[o][j] == Lane(North, o, rows, width)[j] == ComputeIdx(j, o, width);
    case South =>
      assert TiltLanes(direction, len, width)[o][j] == Lane(South, o, rows, width)[j] == ComputeIdx(rows - 1 - j, o, width);
    case West =>
      assert TiltLanes(direction, len, width)[o][j] == Lane(West, o, width, width)[j] == ComputeIdx(o, j, width);
    case East =>
      assert TiltLanes(direction, len, width)[o][j] == Lane(East, o, width, width)[j] == ComputeIdx(o, width - 1 - j, width);
  }

  /** The grid's lanes lie in the grid, visit no cell twice and share no cell. */
  lemma TiltLanesFit(direction: Direction, len: nat, width: nat)
    requires width > 0
    ensures AllInBounds(TiltLanes(direction, len, width), len)
    ensures AllDistinct(TiltLanes(direction, len, width))
    ensures Disjoint(TiltLanes(direction, len, width))
  {
    var lanes := TiltLanes(direction, len, width);
    var rows := len / width;
    if direction == North || direction == South {
      LanesOfDistinct(direction, width, rows, width);
    } else {
      LanesOfDistinct(direction, rows, width, width);
    }
    forall l, k | 0 <= l < |lanes| && 0 <= k < |lanes[l]|
      ensures lanes[l][k] < len
    {
      LaneCellIs(direction, len, width, l, k);
      var (row, col) := LaneCell(direction, l, k, len, width);
      CellInGrid(row, col, width, len);
    }
    forall l, m, j, k | 0 <= l < |lanes| && 0 <= m < |lanes| && l != m && 0 <= j < |lanes[l]| && 0 <= k < |lanes[m]|
      ensures lanes[l][j] != lanes[m][k]
    {
      LaneCellIs(direction, len, width, l, j);
      LaneCellIs(direction, len, width, m, k);
      var (r1, c1) := LaneCell(direction, l, j, len, width);
      var (r2, c2) := LaneCell(direction, m, k, len, width);
      if lanes[l][j] == lanes[m][k] {
        CellUnique(r1, c1, r2, c2, width);
      }
    }
  }

  /** The tiles after tilting towards `direction`. */
  function Tilted(t: seq<Tile>, direction: Direction, width: nat): (r: seq<Tile>)
    requires width > 0
    ensures |r| == |t|
  {
    TiltLanesFit(direction, |t|, width);
    ApplyLanes(t, TiltLanes(direction, |t|, width))
  }

  /** Each lane of the tilted grid holds that lane of the grid, rolled. */
  lemma TiltedAt(t: seq<Tile>, direction: Direction, width: nat, o: nat, j: nat)
    requires width > 0
    requires 0 <= o < |TiltLanes(direction, |t|, width)| && 0 <= j < |TiltLanes(direction, |t|, width)[o]|
    ensures InBounds(TiltLanes(direction, |t|, width)[o], |t|)
    ensures Tilted(t, direction, width)[TiltLanes(direction, |t|, width)[o][j]] ==
      Roll(Contents(t, TiltLanes(direction, |t|, width)[o]))[j]
  {
    var lanes := TiltLanes(direction, |t|, width);
    TiltLanesFit(direction, |t|, width);
    assert InBounds(lanes[o], |t|);
    ApplyLanesDisjoint(t, lanes);
    assert Tilted(t, direction, width) == ApplyLanes(t, lanes);
  }

  /** The tile at (row, col), or empty space off the grid. */
  function At(t: seq<Tile>, width: nat, row: nat, col: nat): Tile
  {
    if ComputeIdx(row, col, width) < |t| then t[ComputeIdx(row, col, width)] else Space
  }

  /** No round rock sits right below an empty cell. */
  predicate NorthSettled(t: seq<Tile>, width: nat)
    requires width > 0
  {
    forall row, col | 0 < row < |t| / width && 0 <= col < width ::
      !(At(t, width, row, col) == Round && At(t, width, row - 1, col) == Space)
  }

  /** After tilting north, no round rock sits right below an empty cell. */
  lemma NorthTiltSettles(t: seq<Tile>, width: nat)
    requires width > 0
    ensures NorthSettled(Tilted(t, North, width), width)
  {
    var lanes := TiltLanes(North, |t|, width);
    var r := Tilted(t, North, width);
    forall row, col | 0 < row < |t| / width && 0 <= col < width
      ensures !(At(r, width, row, col) == Round && At(r, width, row - 1, col) == Space)
    {
      LaneCellIs(North, |t|, width, col, row);
      LaneCellIs(North, |t|, width, col, row - 1);
      TiltedAt(t, North, width, col, row);
      TiltedAt(t, North, width, col, row - 1);
      RollSettles(Contents(t, lanes[col]));
    }
  }

  /** Tilting twice towards the same edge is tilting once. */
  lemma TiltIdempotent(t: seq<Tile>, direction: Direction, width: nat)
    requires width > 0
    ensures Tilted(Tilted(t, direction, width), direction, width) == Tilted(t, direction, width)
  {
    var lanes := TiltLanes(direction, |t|, width);
    TiltLanesFit(direction, |t|, width);
    var r := Tilted(t, direction, width);
    forall l | 0 <= l < |lanes|
      ensures Settled(Contents(r, lanes[l]))
    {
      var s := Contents(t, lanes[l]);
      forall k | 0 <= k < |lanes[l]|
        ensures Contents(r, lanes[l])[k] == Roll(s)[k]
      {
        TiltedAt(t, direction, width, l, k);
      }
      assert Contents(r, lanes[l]) == Roll(s);
      RollSettles(s);
    }
    ApplyLanesSettled(r, lanes);
  }

  /** `a / b` for a multiple `a` of `b`. */
  lemma DivExact(q: nat, width: nat)
    requires width > 0
    ensures (q * width) / width == q
  {
    var d := (q * width) / width;
    if d < q {
      MulStep(d, q, width);
    }
  }

  /** On a square grid the lanes `tilt` walks are the grid's lanes. */
  lemma SquareLanesAgree(direction: Direction, width: nat)
    requires width > 0
    ensures AsWrittenLanes(direction, width * width, width) == TiltLanes(direction, width * width, width)
  {
    DivExact(width, width);
  }

  /** The lanes of a grid two rows high and one column wide, as `tilt` walks them North and as the grid has them. */
  lemma TallLanes()
    ensures AsWrittenLanes(North, 2, 1) == [[0], [1]]
    ensures TiltLanes(North, 2, 1) == [[0, 1]]
  {
    assert Lane(North, 0, 1, 1) == [0];
    assert Lane(North, 1, 1, 1) == [1];
    assert Lane(North, 0, 2, 1) == [0, 1];
  }

  /** A round rock under an empty cell is not settled; the rock above the empty cell is. */
  lemma TallGridSettled()
    ensures !NorthSettled([Space, Round], 1)
    ensures NorthSettled([Round, Space], 1)
  {
    assert At([Space, Round], 1, 1, 0) == Round && At([Space, Round], 1, 0, 0) == Space;
    assert At([Round, Space], 1, 1, 0) == Space;
  }

  /** The grid's one column rolls the rock up. */
  lemma TallNorthTiltRolls()
    ensures Tilted([Space, Round], North, 1) == [Round, Space]
  {
    TallLanes();
    var t: seq<Tile> := [Space, Round];
    var column: seq<nat> := [0, 1];
    assert Contents(t, column) == [Space] + [Round];
    RollSnoc([], Space);
    RollSnoc([Space], Round);
    ApplyLaneMeans(t, column, [Round, Space]);
    var columns: seq<seq<nat>> := [column];
    assert columns[..0] == [];
    assert Tilted(t, North, 1) == ApplyLanes(t, columns);
  }

  /**
   * With a round rock under an empty cell in a grid two rows high and one
   * column wide, `tilt` North as written walks two lanes of one cell and so
   * leaves the rock where it is, unsettled; the grid's one column rolls it up.
   */
  lemma TallNorthTiltStalls()
    ensures ApplyLanes([Space, Round], AsWrittenLanes(North, 2, 1)) == [Space, Round]
    ensures !NorthSettled([Space, Round], 1)
    ensures Tilted([Space, Round], North, 1) == [Round, Space]
  {
    TallAsWrittenStalls();
    TallGridSettled();
    TallNorthTiltRolls();
  }

  /** Lanes of one cell are settled whatever they hold, so rolling them changes nothing. */
  lemma TallAsWrittenStalls()
    ensures ApplyLanes([Space, Round], AsWrittenLanes(North, 2, 1)) == [Space, Round]
  {
    TallLanes();
    var t: seq<Tile> := [Space, Round];
    var lanes: seq<seq<nat>> := [[0], [1]];
    assert Contents(t, lanes[0]) == [Space];
    assert Contents(t, lanes[1]) == [Round];
    ApplyLanesSettled(t, lanes);
  }

  /** On a grid one row high and two columns wide, `tilt` North as written reads past the end of the tiles. */
  lemma WideNorthTiltOverruns()
    ensures AsWrittenLanes(North, 2, 2) == [[0, 2]]
    ensures !AllInBounds(AsWrittenLanes(North, 2, 2), 2)
  {
    assert 2 / 2 == 1;
    assert LanesOf(North, 1, 2, 2) == [Lane(North, 0, 2, 2)];
    assert Lane(North, 0, 2, 2) == [0, 2];
    assert AsWrittenLanes(North, 2, 2)[0][1] == 2;
  }

  /**
   * One cell of a lane, as the inner loop of `tilt` handles it: with the
   * lane so far holding its rolled contents, the next cell joins them.
   */
  lemma LaneStep(before: seq<Tile>, after: seq<Tile>, lane: seq<nat>, j: nat, p: seq<Tile>, top: nat)
    requires Distinct(lane) && j < |lane| && |p| == j
    requires forall k | 0 <= k <= j :: lane[k] < |before|
    requires forall k | 0 <= k < j :: before[lane[k]] == Roll(p)[k]
    requires top == RollState(p).1
    requires after == if before[lane[j]] == Round && top < j then before[lane[j] := Space][lane[top] := Round] else before
    ensures forall k | 0 <= k <= j :: after[lane[k]] == Roll(p + [before[lane[j]]])[k]
  {
    if before[lane[j]] == Round && top < j {
      LaneStepRound(before, lane, j, p, top);
    } else {
      LaneStepOther(before, lane, j, p, top);
    }
  }

  /** A round rock behind a free cell swaps into it, as the roll of the longer prefix has it. */
  lemma LaneStepRound(before: seq<Tile>, lane: seq<nat>, j: nat, p: seq<Tile>, top: nat)
    requires Distinct(lane) && j < |lane| && |p| == j && top == RollState(p).1 && top < j
    requires forall k | 0 <= k <= j :: lane[k] < |before|
    requires forall k | 0 <= k < j :: before[lane[k]] == Roll(p)[k]
    requires before[lane[j]] == Round
    ensures forall k | 0 <= k <= j ::
      before[lane[j] := Space][lane[top] := Round][lane[k]] == Roll(p + [Round])[k]
  {
    assert Roll(p + [Round]) == Roll(p)[top := Round] + [Space] by {
      RollSnoc(p, Round);
    }
    LaneStepSwap(before, lane, j, Roll(p), top);
  }

  /** Any other tile stays where it is, as the roll of the longer prefix has it. */
  lemma LaneStepOther(before: seq<Tile>, lane: seq<nat>, j: nat, p: seq<Tile>, top: nat)
    requires j < |lane| && |p| == j && top == RollState(p).1
    requires forall k | 0 <= k <= j :: lane[k] < |before|
    requires forall k | 0 <= k < j :: before[lane[k]] == Roll(p)[k]
    requires before[lane[j]] != Round || top == j
    ensures forall k | 0 <= k <= j :: before[lane[k]] == Roll(p + [before[lane[j]]])[k]
  {
    var x := before[lane[j]];
    assert Roll(p + [x]) == Roll(p) + [x] by {
      RollSnoc(p, x);
    }
    LaneStepStays(before, lane, j, Roll(p));
  }

  lemma LaneStepSwap(before: seq<Tile>, lane: seq<nat>, j: nat, rolled: seq<Tile>, top: nat)
    requires Distinct(lane) && j < |lane| && |rolled| == j && top < j
    requires forall k | 0 <= k <= j :: lane[k] < |before|
    requires forall k | 0 <= k < j :: before[lane[k]] == rolled[k]
    ensures forall k | 0 <= k <= j ::
      before[lane[j] := Space][lane[top] := Round][lane[k]] == (rolled[top := Round] + [Space])[k]
  {
    var after := before[lane[j] := Space][lane[top] := Round];
    forall k | 0 <= k <= j
      ensures after[lane[k]] == (rolled[top := Round] + [Space])[k]
    {
      if k == j {
        assert lane[j] != lane[top];
      } else if k != top {
        assert lane[k] != lane[top] && lane[k] != lane[j];
      }
    }
  }

  lemma LaneStepStays(before: seq<Tile>, lane: seq<nat>, j: nat, rolled: seq<Tile>)
    requires j < |lane| && |rolled| == j
    requires forall k | 0 <= k <= j :: lane[k] < |before|
    requires forall k | 0 <= k < j :: before[lane[k]] == rolled[k]
    ensures forall k | 0 <= k <= j :: before[lane[k]] == (rolled + [before[lane[j]]])[k]
  {
  }

  /** The lane prefix `tilt` has handled holds its tiles rolled, and the rest of the grid is as it was. */
  predicate LaneDone(start: seq<Tile>, now: seq<Tile>, lane: seq<nat>, j: nat, top: nat)
    requires j <= |lane|
  {
    |now| == |start| && InBounds(lane[..j], |start|) &&
    top == RollState(Contents(start, lane[..j])).1 &&
    (forall k | 0 <= k < j :: now[lane[k]] == Roll(Contents(start, lane[..j]))[k]) &&
    (forall x | 0 <= x < |now| && x !in lane[..j] :: now[x] == start[x])
  }

  /** The free cell, when it is behind the current cell, is empty. */
  lemma FreeCellEmpty(start: seq<Tile>, now: seq<Tile>, lane: seq<nat>, j: nat, top: nat)
    requires j < |lane| && LaneDone(start, now, lane, j, top)
    ensures top <= j
    ensures top < j ==> lane[top] < |now| && now[lane[top]] == Space
  {
    RollFree(Contents(start, lane[..j]));
    if top < j {
      assert now[lane[top]] == Roll(Contents(start, lane[..j]))[top];
    }
  }

  /** Handling the next cell of the lane extends the handled prefix by that cell. */
  lemma LaneInvariantStep(start: seq<Tile>, before: seq<Tile>, after: seq<Tile>, lane: seq<nat>, j: nat, top: nat, newTop: nat)
    requires Distinct(lane) && j < |lane| && LaneDone(start, before, lane, j, top) && lane[j] < |start|
    requires after == if before[lane[j]] == Round && top < j then before[lane[j] := Space][lane[top] := Round] else before
    requires newTop == match before[lane[j]] case Space => top case Cube => j + 1 case Round => top + 1
    ensures LaneDone(start, after, lane, j + 1, newTop)
  {
    var p := Contents(start, lane[..j]);
    InBoundsSnoc(lane, j, |start|);
    ContentsSnoc(start, lane, j);
    assert lane[j] !in lane[..j];
    assert before[lane[j]] == start[lane[j]];
    FreeStep(p, before[lane[j]]);
    LaneStep(before, after, lane, j, p, top);
    LaneOutsideStep(start, before, after, lane, j, top);
  }

  /** One more cell inside the grid extends an in-bounds prefix of the lane. */
  lemma InBoundsSnoc(lane: seq<nat>, j: nat, len: nat)
    requires j < |lane| && InBounds(lane[..j], len) && lane[j] < len
    ensures InBounds(lane[..j + 1], len) && forall k | 0 <= k <= j :: lane[k] < len
  {
    forall k | 0 <= k <= j
      ensures lane[k] < len && lane[..j + 1][k] == lane[k]
    {
      if k < j {
        assert lane[..j][k] == lane[k];
      }
    }
  }

  /** Handling one more cell of the lane leaves the cells outside the handled prefix as they were. */
  lemma LaneOutsideStep(start: seq<Tile>, before: seq<Tile>, after: seq<Tile>, lane: seq<nat>, j: nat, top: nat)
    requires j < |lane| && |before| == |start| && lane[j] < |before| && (top < j ==> lane[top] < |before|)
    requires forall x | 0 <= x < |before| && x !in lane[..j] :: before[x] == start[x]
    requires after == if before[lane[j]] == Round && top < j then before[lane[j] := Space][lane[top] := Round] else before
    ensures forall y | 0 <= y < |after| && y !in lane[..j + 1] :: after[y] == start[y]
  {
    forall y | 0 <= y < |after| && y !in lane[..j + 1]
      ensures after[y] == start[y]
    {
      assert y !in lane[..j] && y != lane[j];
      if top < j {
        assert lane[..j + 1][top] == lane[top];
      }
    }
  }

  /** The load each cell of a column `height` cells high puts on the north beams. */
  function ColumnLoads(t: seq<Tile>, height: nat): seq<int>
  {
    seq(|t|, k requires 0 <= k < |t| => if t[k] == Round then height - k else 0)
  }

  /** The total load of a column `height` cells high, read from the north edge. */
  function Load(t: seq<Tile>, height: nat): int
  {
    Sum(ColumnLoads(t, height))
  }

  lemma LoadSnoc(u: seq<Tile>, x: Tile, height: nat)
    ensures Load(u + [x], height) == Load(u, height) + (if x == Round then height - |u| else 0)
  {
    assert ColumnLoads(u + [x], height)[..|u|] == ColumnLoads(u, height);
  }

  /** A round rock moved into an empty cell adds that cell's load. */
  lemma LoadFill(u: seq<Tile>, i: nat, height: nat)
    requires i < |u| && u[i] == Space
    ensures Load(u[i := Round], height) == Load(u, height) + (height - i)
  {
    assert ColumnLoads(u[i := Round], height) == ColumnLoads(u, height)[i := height - i];
    SumUpdate(ColumnLoads(u, height), i, height - i);
  }

  /**
   * One more cell of a column: the load of the rolled column grows by the
   * load a round rock has once it stops at the free cell, and by nothing
   * for the other tiles. This is the step `part1` takes per cell.
   */
  lemma LoadStep(p: seq<Tile>, x: Tile, height: nat)
    ensures Load(Roll(p + [x]), height) == Load(Roll(p), height) + (if x == Round then height - RollState(p).1 else 0)
  {
    RollSnoc(p, x);
    var top := RollState(p).1;
    if x == Round && top < |p| {
      RollFree(p);
      LoadFill(Roll(p), top, height);
      LoadSnoc(Roll(p)[top := Round], Space, height);
    } else {
      LoadSnoc(Roll(p), x, height);
    }
  }

  /** Column `c` of the rows, from north to south. */
  function Column(rows: seq<seq<Tile>>, c: nat): seq<Tile>
    requires forall i | 0 <= i < |rows| :: c < |rows[i]|
  {
    seq(|rows|, i requires 0 <= i < |rows| => rows[i][c])
  }

  /** The north load of the first `width` columns, each rolled north on its own. */
  function ColumnsLoad(rows: seq<seq<Tile>>, width: nat): int
    requires forall i | 0 <= i < |rows| :: width <= |rows[i]|
  {
    if width == 0 then 0 else ColumnsLoad(rows, width - 1) + Load(Roll(Column(rows, width - 1)), |rows|)
  }

  /**
   * The inner loop of `part1` over column `col`: the load the column has
   * once rolled north, found in one pass by adding each round rock's load
   * where it stops. A row too short for the column is indexed out of
   * bounds, which panics; that is None here.
   */
  method ColumnLoad(rows: seq<seq<Tile>>, col: nat) returns (r: Option<int>)
    ensures r.Some? <==> forall i | 0 <= i < |rows| :: col < |rows[i]|
    ensures r.Some? ==> r.value == Load(Roll(Column(rows, col)), |rows|)
  {
    var load, topFree := 0, 0;
    for i := 0 to |rows|
      invariant forall k | 0 <= k < i :: col < |rows[k]|
      invariant topFree == RollState(Column(rows[..i], col)).1
      invariant load == Load(Roll(Column(rows[..i], col)), |rows|)
    {
      if col >= |rows[i]| {
        return None;
      }
      ghost var p := Column(rows[..i], col);
      var x := rows[i][col];
      assert Column(rows[..i + 1], col) == p + [x];
      LoadStep(p, x, |rows|);
      FreeStep(p, x);
      load := load + (if x == Round then |rows| - topFree else 0);
      topFree := match x case Space => topFree case Cube => i + 1 case Round => topFree + 1;
    }
    assert rows[..|rows|] == rows;
    return Some(load);
  }

  /**
   * `part1`: the north load of every column rolled north on its own,
   * without moving any tile. A row shorter than the first is indexed out
   * of bounds, which panics; that is None here.
   */
  method Part1(rows: seq<seq<Tile>>) returns (r: Option<int>)
    requires |rows| > 0
    ensures r.Some? <==> forall i | 0 <= i < |rows| :: |rows[0]| <= |rows[i]|
    ensures r.Some? ==> r.value == ColumnsLoad(rows, |rows[0]|)
  {
    var total := 0;
    for col := 0 to |rows[0]|
      invariant forall i | 0 <= i < |rows| :: col <= |rows[i]|
      invariant total == ColumnsLoad(rows, col)
    {
      var load := ColumnLoad(rows, col);
      if load.None? {
        return None;
      }
      total := total + load.value;
    }
    return Some(total);
  }

  /** The load of each cell of the flat grid: rows from its row to the south edge, for a round rock. */
  function CellWeights(t: seq<Tile>, width: nat): seq<int>
    requires width > 0
  {
    seq(|t|, x requires 0 <= x < |t| => if t[x] == Round then |t| / width - x / width else 0)
  }

  /**
   * `Platform::north_weight`: for every round rock, the number of rows from
   * its row to the south edge, added up. A zero width divides by zero at
   * the first round rock, which panics; that is None here.
   */
  function NorthWeight(t: seq<Tile>, width: nat): (r: Option<int>)
    ensures r.None? <==> width == 0 && Round in t
  {
    if width == 0 then (if Round in t then None else Some(0))
    else Some(Sum(CellWeights(t, width)))
  }

  /** Rows of one positive width. */
  predicate Rectangular(rows: seq<seq<Tile>>)
  {
    |rows| > 0 && |rows[0]| > 0 && forall i | 0 <= i < |rows| :: |rows[i]| == |rows[0]|
  }

  lemma {:induction false} FlattenLength<T>(rows: seq<seq<T>>, width: nat)
    requires forall i | 0 <= i < |rows| :: |rows[i]| == width
    ensures |Flatten(rows)| == |rows| * width
  {
    if rows != [] {
      FlattenLength(rows[1..], width);
      assert |rows| * width == width + (|rows| - 1) * width;
    }
  }

  /** Cell (r, c) of the rows lands at `compute_idx` of the flattened tiles. */
  lemma {:induction false} FlattenCell<T>(rows: seq<seq<T>>, width: nat, r: nat, c: nat)
    requires forall i | 0 <= i < |rows| :: |rows[i]| == width
    requires r < |rows| && c < width
    ensures ComputeIdx(r, c, width) < |Flatten(rows)| && Flatten(rows)[ComputeIdx(r, c, width)] == rows[r][c]
  {
    FlattenLength(rows, width);
    MulStep(r, |rows|, width);
    assert Flatten(rows) == rows[0] + Flatten(rows[1..]);
    if r > 0 {
      FlattenCell(rows[1..], width, r - 1, c);
      assert r * width == width + (r - 1) * width;
    }
  }

  /** The row of a flat index is its quotient by the width. */
  lemma DivIdx(row: nat, col: nat, width: nat)
    requires col < width
    ensures ComputeIdx(row, col, width) / width == row
  {
    var x := ComputeIdx(row, col, width);
    CellUnique(x / width, x % width, row, col, width);
  }

  /** The value at (row, col) of a flat grid `height` rows high and `width` wide. */
  function Cell(s: seq<int>, height: nat, width: nat, row: nat, col: nat): int
    requires |s| == height * width && row < height && col < width
  {
    MulStep(row, height, width);
    s[ComputeIdx(row, col, width)]
  }

  function ColumnOf(s: seq<int>, height: nat, width: nat, col: nat): seq<int>
    requires |s| == height * width && col < width
  {
    seq(height, r requires 0 <= r < height => Cell(s, height, width, r, col))
  }

  function ColumnSums(s: seq<int>, height: nat, width: nat): seq<int>
    requires |s| == height * width
  {
    seq(width, c requires 0 <= c < width => Sum(ColumnOf(s, height, width, c)))
  }

  lemma {:induction false} SumAdd(a: seq<int>, b: seq<int>)
    requires |a| == |b|
    ensures Sum(seq(|a|, k requires 0 <= k < |a| => a[k] + b[k])) == Sum(a) + Sum(b)
  {
    if a != [] {
      var n := |a| - 1;
      SumAdd(a[..n], b[..n]);
      assert seq(|a|, k requires 0 <= k < |a| => a[k] + b[k])[..n] == seq(n, k requires 0 <= k < n => a[..n][k] + b[..n][k]);
    }
  }

  /** A grid one row high has its cells as column sums. */
  lemma OneRowColumns(s: seq<int>, width: nat)
    requires |s| == 1 * width
    ensures ColumnSums(s, 1, width) == s
  {
    forall c | 0 <= c < width
      ensures ColumnSums(s, 1, width)[c] == s[c]
    {
      assert ColumnOf(s, 1, width, c) == [s[c]];
      assert [s[c]][..0] == [];
      assert Sum([s[c]]) == s[c];
    }
  }

  /** A column of a grid one row higher is the column of the grid above it and the new row's cell. */
  lemma ColumnOfSnoc(s: seq<int>, h: nat, width: nat, c: nat)
    requires |s| == (h + 1) * width && c < width
    ensures h * width <= |s|
    ensures ColumnOf(s, h + 1, width, c) == ColumnOf(s[..h * width], h, width, c) + [s[h * width + c]]
  {
    assert (h + 1) * width == h * width + width;
    forall r | 0 <= r < h
      ensures Cell(s, h + 1, width, r, c) == Cell(s[..h * width], h, width, r, c)
    {
      MulStep(r, h, width);
    }
  }

  /** The column sums of a grid one row higher add the new row to those of the grid above it. */
  lemma ColumnSumsSnoc(s: seq<int>, h: nat, width: nat)
    requires |s| == (h + 1) * width
    ensures h * width <= |s|
    ensures var a, last := ColumnSums(s[..h * width], h, width), s[h * width..];
      |a| == |last| && ColumnSums(s, h + 1, width) == seq(|a|, k requires 0 <= k < |a| => a[k] + last[k])
  {
    assert (h + 1) * width == h * width + width;
    var p, last := s[..h * width], s[h * width..];
    forall c | 0 <= c < width
      ensures ColumnSums(s, h + 1, width)[c] == ColumnSums(p, h, width)[c] + last[c]
    {
      ColumnOfSnoc(s, h, width, c);
      var col := ColumnOf(s, h + 1, width, c);
      assert col[..h] == ColumnOf(p, h, width, c);
    }
  }

  /** Adding up a flat grid row by row or column by column gives the same total. */
  lemma {:induction false} SumByColumns(s: seq<int>, height: nat, width: nat)
    requires height > 0 && |s| == height * width
    ensures Sum(s) == Sum(ColumnSums(s, height, width))
  {
    if height == 1 {
      OneRowColumns(s, width);
    } else {
      var h := height - 1;
      assert height * width == h * width + width;
      var p, last := s[..h * width], s[h * width..];
      assert s == p + last;
      SumAppend(p, last);
      SumByColumns(p, h, width);
      var a := ColumnSums(p, h, width);
      ColumnSumsSnoc(s, h, width);
      SumAdd(a, last);
    }
  }

  /** The loads of the columns, as a sequence, add up to `ColumnsLoad`. */
  lemma {:induction false} ColumnsLoadSum(rows: seq<seq<Tile>>, width: nat)
    requires forall i | 0 <= i < |rows| :: width <= |rows[i]|
    ensures ColumnsLoad(rows, width) ==
      Sum(seq(width, c requires 0 <= c < width => Load(Roll(Column(rows, c)), |rows|)))
  {
    if width > 0 {
      ColumnsLoadSum(rows, width - 1);
      assert seq(width, c requires 0 <= c < width => Load(Roll(Column(rows, c)), |rows|))[..width - 1] ==
        seq(width - 1, c requires 0 <= c < width - 1 => Load(Roll(Column(rows, c)), |rows|));
    }
  }

  /** On a rectangular grid each column of the north tilt is that column rolled. */
  lemma NorthTiltColumn(rows: seq<seq<Tile>>, c: nat, r: nat)
    requires Rectangular(rows) && c < |rows[0]| && r < |rows|
    ensures |Flatten(rows)| == |rows| * |rows[0]|
    ensures ComputeIdx(r, c, |rows[0]|) < |Flatten(rows)|
    ensures Tilted(Flatten(rows), North, |rows[0]|)[ComputeIdx(r, c, |rows[0]|)] == Roll(Column(rows, c))[r]
  {
    var width, t := |rows[0]|, Flatten(rows);
    FlattenLength(rows, width);
    MulStep(r, |rows|, width);
    DivExact(|rows|, width);
    assert TiltLanes(North, |t|, width) == LanesOf(North, width, |rows|, width);
    var lane := TiltLanes(North, |t|, width)[c];
    assert lane == Lane(North, c, |rows|, width);
    forall j | 0 <= j < |rows|
      ensures lane[j] == ComputeIdx(j, c, width) && lane[j] < |t| && t[lane[j]] == rows[j][c]
    {
      FlattenCell(rows, width, j, c);
    }
    TiltedAt(t, North, width, c, r);
    assert Contents(t, lane) == Column(rows, c);
  }

  /** The load `north_weight` reads off cell (r, c) of the north tilt is the load of row r of column c rolled. */
  lemma NorthWeightCell(rows: seq<seq<Tile>>, c: nat, r: nat)
    requires Rectangular(rows) && c < |rows[0]| && r < |rows|
    ensures |Tilted(Flatten(rows), North, |rows[0]|)| == |rows| * |rows[0]|
    ensures ComputeIdx(r, c, |rows[0]|) < |rows| * |rows[0]|
    ensures CellWeights(Tilted(Flatten(rows), North, |rows[0]|), |rows[0]|)[ComputeIdx(r, c, |rows[0]|)] ==
      ColumnLoads(Roll(Column(rows, c)), |rows|)[r]
  {
    NorthTiltColumn(rows, c, r);
    DivExact(|rows|, |rows[0]|);
    DivIdx(r, c, |rows[0]|);
  }

  /**
   * `part1` computes the load of the grid tilted north: rolling each column
   * on its own and adding up as it goes gives what `north_weight` reads off
   * the tilted platform.
   */
  lemma PartOneIsNorthWeight(rows: seq<seq<Tile>>)
    requires Rectangular(rows)
    ensures NorthWeight(Tilted(Flatten(rows), North, |rows[0]|), |rows[0]|) == Some(ColumnsLoad(rows, |rows[0]|))
  {
    var height, width := |rows|, |rows[0]|;
    FlattenLength(rows, width);
    var t := Tilted(Flatten(rows), North, width);
    var s := CellWeights(t, width);
    SumByColumns(s, height, width);
    forall c | 0 <= c < width
      ensures ColumnSums(s, height, width)[c] == Load(Roll(Column(rows, c)), height)
    {
      forall r | 0 <= r < height
        ensures Cell(s, height, width, r, c) == ColumnLoads(Roll(Column(rows, c)), height)[r]
      {
        NorthWeightCell(rows, c, r);
      }
      assert ColumnOf(s, height, width, c) == ColumnLoads(Roll(Column(rows, c)), height);
    }
    ColumnsLoadSum(rows, width);
    assert ColumnSums(s, height, width) ==
      seq(width, c requires 0 <= c < width => Load(Roll(Column(rows, c)), height));
  }

  /** `Platform`: the tiles row by row, and the width of a row. */
  /** The tiles are a rearrangement of `start` that leaves every cube rock in its cell. */
  ghost predicate Rearranged(start: seq<Tile>, now: seq<Tile>)
  {
    |now| == |start| && multiset(now) == multiset(start) &&
    forall x | 0 <= x < |now| :: now[x] == Cube <==> start[x] == Cube
  }

  /** Moving a round rock into an empty cell keeps the rearrangement. */
  lemma RearrangedSwap(start: seq<Tile>, before: seq<Tile>, after: seq<Tile>, a: nat, b: nat)
    requires Rearranged(start, before) && a < |before| && b < |before|
    requires a == b ==> after == before
    requires a != b ==> before[a] == Round && before[b] == Space && after == before[a := Space][b := Round]
    requires multiset(after) == multiset(before)
    ensures Rearranged(start, after)
  {
  }

  class Platform {
    var tiles: seq<Tile>
    const rowWidth: nat

    /** `From<&[&[u8]]>`: the rows laid end to end; the width is that of the first row. */
    constructor (rows: seq<seq<Tile>>)
      requires |rows| > 0
      ensures tiles == Flatten(rows) && rowWidth == |rows[0]|
    {
      tiles := Flatten(rows);
      rowWidth := |rows[0]|;
    }

    /**
     * `Platform::swap` on flat indices: the same cell is left alone, else
     * the round rock at `a` moves to the empty cell `b` (the debug
     * assertions are the precondition).
     */
    method Swap(a: nat, b: nat)
      requires a < |tiles| && b < |tiles|
      requires a == b || (tiles[a] == Round && tiles[b] == Space)
      modifies this
      ensures a == b ==> tiles == old(tiles)
      ensures a != b ==> tiles == old(tiles)[a := Space][b := Round]
      ensures multiset(tiles) == multiset(old(tiles))
    {
      if a == b {
        return;
      }
      tiles := tiles[a := tiles[b]][b := tiles[a]];
    }

    /**
     * One cell of that pass: a round rock swaps into the free cell, which
     * moves on by one; a cube makes the cell after it the free one.
     */
    method RollLaneCell(ghost start: seq<Tile>, lane: seq<nat>, j: nat, topFree: nat) returns (next: nat)
      requires Distinct(lane) && j < |lane| && lane[j] < |tiles|
      requires Rearranged(start, tiles) && LaneDone(start, tiles, lane, j, topFree)
      modifies this
      ensures Rearranged(start, tiles) && LaneDone(start, tiles, lane, j + 1, next)
    {
      ghost var before := tiles;
      FreeCellEmpty(start, tiles, lane, j, topFree);
      next := topFree;
      match tiles[lane[j]] {
        case Space =>
        case Cube =>
          next := j + 1;
        case Round =>
          Swap(lane[j], lane[topFree]);
          RearrangedSwap(start, before, tiles, lane[j], lane[topFree]);
          next := topFree + 1;
      }
      LaneInvariantStep(start, before, tiles, lane, j, topFree, next);
    }

    /** One pass of the inner loop of `tilt`: roll the lane's round rocks towards its start. */
    method RollLane(lane: seq<nat>) returns (ok: bool)
      requires Distinct(lane)
      modifies this
      ensures |tiles| == |old(tiles)| && multiset(tiles) == multiset(old(tiles))
      ensures forall x | 0 <= x < |tiles| :: tiles[x] == Cube <==> old(tiles)[x] == Cube
      ensures ok <==> InBounds(lane, |old(tiles)|)
      ensures ok ==> tiles == ApplyLane(old(tiles), lane)
    {
      ghost var start := tiles;
      var topFree := 0;
      for j := 0 to |lane|
        invariant Rearranged(start, tiles)
        invariant LaneDone(start, tiles, lane, j, topFree)
      {
        if lane[j] >= |tiles| {
          return false;
        }
        topFree := RollLaneCell(start, lane, j, topFree);
      }
      assert lane[..|lane|] == lane;
      ApplyLaneMeans(start, lane, tiles);
      return true;
    }

    /** The outer loop of `tilt`: roll each lane in turn. */
    method RollLanes(lanes: seq<seq<nat>>) returns (ok: bool)
      requires AllDistinct(lanes)
      modifies this
      ensures |tiles| == |old(tiles)| && multiset(tiles) == multiset(old(tiles))
      ensures forall x | 0 <= x < |tiles| :: tiles[x] == Cube <==> old(tiles)[x] == Cube
      ensures ok <==> AllInBounds(lanes, |old(tiles)|)
      ensures ok ==> tiles == ApplyLanes(old(tiles), lanes)
    {
      ghost var start := tiles;
      for l := 0 to |lanes|
        invariant |tiles| == |start| && multiset(tiles) == multiset(start)
        invariant forall x | 0 <= x < |tiles| :: tiles[x] == Cube <==> start[x] == Cube
        invariant AllInBounds(lanes[..l], |start|)
        invariant tiles == ApplyLanes(start, lanes[..l])
      {
        ok := RollLane(lanes[l]);
        if !ok {
          return false;
        }
        assert lanes[..l + 1][..l] == lanes[..l];
      }
      assert lanes[..|lanes|] == lanes;
      return true;
    }

    /**
     * `Platform::tilt` as written: a zero row width divides by zero, and a
     * lane that leaves the tiles indexes out of bounds; both panic.
     */
    method TiltAsWritten(direction: Direction) returns (ok: bool)
      modifies this
      ensures |tiles| == |old(tiles)| && multiset(tiles) == multiset(old(tiles))
      ensures forall x | 0 <= x < |tiles| :: tiles[x] == Cube <==> old(tiles)[x] == Cube
      ensures ok <==> rowWidth > 0 && AllInBounds(AsWrittenLanes(direction, |old(tiles)|, rowWidth), |old(tiles)|)
      ensures ok ==> tiles == ApplyLanes(old(tiles), AsWrittenLanes(direction, |old(tiles)|, rowWidth))
    {
      if rowWidth == 0 {
        return false;
      }
      var noCols, noRows := |tiles| / rowWidth, rowWidth;
      if direction == North || direction == South {
        LanesOfDistinct(direction, noCols, noRows, rowWidth);
      } else {
        LanesOfDistinct(direction, noRows, noCols, rowWidth);
      }
      ok := RollLanes(AsWrittenLanes(direction, |tiles|, rowWidth));
    }

    /** `Platform::tilt`, walking the columns for North and South and the rows for East and West. */
    method Tilt(direction: Direction) returns (ok: bool)
      modifies this
      ensures |tiles| == |old(tiles)| && multiset(tiles) == multiset(old(tiles))
      ensures forall x | 0 <= x < |tiles| :: tiles[x] == Cube <==> old(tiles)[x] == Cube
      ensures ok <==> rowWidth > 0
      ensures ok ==> tiles == Tilted(old(tiles), direction, rowWidth)
      ensures ok && direction == North ==> NorthSettled(tiles, rowWidth)
    {
      if rowWidth == 0 {
        return false;
      }
      TiltLanesFit(direction, |tiles|, rowWidth);
      ok := RollLanes(TiltLanes(direction, |tiles|, rowWidth));
      NorthTiltSettles(old(tiles), rowWidth);
    }

    /** `Platform::spin`: tilt North, West, South, then East. */
    method Spin() returns (ok: bool)
      modifies this
      ensures |tiles| == |old(tiles)| && multiset(tiles) == multiset(old(tiles))
      ensures forall x | 0 <= x < |tiles| :: tiles[x] == Cube <==> old(tiles)[x] == Cube
      ensures ok <==> rowWidth > 0
      ensures ok ==> tiles == Tilted(Tilted(Tilted(Tilted(old(tiles), North, rowWidth), West, rowWidth), South, rowWidth), East, rowWidth)
    {
      ok := Tilt(North);
      if !ok {
        return;
      }
      ok := Tilt(West);
      ok := Tilt(South);
      ok := Tilt(East);
    }
  }
}
