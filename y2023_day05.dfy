/**
 * The almanac of 2023 day 5. A mapping sends the source range
 * `src..src + len` onto the destination range `dst..dst + len`; a map (a
 * `table` here) is a list of mappings, and the almanac chains its maps
 * from seeds to locations. The solution runs the chain backwards: from a
 * location, each map in reverse order takes a number back through the
 * first mapping whose destination range holds it, or leaves it alone.
 */
module Fertilizer {
  import opened Common

  datatype Mapping = Mapping(src: nat, dst: nat, len: nat)

  /** `Mapping::map_backward`: a number of the destination range back to its source. */
  function MapBackward(m: Mapping, inp: nat): (r: Option<nat>)
    ensures r.Some? <==> m.dst <= inp < m.dst + m.len
    ensures r.Some? ==> m.src <= r.value < m.src + m.len && r.value - m.src == inp - m.dst
  {
    if m.dst <= inp < m.dst + m.len then Some(inp - m.dst + m.src) else None
  }

  /** The mapping read forwards, as the almanac describes it: a number of the source range to its destination. */
  function MapForward(m: Mapping, x: nat): Option<nat>
  {
    if m.src <= x < m.src + m.len then Some(x - m.src + m.dst) else None
  }

  /** `map_backward` inverts the mapping: it finds exactly the numbers the mapping sends to `inp`. */
  lemma BackwardInvertsForward(m: Mapping, inp: nat, x: nat)
    ensures MapBackward(m, inp) == Some(x) <==> MapForward(m, x) == Some(inp)
  {
  }

  /** `find_map(map_backward)`: the first mapping of the table that takes `num` back. */
  function FindBackward(table: seq<Mapping>, num: nat): (r: Option<nat>)
    ensures r.None? <==> forall i | 0 <= i < |table| :: MapBackward(table[i], num).None?
    ensures r.Some? ==> exists i | 0 <= i < |table| :: MapBackward(table[i], num) == r && FirstBackward(table, num, i)
  {
    if table == [] then None
    else if MapBackward(table[0], num).Some? then
      assert FirstBackward(table, num, 0);
      MapBackward(table[0], num)
    else
      var r := FindBackward(table[1..], num);
      if r.Some? then
        var i :| 0 <= i < |table[1..]| && MapBackward(table[1..][i], num) == r && FirstBackward(table[1..], num, i);
        assert FirstBackward(table, num, i + 1);
        r
      else r
  }

  /** Mapping `i` is the first of the table whose destination range holds `num`. */
  predicate FirstBackward(table: seq<Mapping>, num: nat, i: nat)
    requires i < |table|
  {
    MapBackward(table[i], num).Some? && forall j | 0 <= j < i :: MapBackward(table[j], num).None?
  }

  /** One map of `location_to_seed`: the first mapping that applies, else the number itself. */
  function StepBack(table: seq<Mapping>, num: nat): (r: nat)
    ensures forall i | 0 <= i < |table| && FirstBackward(table, num, i) :: MapBackward(table[i], num) == Some(r)
    ensures (forall i | 0 <= i < |table| :: MapBackward(table[i], num).None?) ==> r == num
  {
    match FindBackward(table, num)
    case Some(v) => v
    case None => num
  }

  /** A number taken back through a map is one the map sends forward to it, or the number itself when no destination range holds it. */
  lemma StepBackMeaning(table: seq<Mapping>, num: nat)
    ensures (exists i | 0 <= i < |table| :: MapForward(table[i], StepBack(table, num)) == Some(num)) ||
            (StepBack(table, num) == num && forall i | 0 <= i < |table| :: !(table[i].dst <= num < table[i].dst + table[i].len))
  {
    var r := FindBackward(table, num);
    if r.Some? {
      var i :| 0 <= i < |table| && MapBackward(table[i], num) == r && FirstBackward(table, num, i);
      BackwardInvertsForward(table[i], num, r.value);
    }
  }

  /** `maps.iter().rev()`. */
  function Reverse(maps: seq<seq<Mapping>>): (r: seq<seq<Mapping>>)
    ensures |r| == |maps|
  {
    if maps == [] then [] else [maps[|maps| - 1]] + Reverse(maps[..|maps| - 1])
  }

  /** The fold of `location_to_seed`, over the maps in the order given. */
  function FoldBack(maps: seq<seq<Mapping>>, num: nat): (r: nat)
    ensures maps != [] ==> r == StepBack(maps[|maps| - 1], FoldBack(maps[..|maps| - 1], num))
  {
    if maps == [] then num
    else
      assert |maps| > 1 ==> maps[1..][..|maps| - 2] == maps[..|maps| - 1][1..];
      FoldBack(maps[1..], StepBack(maps[0], num))
  }

  /**
   * `Almanac::location_to_seed`: the maps from last to first. With no maps
   * the location is its own seed; otherwise the location is taken back
   * through the last map first, then through all the others.
   */
  function LocationToSeed(maps: seq<seq<Mapping>>, location: nat): (r: nat)
    ensures maps == [] ==> r == location
    ensures maps != [] ==> r == LocationToSeed(maps[..|maps| - 1], StepBack(maps[|maps| - 1], location))
  {
    FoldBack(Reverse(maps), location)
  }

  lemma {:induction false} FoldBackAppend(a: seq<seq<Mapping>>, b: seq<seq<Mapping>>, num: nat)
    ensures FoldBack(a + b, num) == FoldBack(b, FoldBack(a, num))
  {
    if a != [] {
      assert (a + b)[0] == a[0] && (a + b)[1..] == a[1..] + b;
      FoldBackAppend(a[1..], b, StepBack(a[0], num));
    } else {
      assert a + b == b;
    }
  }

  /** Chains compose: taking a location back through `a + b` takes it back through `b`, then through `a`. */
  lemma {:induction false} ChainsCompose(a: seq<seq<Mapping>>, b: seq<seq<Mapping>>, location: nat)
    ensures LocationToSeed(a + b, location) == LocationToSeed(a, LocationToSeed(b, location))
  {
    if b == [] {
      assert a + b == a;
    } else {
      var init, last := b[..|b| - 1], b[|b| - 1];
      assert a + b == (a + init) + [last];
      assert (a + b)[..|a + b| - 1] == a + init;
      ChainsCompose(a, init, StepBack(last, location));
    }
  }

  /**
   * `Almanac::in_seed_range`: the seeds read in pairs (start, length), and
   * `seed` in some `start..start + length`. `any` stops at the first hit;
   * a lone start at the end is indexed past its chunk and panics (None).
   */
  function InSeedRange(seeds: seq<nat>, seed: nat): (r: Option<bool>)
    ensures |seeds| % 2 == 0 ==> r.Some?
  {
    if seeds == [] then Some(false)
    else if |seeds| == 1 then None
    else if seeds[0] <= seed < seeds[0] + seeds[1] then Some(true)
    else InSeedRange(seeds[2..], seed)
  }

  /** Pair `k` of the seeds holds `seed`. */
  predicate InPair(seeds: seq<nat>, k: nat, seed: nat)
    requires 2 * k + 1 < |seeds|
  {
    seeds[2 * k] <= seed < seeds[2 * k] + seeds[2 * k + 1]
  }

  /** With an even number of seeds, `in_seed_range` holds exactly when some pair's range holds the seed. */
  lemma {:induction false} InSeedRangeMeaning(seeds: seq<nat>, seed: nat)
    requires |seeds| % 2 == 0
    ensures InSeedRange(seeds, seed) == Some(true) <==> exists k: nat | 2 * k + 1 < |seeds| :: InPair(seeds, k, seed)
  {
    if seeds != [] {
      var rest := seeds[2..];
      InSeedRangeMeaning(rest, seed);
      forall k: nat | 2 * k + 1 < |rest|
        ensures InPair(rest, k, seed) <==> InPair(seeds, k + 1, seed)
      {
        assert rest[2 * k] == seeds[2 * (k + 1)] && rest[2 * k + 1] == seeds[2 * (k + 1) + 1];
      }
      if exists k: nat | 2 * k + 1 < |seeds| :: InPair(seeds, k, seed) {
        var k: nat :| 2 * k + 1 < |seeds| && InPair(seeds, k, seed);
        if k > 0 {
          assert InPair(rest, k - 1, seed);
        }
      }
      if seeds[0] <= seed < seeds[0] + seeds[1] {
        assert InPair(seeds, 0, seed);
      } else if InSeedRange(rest, seed) == Some(true) {
        var k: nat :| 2 * k + 1 < |rest| && InPair(rest, k, seed);
        assert InPair(seeds, k + 1, seed);
      }
    }
  }
}
