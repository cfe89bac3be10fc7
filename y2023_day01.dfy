/**
 * The calibration values of 2023 day 1. A line's value is ten times its
 * first digit plus its last digit. Part 1 counts only the characters
 * '0'..'9'; part 2 walks the line's bytes and also counts a digit spelled
 * out ("one" .. "nine") starting at a position, so overlapping words such
 * as "eightwo" give both 8 and 2. A line with no digit panics on `unwrap`
 * (None here).
 */
module Trebuchet {
  import opened Common
  import opened Text

  /** `char::to_digit(10)`. */
  function CharDigit(c: char): (d: Option<nat>)
    ensures d.Some? <==> IsDigit(c)
    ensures d.Some? ==> d.value < 10 && d.value == c as int - '0' as int
  {
    if IsDigit(c) then Some(c as int - '0' as int) else None
  }

  /** `find_map` over the first `n` positions: the first value found. */
  function FirstSome(xs: seq<Option<nat>>, n: nat): (r: Option<nat>)
    requires n <= |xs|
    ensures r.None? <==> forall i | 0 <= i < n :: xs[i].None?
    ensures r.Some? ==> exists i | 0 <= i < n :: xs[i] == r && forall j | 0 <= j < i :: xs[j].None?
  {
    if n == 0 then None
    else
      var r := FirstSome(xs, n - 1);
      if r.Some? then r else xs[n - 1]
  }

  /** `rev().find_map` over the first `n` positions: the last value found. */
  function LastSome(xs: seq<Option<nat>>, n: nat): (r: Option<nat>)
    requires n <= |xs|
    ensures r.None? <==> forall i | 0 <= i < n :: xs[i].None?
    ensures r.Some? ==> exists i | 0 <= i < n :: xs[i] == r && forall j | i < j < n :: xs[j].None?
  {
    if n == 0 then None
    else if xs[n - 1].Some? then xs[n - 1]
    else LastSome(xs, n - 1)
  }

  /** The value of a line from the digit read at each position: ten times the first plus the last; no digit panics. */
  function Value(xs: seq<Option<nat>>): (r: Option<nat>)
    ensures r.Some? <==> exists i | 0 <= i < |xs| :: xs[i].Some?
    ensures r.Some? && (forall i | 0 <= i < |xs| && xs[i].Some? :: xs[i].value < 10) ==> r.value < 100
  {
    match (FirstSome(xs, |xs|), LastSome(xs, |xs|))
    case (Some(first), Some(last)) => Some(first * 10 + last)
    case _ => None
  }

  /** The digit part 1 reads at each character. */
  function CharReads(line: string): (xs: seq<Option<nat>>)
    ensures |xs| == |line| && forall i | 0 <= i < |line| :: xs[i] == CharDigit(line[i])
  {
    seq(|line|, i requires 0 <= i < |line| => CharDigit(line[i]))
  }

  predicate HasDigit(line: string)
  {
    exists i | 0 <= i < |line| :: IsDigit(line[i])
  }

  /** The line value of part 1. */
  function LineValue(line: string): (v: Option<nat>)
    ensures v.Some? <==> HasDigit(line)
    ensures v.Some? ==> v.value < 100
  {
    var xs := CharReads(line);
    var v := Value(xs);
    if v.Some? then
      var i :| 0 <= i < |xs| && xs[i] == FirstSome(xs, |xs|) && forall j | 0 <= j < i :: xs[j].None?;
      var k :| 0 <= k < |xs| && xs[k] == LastSome(xs, |xs|) && forall j | k < j < |xs| :: xs[j].None?;
      assert IsDigit(line[i]);
      v
    else
      v
  }

  /** A line with a single digit counts it twice: 11 times the digit. */
  lemma SingleDigit(line: string, i: nat)
    requires i < |line| && IsDigit(line[i])
    requires forall j | 0 <= j < |line| && j != i :: !IsDigit(line[j])
    ensures LineValue(line) == Some(11 * (line[i] as int - '0' as int))
  {
    var xs := CharReads(line);
    assert xs[i] == CharDigit(line[i]) && xs[i].Some?;
    assert FirstSome(xs, |xs|).Some? && LastSome(xs, |xs|).Some?;
    var f :| 0 <= f < |xs| && xs[f] == FirstSome(xs, |xs|) && forall j | 0 <= j < f :: xs[j].None?;
    var l :| 0 <= l < |xs| && xs[l] == LastSome(xs, |xs|) && forall j | l < j < |xs| :: xs[j].None?;
    assert xs[f].Some? && xs[f] == CharDigit(line[f]);
    assert xs[l].Some? && xs[l] == CharDigit(line[l]);
  }

  /** The sum of the line values; a line without a value is an `unwrap` that panics. */
  function Total(values: seq<Option<nat>>): (r: Option<nat>)
    ensures r.Some? <==> forall k | 0 <= k < |values| :: values[k].Some?
    ensures r.Some? && (forall k | 0 <= k < |values| && values[k].Some? :: values[k].value < 100) ==>
      r.value <= 99 * |values|
  {
    if values == [] then Some(0)
    else
      var init := values[..|values| - 1];
      assert forall k | 0 <= k < |init| :: init[k] == values[k];
      match (Total(init), values[|values| - 1])
      case (Some(total), Some(v)) => Some(total + v)
      case _ => None
  }

  /** Part 1: the sum of the line values; a line without a digit panics. */
  function Part1(lines: seq<string>): (r: Option<nat>)
    ensures r.Some? <==> forall k | 0 <= k < |lines| :: HasDigit(lines[k])
    ensures r.Some? ==> r.value <= 99 * |lines|
  {
    var values := seq(|lines|, k requires 0 <= k < |lines| => LineValue(lines[k]));
    assert forall k | 0 <= k < |lines| :: values[k] == LineValue(lines[k]);
    Total(values)
  }

  function Word(n: nat): (w: seq<Byte>)
    requires 1 <= n <= 9
    ensures |w| >= 3
  {
    match n
    case 1 => [111, 110, 101]               // one
    case 2 => [116, 119, 111]               // two
    case 3 => [116, 104, 114, 101, 101]     // three
    case 4 => [102, 111, 117, 114]          // four
    case 5 => [102, 105, 118, 101]          // five
    case 6 => [115, 105, 120]               // six
    case 7 => [115, 101, 118, 101, 110]     // seven
    case 8 => [101, 105, 103, 104, 116]     // eight
    case 9 => [110, 105, 110, 101]          // nine
  }

  predicate StartsWith(s: seq<Byte>, prefix: seq<Byte>)
  {
    |prefix| <= |s| && s[..|prefix|] == prefix
  }

  /** `find_map` over `TABLE` from entry `n` on. */
  function PrefixFrom(s: seq<Byte>, n: nat): (r: Option<nat>)
    requires 1 <= n <= 10
    ensures r.Some? ==> n <= r.value <= 9 && StartsWith(s, Word(r.value))
    ensures r.Some? ==> forall m | n <= m < r.value :: !StartsWith(s, Word(m))
    ensures r.None? ==> forall m | n <= m <= 9 :: !StartsWith(s, Word(m))
    decreases 10 - n
  {
    if n == 10 then None
    else if StartsWith(s, Word(n)) then Some(n)
    else PrefixFrom(s, n + 1)
  }

  /** `get_number_prefix`: the number whose word the text starts with, or None when it starts with none. */
  function NumberPrefix(s: seq<Byte>): (r: Option<nat>)
    ensures r.Some? ==> 1 <= r.value <= 9 && StartsWith(s, Word(r.value))
    ensures r.None? ==> forall m | 1 <= m <= 9 :: !StartsWith(s, Word(m))
  {
    PrefixFrom(s, 1)
  }

  /** No spelled digit is a prefix of another, so two words cannot both start a text. */
  lemma WordsDiffer(s: seq<Byte>, a: nat, b: nat)
    requires 1 <= a <= 9 && 1 <= b <= 9 && a != b
    ensures !(StartsWith(s, Word(a)) && StartsWith(s, Word(b)))
  {
    match a {
      case 1 => assert Word(a)[0] != Word(b)[0];
      case 2 => assert Word(a)[0] != Word(b)[0] || Word(a)[1] != Word(b)[1];
      case 3 => assert Word(a)[0] != Word(b)[0] || Word(a)[1] != Word(b)[1];
      case 4 => assert Word(a)[0] != Word(b)[0] || Word(a)[1] != Word(b)[1];
      case 5 => assert Word(a)[0] != Word(b)[0] || Word(a)[1] != Word(b)[1];
      case 6 => assert Word(a)[0] != Word(b)[0] || Word(a)[1] != Word(b)[1];
      case 7 => assert Word(a)[0] != Word(b)[0] || Word(a)[1] != Word(b)[1];
      case 8 => assert Word(a)[0] != Word(b)[0];
      case 9 => assert Word(a)[0] != Word(b)[0] || Word(a)[1] != Word(b)[1];
    }
    assert StartsWith(s, Word(a)) ==> s[..2] == Word(a)[..2];
    assert StartsWith(s, Word(b)) ==> s[..2] == Word(b)[..2];
  }

  /** `get_number_prefix` gives `n` exactly when the text starts with the word for `n`. */
  lemma NumberPrefixMeaning(s: seq<Byte>, n: nat)
    requires 1 <= n <= 9
    ensures NumberPrefix(s) == Some(n) <==> StartsWith(s, Word(n))
  {
    var r := NumberPrefix(s);
    if r.Some? && r.value != n {
      WordsDiffer(s, r.value, n);
    }
  }

  /** `is_ascii_digit`: the bytes of '0'..'9'. */
  predicate IsAsciiDigit(b: Byte)
  {
    48 <= b <= 57
  }

  /** What part 2 reads at position `i`: a digit, or a spelled digit starting there. */
  function DigitAt(bytes: seq<Byte>, i: nat): (r: Option<nat>)
    requires i < |bytes|
    ensures r.Some? ==> r.value < 10
  {
    if IsAsciiDigit(bytes[i]) then Some(bytes[i] - 48) else NumberPrefix(bytes[i..])
  }

  /** The digit part 2 reads at each byte. */
  function ByteReads(bytes: seq<Byte>): (xs: seq<Option<nat>>)
    ensures |xs| == |bytes| && forall i | 0 <= i < |bytes| :: xs[i] == DigitAt(bytes, i)
  {
    seq(|bytes|, i requires 0 <= i < |bytes| => DigitAt(bytes, i))
  }

  /** The line value of part 2: the earliest and the latest digit, spelled or not. */
  function SpelledValue(bytes: seq<Byte>): (v: Option<nat>)
    ensures v.Some? <==> exists i | 0 <= i < |bytes| :: DigitAt(bytes, i).Some?
    ensures v.Some? ==> v.value < 100
  {
    Value(ByteReads(bytes))
  }

  /** The loop of `part2` over one line: `first = first.or(num)` and `last = num.or(last)` at every byte. */
  method FirstAndLast(bytes: seq<Byte>, ghost xs: seq<Option<nat>>) returns (first: Option<nat>, last: Option<nat>)
    requires |xs| == |bytes| && forall i {:trigger DigitAt(bytes, i)} | 0 <= i < |bytes| :: xs[i] == DigitAt(bytes, i)
    ensures first == FirstSome(xs, |xs|) && last == LastSome(xs, |xs|)
  {
    first, last := None, None;
    for i := 0 to |bytes|
      invariant first == FirstSome(xs, i) && last == LastSome(xs, i)
    {
      var num := DigitAt(bytes, i);
      first := if first.Some? then first else num;
      last := if num.Some? then num else last;
    }
  }

  /** A line's value in `part2`: the first and the last number read, as `first * 10 + last`. */
  method CalibrationValue(bytes: seq<Byte>) returns (r: Option<nat>)
    ensures r == SpelledValue(bytes)
  {
    var first, last := FirstAndLast(bytes, ByteReads(bytes));
    if first.None? || last.None? {
      return None;
    }
    r := Some(first.value * 10 + last.value);
  }

  /** Part 2: the sum of the line values; a line without a digit, spelled or not, panics. */
  function Part2(lines: seq<seq<Byte>>): (r: Option<nat>)
    ensures r.Some? <==> forall k | 0 <= k < |lines| :: SpelledValue(lines[k]).Some?
    ensures r.Some? ==> r.value <= 99 * |lines|
  {
    var values := seq(|lines|, k requires 0 <= k < |lines| => SpelledValue(lines[k]));
    assert forall k | 0 <= k < |lines| :: values[k] == SpelledValue(lines[k]);
    Total(values)
  }

  /** The first value found is the one at the first position that has one. */
  lemma FirstAt(xs: seq<Option<nat>>, i: nat)
    requires i < |xs| && xs[i].Some? && forall j | 0 <= j < i :: xs[j].None?
    ensures FirstSome(xs, |xs|) == xs[i]
  {
    var r := FirstSome(xs, |xs|);
    var k :| 0 <= k < |xs| && xs[k] == r && forall j | 0 <= j < k :: xs[j].None?;
    assert k == i;
  }

  /** The last value found is the one at the last position that has one. */
  lemma LastAt(xs: seq<Option<nat>>, i: nat)
    requires i < |xs| && xs[i].Some? && forall j | i < j < |xs| :: xs[j].None?
    ensures LastSome(xs, |xs|) == xs[i]
  {
    var r := LastSome(xs, |xs|);
    var k :| 0 <= k < |xs| && xs[k] == r && forall j | k < j < |xs| :: xs[j].None?;
    assert k == i;
  }

  /** Overlapping words both count: "eightwo" has the value 82. */
  lemma Overlapping(bytes: seq<Byte>)
    requires bytes == [101, 105, 103, 104, 116, 119, 111]
    ensures SpelledValue(bytes) == Some(82)
  {
    var xs := ByteReads(bytes);
    assert xs[0] == Some(8) by {
      assert bytes[0..][..5] == Word(8);
      ReadsWord(bytes, 0, 8);
    }
    assert xs[4] == Some(2) by {
      assert bytes[4..][..3] == Word(2);
      ReadsWord(bytes, 4, 2);
    }
    forall i | 4 < i < 7
      ensures xs[i].None?
    {
      ReadsNothingNearEnd(bytes, i);
    }
    FirstAt(xs, 0);
    LastAt(xs, 4);
  }

  /** A number word starting at a position that is not a digit reads as that number. */
  lemma ReadsWord(bytes: seq<Byte>, i: nat, n: nat)
    requires i < |bytes| && !IsAsciiDigit(bytes[i]) && 1 <= n <= 9 && StartsWith(bytes[i..], Word(n))
    ensures DigitAt(bytes, i) == Some(n)
  {
    NumberPrefixMeaning(bytes[i..], n);
  }

  /** Fewer than three bytes before the end, a position that is not a digit reads nothing. */
  lemma ReadsNothingNearEnd(bytes: seq<Byte>, i: nat)
    requires i < |bytes| < i + 3 && !IsAsciiDigit(bytes[i])
    ensures DigitAt(bytes, i).None?
  {
    assert |bytes[i..]| < 3;
  }

  /** The bytes of an ASCII line. */
  function AsciiBytes(line: string): (bytes: seq<Byte>)
    requires forall i | 0 <= i < |line| :: line[i] < 128 as char
    ensures |bytes| == |line| && forall i | 0 <= i < |line| :: bytes[i] == line[i] as int
  {
    seq(|line|, i requires 0 <= i < |line| => line[i] as int)
  }

  /** On an ASCII line where no digit is spelled out, part 2 reads the same value as part 1. */
  lemma UnspelledAgrees(line: string)
    requires forall i | 0 <= i < |line| :: line[i] < 128 as char
    requires forall i | 0 <= i < |line| :: NumberPrefix(AsciiBytes(line)[i..]).None?
    ensures SpelledValue(AsciiBytes(line)) == LineValue(line)
  {
    var bytes := AsciiBytes(line);
    assert ByteReads(bytes) == CharReads(line);
  }
}
