/**
 * The parts of Rust's `str` and integer-parsing API that the puzzle parsers
 * call: `trim`, `split`, `split_once`, `find`, `lines`, `split_whitespace`,
 * `split_ascii_whitespace` and `from_str_radix`/`parse` for the integer
 * types. Strings are sequences of Unicode scalar values.
 */
module Text {
  import opened Common

  /** `char::is_ascii_whitespace`: space, tab, line feed, form feed, carriage return. */
  predicate IsAsciiWhitespace(c: char)
  {
    c == ' ' || c == '\t' || c == '\n' || c == '\U{000C}' || c == '\r'
  }

  /** `char::is_whitespace`: the Unicode White_Space property. */
  predicate IsWhitespace(c: char)
  {
    IsAsciiWhitespace(c) || c == '\U{000B}' || c == '\U{0085}' || c == '\U{00A0}' ||
    c == '\U{1680}' || ('\U{2000}' <= c <= '\U{200A}') || c == '\U{2028}' || c == '\U{2029}' ||
    c == '\U{202F}' || c == '\U{205F}' || c == '\U{3000}'
  }

  predicate IsDigit(c: char) { '0' <= c <= '9' }

  /** `char::to_digit(radix)` for radix up to 36: digits, then letters of either case. */
  function ToDigit(c: char, radix: nat): (d: Option<nat>)
    requires 2 <= radix <= 36
    ensures d.Some? ==> d.value < radix
  {
    var v :=
      if '0' <= c <= '9' then (c as int) - ('0' as int)
      else if 'a' <= c <= 'z' then (c as int) - ('a' as int) + 10
      else if 'A' <= c <= 'Z' then (c as int) - ('A' as int) + 10
      else radix;
    if v < radix then Some(v) else None
  }

  /** The value of a non-empty string of digits in `radix`, most significant first. */
  function ParseDigits(s: string, radix: nat): (r: Option<nat>)
    requires 2 <= radix <= 36
    ensures r.Some? ==> s != []
  {
    if s == [] then None
    else if |s| == 1 then ToDigit(s[0], radix)
    else match (ParseDigits(s[..|s| - 1], radix), ToDigit(s[|s| - 1], radix))
      case (Some(high), Some(low)) => ProductOfNats(high, radix); Some(high * radix + low)
      case _ => None
  }

  /**
   * `from_str_radix` of an integer type whose range is lo..=hi: an optional
   * sign (`-` only for signed types, and never a sign alone), then at least
   * one digit, and a value that fits the type.
   */
  function ParseInteger(s: string, radix: nat, signed: bool, lo: int, hi: int): (r: Option<int>)
    requires 2 <= radix <= 36
    ensures r.Some? ==> lo <= r.value <= hi
    ensures s == [] ==> r.None?
  {
    if s == [] || ((s[0] == '+' || s[0] == '-') && |s| == 1) then None
    else
      var negative := s[0] == '-' && signed;
      var digits := if s[0] == '+' || negative then s[1..] else s;
      match ParseDigits(digits, radix)
      case None => None
      case Some(v) =>
        var x: int := if negative then 0 - (v as int) else v;
        if lo <= x <= hi then Some(x) else None
  }

  /** The Rust integer types the parsers read. */
  datatype IntType = U8 | U32 | U64 | I32 | I64
  {
    predicate Signed() { this == I32 || this == I64 }

    function Min(): int
    {
      match this
      case I32 => -0x8000_0000
      case I64 => -0x8000_0000_0000_0000
      case _ => 0
    }

    function Max(): int
    {
      match this
      case U8 => 0xFF
      case U32 => 0xFFFF_FFFF
      case U64 => 0xFFFF_FFFF_FFFF_FFFF
      case I32 => 0x7FFF_FFFF
      case I64 => 0x7FFF_FFFF_FFFF_FFFF
    }
  }

  /** `str::parse` for an integer type: decimal `from_str_radix`. */
  function Parse(t: IntType, s: string): (r: Option<int>)
    ensures r.Some? ==> t.Min() <= r.value <= t.Max()
  {
    ParseInteger(s, 10, t.Signed(), t.Min(), t.Max())
  }

  /** The decimal digits of `n`, most significant first, as `Display` writes them. */
  function Decimal(n: nat): (s: string)
    ensures s != [] && forall k | 0 <= k < |s| :: IsDigit(s[k])
  {
    var last := ('0' as int + n % 10) as char;
    if n < 10 then [last] else Decimal(n / 10) + [last]
  }

  /** `Display` of an integer: a minus sign before the digits of a negative one. */
  function Render(x: int): string
  {
    if x < 0 then ['-'] + Decimal(-x) else Decimal(x)
  }

  lemma {:induction false} ParseDecimal(n: nat)
    ensures ParseDigits(Decimal(n), 10) == Some(n)
  {
    if n >= 10 {
      ParseDecimal(n / 10);
      var s := Decimal(n);
      assert s[..|s| - 1] == Decimal(n / 10);
    }
  }

  /** `parse` inverts `Display`: every value of the type, written out in decimal, parses back to itself. */
  lemma ParseRender(t: IntType, x: int)
    requires t.Min() <= x <= t.Max()
    ensures Parse(t, Render(x)) == Some(x)
  {
    if x < 0 {
      ParseNegative(Decimal(-x), t.Signed(), t.Min(), t.Max());
      ParseDecimal(-x);
    } else {
      ParseUnsigned(Decimal(x), t.Signed(), t.Min(), t.Max());
      ParseDecimal(x);
    }
  }

  /** A minus sign before digits negates their value, for a signed type. */
  lemma ParseNegative(digits: string, signed: bool, lo: int, hi: int)
    requires digits != [] && IsDigit(digits[0]) && lo < 0
    requires signed
    ensures ParseInteger(['-'] + digits, 10, signed, lo, hi) ==
      match ParseDigits(digits, 10)
      case None => None
      case Some(v) => var x: int := 0 - v; if lo <= x <= hi then Some(x) else None
  {
    assert (['-'] + digits)[1..] == digits;
  }

  /** Digits with no sign are read as they stand. */
  lemma ParseUnsigned(digits: string, signed: bool, lo: int, hi: int)
    requires digits != [] && IsDigit(digits[0])
    ensures ParseInteger(digits, 10, signed, lo, hi) ==
      match ParseDigits(digits, 10)
      case None => None
      case Some(v) => if lo <= v <= hi then Some(v) else None
  {
  }

  /** Number of leading characters of `s` that satisfy `IsWhitespace`. */
  function LeadingWhitespace(s: string): (n: nat)
    ensures n <= |s|
    ensures forall i | 0 <= i < n :: IsWhitespace(s[i])
    ensures n < |s| ==> !IsWhitespace(s[n])
  {
    if s == [] || !IsWhitespace(s[0]) then 0 else 1 + LeadingWhitespace(s[1..])
  }

  /** Number of trailing characters of `s` that satisfy `IsWhitespace`. */
  function TrailingWhitespace(s: string): (n: nat)
    ensures n <= |s|
    ensures forall i | |s| - n <= i < |s| :: IsWhitespace(s[i])
    ensures n < |s| ==> !IsWhitespace(s[|s| - 1 - n])
  {
    if s == [] || !IsWhitespace(s[|s| - 1]) then 0 else 1 + TrailingWhitespace(s[..|s| - 1])
  }

  /** `str::trim`: the string without leading and trailing whitespace. */
  function Trim(s: string): (t: string)
    ensures |t| <= |s|
    ensures t != [] ==> !IsWhitespace(t[0]) && !IsWhitespace(t[|t| - 1])
  {
    var front := s[LeadingWhitespace(s)..];
    front[..|front| - TrailingWhitespace(front)]
  }

  /** Every character of `s` is whitespace. */
  predicate AllWhitespace(s: string)
  {
    forall i | 0 <= i < |s| :: IsWhitespace(s[i])
  }

  /** Leading whitespace before a text counts towards the text's own. */
  lemma {:induction false} LeadingPadding(a: string, r: string)
    requires AllWhitespace(a)
    ensures LeadingWhitespace(a + r) == |a| + LeadingWhitespace(r)
  {
    if a != [] {
      assert (a + r)[0] == a[0] && (a + r)[1..] == a[1..] + r;
      LeadingPadding(a[1..], r);
    } else {
      assert a + r == r;
    }
  }

  /** Trailing whitespace after a text counts towards the text's own. */
  lemma {:induction false} TrailingPadding(r: string, b: string)
    requires AllWhitespace(b)
    ensures TrailingWhitespace(r + b) == TrailingWhitespace(r) + |b|
  {
    if b != [] {
      assert (r + b)[|r + b| - 1] == b[|b| - 1] && (r + b)[..|r + b| - 1] == r + b[..|b| - 1];
      TrailingPadding(r, b[..|b| - 1]);
    } else {
      assert r + b == r;
    }
  }

  /**
   * The converse of `Trim`: whitespace padding around a text that neither
   * starts nor ends with whitespace is exactly what `trim` removes.
   */
  lemma TrimPadded(a: string, t: string, b: string)
    requires AllWhitespace(a) && AllWhitespace(b)
    requires t != [] ==> !IsWhitespace(t[0]) && !IsWhitespace(t[|t| - 1])
    ensures Trim(a + t + b) == t
  {
    LeadingPadding(a, t + b);
    assert a + t + b == a + (t + b);
    if t == [] {
      LeadingPadding(b, []);
      assert b + [] == b;
    } else {
      assert (a + t + b)[|a|..] == t + b;
      TrailingPadding(t, b);
      assert (t + b)[..|t|] == t;
    }
  }

  /** `str::split(sep)`: the pieces between separators; never empty. */
  function Split(s: string, sep: char): (parts: seq<string>)
    ensures |parts| >= 1
    ensures sep in s ==> |parts| >= 2
    ensures forall i | 0 <= i < |parts| :: sep !in parts[i]
  {
    if s == [] then [[]]
    else
      var rest := Split(s[1..], sep);
      if s[0] == sep then [[]] + rest else [[s[0]] + rest[0]] + rest[1..]
  }

  /** A text without the separator is a single piece. */
  lemma {:induction false} SplitWithoutSeparator(s: string, sep: char)
    requires sep !in s
    ensures Split(s, sep) == [s]
  {
    if s != [] {
      SplitWithoutSeparator(s[1..], sep);
      assert [s[0]] + s[1..] == s;
    }
  }

  /** The first piece ends at the first separator; the rest is the split of what follows. */
  lemma {:induction false} SplitAtSeparator(a: string, b: string, sep: char)
    requires sep !in a
    ensures Split(a + [sep] + b, sep) == [a] + Split(b, sep)
  {
    if a != [] {
      assert (a + [sep] + b)[1..] == a[1..] + [sep] + b;
      SplitAtSeparator(a[1..], b, sep);
      assert [a[0]] + a[1..] == a;
    } else {
      assert (a + [sep] + b)[1..] == b;
    }
  }

  /** The inverse of `Split`: the pieces with `sep` between each pair. */
  function Join(parts: seq<string>, sep: char): string
  {
    if parts == [] then []
    else if |parts| == 1 then parts[0]
    else parts[0] + [sep] + Join(parts[1..], sep)
  }

  lemma {:induction false} JoinSplit(s: string, sep: char)
    ensures Join(Split(s, sep), sep) == s
  {
    if s != [] {
      var rest := Split(s[1..], sep);
      JoinSplit(s[1..], sep);
      if s[0] != sep {
        if |rest| == 1 {
          assert Split(s, sep) == [[s[0]] + rest[0]];
        } else {
          assert Split(s, sep)[1..] == rest[1..];
        }
      }
    }
  }

  /** `pat` occurs in `s` starting at position `j`. */
  predicate OccursAt(s: string, pat: string, j: int)
  {
    0 <= j && j + |pat| <= |s| && s[j..j + |pat|] == pat
  }

  /** `pat` does not occur at `j` when its first character differs from the one there. */
  lemma FirstDiffers(s: string, pat: string, j: nat)
    requires pat != [] && j < |s| && s[j] != pat[0]
    ensures !OccursAt(s, pat, j)
  {
    if j + |pat| <= |s| {
      assert s[j..j + |pat|][0] != pat[0];
    }
  }

  /** `str::find(pat)`: the first position at which `pat` occurs. */
  function Find(s: string, pat: string): (r: Option<nat>)
    ensures r.Some? ==> OccursAt(s, pat, r.value)
    ensures r.Some? ==> forall j | 0 <= j < r.value :: !OccursAt(s, pat, j)
    ensures r.None? ==> forall j :: !OccursAt(s, pat, j)
  {
    FindFrom(s, pat, 0)
  }

  function FindFrom(s: string, pat: string, from: nat): (r: Option<nat>)
    ensures r.Some? ==> from <= r.value && OccursAt(s, pat, r.value)
    ensures r.Some? ==> forall j | from <= j < r.value :: !OccursAt(s, pat, j)
    ensures r.None? ==> forall j | from <= j :: !OccursAt(s, pat, j)
    decreases |s| + 1 - from
  {
    if from + |pat| > |s| then None
    else if s[from..from + |pat|] == pat then Some(from)
    else FindFrom(s, pat, from + 1)
  }

  /** `str::split_once(pat)`: the text before and after the first `pat`. */
  function SplitOnce(s: string, pat: string): (r: Option<(string, string)>)
    ensures r.Some? ==> r.value.0 + pat + r.value.1 == s
    ensures r.None? <==> Find(s, pat).None?
  {
    match Find(s, pat)
    case None => None
    case Some(k) =>
      assert s == s[..k] + s[k..k + |pat|] + s[k + |pat|..];
      Some((s[..k], s[k + |pat|..]))
  }

  /** A line without the one carriage return that ends it, if it ends with one. */
  function StripCr(line: string): (r: string)
    ensures '\r' !in line ==> r == line
    ensures line != [] && line[|line| - 1] == '\r' ==> r + ['\r'] == line
  {
    if line != [] && line[|line| - 1] == '\r' then line[..|line| - 1] else line
  }

  /**
   * The pieces between line feeds, each without a carriage return that
   * ends it, except the last when no line feed follows it (`ended` false).
   */
  function StripPieces(kept: seq<string>, ended: bool): (ls: seq<string>)
    ensures |ls| == |kept|
  {
    seq(|kept|, i requires 0 <= i < |kept| => if i < |kept| - 1 || ended then StripCr(kept[i]) else kept[i])
  }

  /** A piece with more pieces or a line feed after it loses its carriage return. */
  lemma StripPiecesCons(x: string, rest: seq<string>, ended: bool)
    requires rest != [] || ended
    ensures StripPieces([x] + rest, ended) == [StripCr(x)] + StripPieces(rest, ended)
  {
    var l, r := StripPieces([x] + rest, ended), StripPieces(rest, ended);
    forall i | 0 <= i < |l|
      ensures l[i] == ([StripCr(x)] + r)[i]
    {
      if i > 0 {
        assert ([x] + rest)[i] == rest[i - 1];
      }
    }
  }

  /**
   * `str::lines`: split at line feeds, no final empty line, and a carriage
   * return removed from a line only when a line feed follows it; a last
   * line without its line feed keeps a carriage return it ends with.
   */
  function Lines(s: string): (ls: seq<string>)
    ensures ls == [] <==> s == []
    ensures forall i | 0 <= i < |ls| :: '\n' !in ls[i]
  {
    if s == [] then []
    else
      var parts := Split(s, '\n');
      var kept := if s[|s| - 1] == '\n' then parts[..|parts| - 1] else parts;
      assert s[|s| - 1] in s;
      StripPieces(kept, s[|s| - 1] == '\n')
  }

  /** A line ended by a line feed is the first line, without a carriage return that ends it. */
  lemma LinesCons(a: string, b: string)
    requires '\n' !in a
    ensures Lines(a + ['\n'] + b) == [StripCr(a)] + Lines(b)
  {
    var s := a + ['\n'] + b;
    SplitAtSeparator(a, b, '\n');
    var pb := Split(b, '\n');
    assert Split(s, '\n') == [a] + pb;
    if b == [] {
      assert s[|s| - 1] == '\n';
      assert ([a] + [[]])[..1] == [a];
      StripPiecesCons(a, [], true);
    } else {
      var ended := b[|b| - 1] == '\n';
      assert s[|s| - 1] == b[|b| - 1];
      var keptB := if ended then pb[..|pb| - 1] else pb;
      assert b[|b| - 1] in b;
      assert (if ended then ([a] + pb)[..|pb|] else [a] + pb) == [a] + keptB;
      StripPiecesCons(a, keptB, ended);
    }
  }

  /** The last line, with no line feed after it, comes back unchanged, a final carriage return included. */
  lemma LinesLast(a: string)
    requires a != [] && '\n' !in a
    ensures Lines(a) == [a]
  {
    SplitWithoutSeparator(a, '\n');
    assert a[|a| - 1] in a;
  }

  /** Whitespace of the kind the word splitters look for: ASCII only, or all of Unicode's. */
  predicate IsSpace(c: char, ascii: bool)
  {
    if ascii then IsAsciiWhitespace(c) else IsWhitespace(c)
  }

  /** Number of leading characters of `s` that are not whitespace of the chosen kind. */
  function WordLength(s: string, ascii: bool): (n: nat)
    ensures n <= |s|
    ensures forall k | 0 <= k < n :: !IsSpace(s[k], ascii)
    ensures n < |s| ==> IsSpace(s[n], ascii)
  {
    if s == [] || IsSpace(s[0], ascii) then 0
    else 1 + WordLength(s[1..], ascii)
  }

  /**
   * `str::split_whitespace` (ascii false) and `str::split_ascii_whitespace`
   * (ascii true): the maximal non-empty runs of non-whitespace characters.
   */
  function Words(s: string, ascii: bool): (ws: seq<string>)
    ensures forall i | 0 <= i < |ws| :: ws[i] != []
    ensures forall i, k | 0 <= i < |ws| && 0 <= k < |ws[i]| :: !IsSpace(ws[i][k], ascii)
    decreases |s|
  {
    if s == [] then []
    else if IsSpace(s[0], ascii) then Words(s[1..], ascii)
    else
      var n := WordLength(s, ascii);
      [s[..n]] + Words(s[n..], ascii)
  }

  /** A word runs up to the whitespace that follows it. */
  lemma {:induction false} WordLengthOf(w: string, rest: string, ascii: bool)
    requires forall k | 0 <= k < |w| :: !IsSpace(w[k], ascii)
    requires rest == [] || IsSpace(rest[0], ascii)
    ensures WordLength(w + rest, ascii) == |w|
  {
    if w != [] {
      assert (w + rest)[0] == w[0] && (w + rest)[1..] == w[1..] + rest;
      WordLengthOf(w[1..], rest, ascii);
    } else {
      assert w + rest == rest;
    }
  }

  /** A word followed by whitespace or by nothing is the first word. */
  lemma WordsCons(w: string, rest: string, ascii: bool)
    requires w != [] && forall k | 0 <= k < |w| :: !IsSpace(w[k], ascii)
    requires rest == [] || IsSpace(rest[0], ascii)
    ensures Words(w + rest, ascii) == [w] + Words(rest, ascii)
  {
    WordLengthOf(w, rest, ascii);
    assert (w + rest)[0] == w[0];
    assert (w + rest)[..|w|] == w && (w + rest)[|w|..] == rest;
  }

  /**
   * The converse of `Words`: non-empty words free of whitespace, written
   * with one space between each pair, split back into those words.
   */
  lemma {:induction false} WordsJoin(ws: seq<string>, ascii: bool)
    requires forall i | 0 <= i < |ws| :: ws[i] != []
    requires forall i, k | 0 <= i < |ws| && 0 <= k < |ws[i]| :: !IsSpace(ws[i][k], ascii)
    ensures Words(Join(ws, ' '), ascii) == ws
  {
    if |ws| == 1 {
      WordsCons(ws[0], [], ascii);
      assert ws[0] + [] == ws[0];
    } else if |ws| > 1 {
      var tail := ws[1..];
      assert forall i | 0 <= i < |tail| :: tail[i] == ws[i + 1];
      var rest := Join(tail, ' ');
      WordsJoin(tail, ascii);
      assert Join(ws, ' ') == ws[0] + ([' '] + rest);
      WordsCons(ws[0], [' '] + rest, ascii);
      WordsAfterSpace(rest, ascii);
      assert ws == [ws[0]] + tail;
    }
  }

  /** A leading space starts no word. */
  lemma WordsAfterSpace(rest: string, ascii: bool)
    ensures Words([' '] + rest, ascii) == Words(rest, ascii)
  {
    assert ([' '] + rest)[1..] == rest;
  }

  /** Parses every piece; the first failure fails the whole (`collect::<Result<Vec<_>, _>>`). */
  function ParseAll(t: IntType, pieces: seq<string>): (r: Option<seq<int>>)
    ensures r.Some? <==> forall i | 0 <= i < |pieces| :: Parse(t, pieces[i]).Some?
    ensures r.Some? ==> |r.value| == |pieces|
    ensures r.Some? ==> forall i | 0 <= i < |pieces| :: Parse(t, pieces[i]) == Some(r.value[i])
  {
    if pieces == [] then Some([])
    else match Parse(t, pieces[0])
      case None => None
      case Some(v) =>
        match ParseAll(t, pieces[1..])
        case None => None
        case Some(vs) => Some([v] + vs)
  }
}
