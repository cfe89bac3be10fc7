/**
 * The passports of 2020 day 4. A passport is a whitespace-separated list
 * of `key:value` pairs; `from_str` stores each value in the field its
 * three-letter key names (numbers that do not parse as `u32` become 0, a
 * later pair overwrites an earlier one) and panics on an unknown key or a
 * pair too short to split. `is_valid` asks that every field but `cid` be
 * present; `is_valid_strict` checks each field's format. Strings are taken
 * to be ASCII, so a `len()` in bytes is the number of characters.
 */
module Passports {
  import opened Common
  import opened Text

  datatype Passport = Passport(
    birthYear: nat, issueYear: nat, expirationYear: nat,
    height: string, hairColour: string, eyeColour: string, passportId: string,
    countryId: nat)

  /** `Default::default()`: zeros and empty strings. */
  function Empty(): Passport
  {
    Passport(0, 0, 0, "", "", "", "", 0)
  }

  /** `val.parse::<u32>().unwrap_or(0)`. */
  function NumberOrZero(val: string): (n: nat)
    ensures n <= U32.Max()
    ensures Parse(U32, val).Some? ==> n == Parse(U32, val).value
    ensures Parse(U32, val).None? ==> n == 0
  {
    match Parse(U32, val)
    case None => 0
    case Some(v) => v
  }

  /** The keys `from_str` knows. */
  predicate IsKey(key: string)
  {
    key in {"byr", "iyr", "eyr", "hgt", "hcl", "ecl", "pid", "cid"}
  }

  /** A pair `from_str` can take: long enough for both `split_at`s, with a known key. */
  predicate WellFormed(pair: string)
  {
    |pair| >= 4 && IsKey(pair[..3])
  }

  /** One pair: the first three characters are the key, the characters after the fourth the value. */
  function Assign(p: Passport, pair: string): (r: Option<Passport>)
    ensures r.Some? <==> WellFormed(pair)
  {
    if |pair| < 4 then None
    else
      var key, val := pair[..3], pair[4..];
      if key == "byr" then Some(p.(birthYear := NumberOrZero(val)))
      else if key == "iyr" then Some(p.(issueYear := NumberOrZero(val)))
      else if key == "eyr" then Some(p.(expirationYear := NumberOrZero(val)))
      else if key == "hgt" then Some(p.(height := val))
      else if key == "hcl" then Some(p.(hairColour := val))
      else if key == "ecl" then Some(p.(eyeColour := val))
      else if key == "pid" then Some(p.(passportId := val))
      else if key == "cid" then Some(p.(countryId := NumberOrZero(val)))
      else None
  }

  /** The pairs in order, from `p`; the first bad pair panics. */
  function AssignAll(p: Passport, pairs: seq<string>): Option<Passport>
  {
    if pairs == [] then Some(p)
    else
      match AssignAll(p, pairs[..|pairs| - 1])
      case None => None
      case Some(q) => Assign(q, pairs[|pairs| - 1])
  }

  /**
   * `Passport::from_str`: Some exactly when every whitespace-separated
   * pair is well formed, and then each field holds the value of the last
   * pair with its key, or its default when there is none.
   */
  function FromStr(s: string): (r: Option<Passport>)
    ensures r.Some? <==> forall i | 0 <= i < |Words(s, false)| :: WellFormed(Words(s, false)[i])
    ensures r.Some? ==> var pairs := Words(s, false);
      r.value.birthYear == NumberField(0, LastValue(pairs, "byr")) &&
      r.value.issueYear == NumberField(0, LastValue(pairs, "iyr")) &&
      r.value.expirationYear == NumberField(0, LastValue(pairs, "eyr")) &&
      r.value.height == TextField("", LastValue(pairs, "hgt")) &&
      r.value.hairColour == TextField("", LastValue(pairs, "hcl")) &&
      r.value.eyeColour == TextField("", LastValue(pairs, "ecl")) &&
      r.value.passportId == TextField("", LastValue(pairs, "pid")) &&
      r.value.countryId == NumberField(0, LastValue(pairs, "cid"))
  {
    var pairs := Words(s, false);
    AssignAllDefined(Empty(), pairs);
    if AssignAll(Empty(), pairs).Some? then AssignAllFields(Empty(), pairs); AssignAll(Empty(), pairs)
    else None
  }

  /** `Passport::from_str` with its loop over the pairs. */
  method ParsePassport(s: string) returns (r: Option<Passport>)
    ensures r == FromStr(s)
  {
    var pairs := Words(s, false);
    var passport := Empty();
    for i := 0 to |pairs|
      invariant AssignAll(Empty(), pairs[..i]) == Some(passport)
    {
      var pair := pairs[i];
      assert pairs[..i + 1][..i] == pairs[..i];
      if |pair| < 4 {
        AssignAllDefined(Empty(), pairs);
        return None;
      }
      var key, val := pair[..3], pair[4..];
      if key == "byr" {
        passport := passport.(birthYear := NumberOrZero(val));
      } else if key == "iyr" {
        passport := passport.(issueYear := NumberOrZero(val));
      } else if key == "eyr" {
        passport := passport.(expirationYear := NumberOrZero(val));
      } else if key == "hgt" {
        passport := passport.(height := val);
      } else if key == "hcl" {
        passport := passport.(hairColour := val);
      } else if key == "ecl" {
        passport := passport.(eyeColour := val);
      } else if key == "pid" {
        passport := passport.(passportId := val);
      } else if key == "cid" {
        passport := passport.(countryId := NumberOrZero(val));
      } else {
        AssignAllDefined(Empty(), pairs);
        return None;
      }
    }
    assert pairs[..|pairs|] == pairs;
    return Some(passport);
  }

  /** The value of the last pair with the key, if any. */
  function LastValue(pairs: seq<string>, key: string): Option<string>
  {
    if pairs == [] then None
    else
      var pair := pairs[|pairs| - 1];
      if |pair| >= 4 && pair[..3] == key then Some(pair[4..]) else LastValue(pairs[..|pairs| - 1], key)
  }

  /** A text field: the last value given, else the default. */
  function TextField(default: string, last: Option<string>): string
  {
    if last.Some? then last.value else default
  }

  /** A number field: the last value given, parsed or 0, else the default. */
  function NumberField(default: nat, last: Option<string>): nat
  {
    if last.Some? then NumberOrZero(last.value) else default
  }

  /** The pairs are read in order: every field holds the value of the last pair with its key. */
  lemma {:induction false} AssignAllFields(p: Passport, pairs: seq<string>)
    requires AssignAll(p, pairs).Some?
    ensures var q := AssignAll(p, pairs).value;
      q.birthYear == NumberField(p.birthYear, LastValue(pairs, "byr")) &&
      q.issueYear == NumberField(p.issueYear, LastValue(pairs, "iyr")) &&
      q.expirationYear == NumberField(p.expirationYear, LastValue(pairs, "eyr")) &&
      q.height == TextField(p.height, LastValue(pairs, "hgt")) &&
      q.hairColour == TextField(p.hairColour, LastValue(pairs, "hcl")) &&
      q.eyeColour == TextField(p.eyeColour, LastValue(pairs, "ecl")) &&
      q.passportId == TextField(p.passportId, LastValue(pairs, "pid")) &&
      q.countryId == NumberField(p.countryId, LastValue(pairs, "cid"))
  {
    if pairs != [] {
      AssignAllFields(p, pairs[..|pairs| - 1]);
    }
  }

  /** Parsing fails exactly when some pair is too short or has an unknown key. */
  lemma {:induction false} AssignAllDefined(p: Passport, pairs: seq<string>)
    ensures AssignAll(p, pairs).Some? <==> forall i | 0 <= i < |pairs| :: WellFormed(pairs[i])
  {
    if pairs != [] {
      var init := pairs[..|pairs| - 1];
      AssignAllDefined(p, init);
      assert forall i | 0 <= i < |init| :: init[i] == pairs[i];
    }
  }

  /** `is_valid`: every field but `cid` is non-zero or non-empty. */
  function IsValid(p: Passport): (r: bool)
    ensures r ==> p != Empty()
  {
    p.birthYear != 0 && p.issueYear != 0 && p.expirationYear != 0 &&
    p.height != [] && p.hairColour != [] && p.eyeColour != [] && p.passportId != []
  }

  /** A unit at position `k` of a height, after an `i32` in its range. */
  predicate HeightAt(h: string, k: nat)
    requires k + 2 <= |h|
  {
    var v := Parse(I32, h[..k]);
    v.Some? && ((h[k..k + 2] == "in" && 59 <= v.value <= 76) || (h[k..k + 2] == "cm" && 150 <= v.value <= 193))
  }

  /** `check_height`: a number before the first "in" in 59..=76, else before the first "cm" in 150..=193; a text before the unit that is not an `i32` panics (None). */
  function CheckHeight(h: string): (r: Option<bool>)
    ensures Find(h, "in").None? && Find(h, "cm").None? ==> r == Some(false)
    ensures r == Some(true) ==> exists k | 0 <= k && k + 2 <= |h| :: HeightAt(h, k)
    ensures r.None? ==> exists k | 0 <= k && k + 2 <= |h| :: h[k..k + 2] in {"in", "cm"} && Parse(I32, h[..k]).None?
  {
    if h == [] then Some(false)
    else
      match Find(h, "in")
      case Some(k) =>
        (match Parse(I32, h[..k])
         case None => None
         case Some(v) =>
           assert h[k..k + 2] == "in" && HeightAt(h, k) == (59 <= v <= 76);
           Some(59 <= v <= 76))
      case None =>
        match Find(h, "cm")
        case Some(k) =>
          (match Parse(I32, h[..k])
           case None => None
           case Some(v) =>
             assert h[k..k + 2] == "cm" && HeightAt(h, k) == (150 <= v <= 193);
             Some(150 <= v <= 193))
        case None => Some(false)
  }

  /**
   * `check_hair_color`: seven characters, a `#`, then a `u32` in base 16.
   * It accepts every intended colour, and besides those only a `+` sign
   * or upper-case hex digits.
   */
  function CheckHairColour(c: string): (r: bool)
    ensures HairColourIntended(c) ==> r
    ensures r ==> |c| == 7 && c[0] == '#' && (c[1] == '+' || AllDigits(c[1..], 16))
  {
    HairColourFacts(c);
    |c| == 7 && c[..1] == "#" && ParseInteger(c[1..], 16, false, 0, U32.Max()).Some?
  }

  /** `check_eye_color`: three characters, one of seven codes; the length test is implied by the codes. */
  function CheckEyeColour(e: string): (r: bool)
    ensures r <==> e in {"amb", "blu", "brn", "gry", "grn", "hzl", "oth"}
  {
    |e| == 3 && e in {"amb", "blu", "brn", "gry", "grn", "hzl", "oth"}
  }

  /**
   * `check_passport_id`: nine characters that parse as a decimal `u32`.
   * It accepts every nine-digit id, and besides those only ids with a
   * leading `+`.
   */
  function CheckPassportId(pid: string): (r: bool)
    ensures PassportIdIntended(pid) ==> r
    ensures r ==> |pid| == 9 && (pid[0] == '+' || PassportIdIntended(pid))
  {
    PassportIdAgrees(pid);
    |pid| == 9 && Parse(U32, pid).Some?
  }

  /**
   * `is_valid_strict`: the years in 1920..=2002, 2010..=2020 and
   * 2020..=2030 and every format check. All checks are evaluated before
   * they are combined, so a height that panics panics whatever the rest.
   */
  function IsValidStrict(p: Passport): (r: Option<bool>)
    ensures r.None? <==> CheckHeight(p.height).None?
  {
    match CheckHeight(p.height)
    case None => None
    case Some(heightOk) =>
      Some(1920 <= p.birthYear <= 2002 && 2010 <= p.issueYear <= 2020 && 2020 <= p.expirationYear <= 2030 &&
           heightOk && CheckHairColour(p.hairColour) && CheckEyeColour(p.eyeColour) && CheckPassportId(p.passportId))
  }

  /** The strict check implies the lenient one, so part 2 never counts more passports than part 1. */
  lemma StrictImpliesValid(p: Passport)
    requires IsValidStrict(p) == Some(true)
    ensures IsValid(p)
  {
  }

  /*
   * `from_str_radix` accepts a leading `+`, so the rules meant to admit
   * only digits also admit a sign, and `check_height` ignores whatever
   * follows the unit. The intended formats: a `#` and six of 0-9a-f, nine
   * decimal digits, a decimal number followed by exactly "in" or "cm".
   */

  /** `+12345678` is a passport id as written. */
  lemma SignedPassportId()
    ensures CheckPassportId("+12345678") && !PassportIdIntended("+12345678")
  {
    var pid := "+12345678";
    assert pid[1..] == "12345678";
    assert ParseDigits("12345678", 10) == Some(12345678) by {
      DecimalLiteral();
    }
  }

  lemma DecimalLiteral()
    ensures ParseDigits("12345678", 10) == Some(12345678)
  {
    assert "12345678"[..7] == "1234567" && "1234567"[..6] == "123456" && "123456"[..5] == "12345";
    assert "12345"[..4] == "1234" && "1234"[..3] == "123" && "123"[..2] == "12" && "12"[..1] == "1";
  }

  /** `#+abcde` is a hair colour as written. */
  lemma SignedHairColour()
    ensures CheckHairColour("#+abcde") && !HairColourIntended("#+abcde")
  {
    var c := "#+abcde";
    assert c[1..][1..] == "abcde";
    assert ParseDigits("abcde", 16) == Some(0xabcde) by {
      assert "abcde"[..4] == "abcd" && "abcd"[..3] == "abc" && "abc"[..2] == "ab" && "ab"[..1] == "a";
    }
  }

  /** `60inx` is a height as written. */
  lemma TrailingHeight()
    ensures CheckHeight("60inx") == Some(true) && !HeightIntended("60inx")
  {
    var h := "60inx";
    assert OccursAt(h, "in", 2);
    forall j | 0 <= j < 2 ensures !OccursAt(h, "in", j) { FirstDiffers(h, "in", j); }
    assert Find(h, "in") == Some(2);
    assert h[..2] == "60" && "60"[..1] == "6";
  }

  /** `190cmin` panics: the text before the first "in" is `190cm`, which is not an `i32`. */
  lemma UnitThenInPanics()
    ensures CheckHeight("190cmin").None?
  {
    var h := "190cmin";
    assert OccursAt(h, "in", 5);
    forall j | 0 <= j < 5 ensures !OccursAt(h, "in", j) { FirstDiffers(h, "in", j); }
    assert Find(h, "in") == Some(5);
    assert h[..5] == "190cm";
    assert ToDigit('m', 10).None?;
  }

  /** `+60in` is a height as written: `i32` parsing takes the sign. */
  lemma SignedHeight()
    ensures CheckHeight("+60in") == Some(true) && !HeightIntended("+60in")
  {
    var h := "+60in";
    assert OccursAt(h, "in", 3);
    forall j | 0 <= j < 3 ensures !OccursAt(h, "in", j) { FirstDiffers(h, "in", j); }
    assert Find(h, "in") == Some(3);
    assert h[..3] == "+60";
    assert "+60"[1..] == "60";
    assert "60"[..1] == "6";
  }

  /** Every character is a digit in `radix`. */
  predicate AllDigits(s: string, radix: nat)
    requires 2 <= radix <= 36
  {
    forall i | 0 <= i < |s| :: ToDigit(s[i], radix).Some?
  }

  function Power(b: nat, n: nat): (r: nat)
    ensures b >= 1 ==> r >= 1
  {
    if n == 0 then 1 else b * Power(b, n - 1)
  }

  /** A non-empty string of digits parses, to less than `radix` to the power of its length. */
  lemma {:induction false} DigitsParse(s: string, radix: nat)
    requires 2 <= radix <= 36 && s != [] && AllDigits(s, radix)
    ensures ParseDigits(s, radix).Some? && ParseDigits(s, radix).value < Power(radix, |s|)
  {
    if |s| > 1 {
      var init := s[..|s| - 1];
      assert AllDigits(init, radix) by {
        assert forall i | 0 <= i < |init| :: init[i] == s[i];
      }
      DigitsParse(init, radix);
      var high, low := ParseDigits(init, radix).value, ToDigit(s[|s| - 1], radix).value;
      NextPlace(high, low, radix, Power(radix, |init|));
    }
  }

  /** One more digit: below `bound` before, below `bound * radix` after. */
  lemma NextPlace(high: nat, low: nat, radix: nat, bound: nat)
    requires high < bound && low < radix
    ensures high * radix + low < bound * radix
  {
    assert high * radix + low < (high + 1) * radix;
    assert (high + 1) * radix <= bound * radix;
  }

  /** The intended passport id: exactly nine decimal digits. */
  predicate PassportIdIntended(pid: string)
  {
    |pid| == 9 && forall i | 0 <= i < 9 :: IsDigit(pid[i])
  }

  /** The intended hair colour: `#` and six of 0-9a-f. */
  predicate HairColourIntended(c: string)
  {
    |c| == 7 && c[0] == '#' && forall i | 1 <= i < 7 :: IsDigit(c[i]) || 'a' <= c[i] <= 'f'
  }

  /** The intended height: decimal digits, then exactly "in" (59..=76) or "cm" (150..=193). */
  predicate HeightIntended(h: string)
  {
    |h| >= 3 &&
    (forall i | 0 <= i < |h| - 2 :: IsDigit(h[i])) &&
    var v := ParseDigits(h[..|h| - 2], 10);
    v.Some? &&
    ((h[|h| - 2..] == "in" && 59 <= v.value <= 76) || (h[|h| - 2..] == "cm" && 150 <= v.value <= 193))
  }

  /** `is_valid_strict` with the intended formats. */
  predicate IsValidStrictIntended(p: Passport)
  {
    1920 <= p.birthYear <= 2002 && 2010 <= p.issueYear <= 2020 && 2020 <= p.expirationYear <= 2030 &&
    HeightIntended(p.height) && HairColourIntended(p.hairColour) && CheckEyeColour(p.eyeColour) &&
    PassportIdIntended(p.passportId)
  }

  /** Nine decimal digits parse as a `u32`; nine characters without a leading `+` that parse are nine digits. */
  lemma PassportIdAgrees(pid: string)
    ensures PassportIdIntended(pid) ==> Parse(U32, pid).Some?
    ensures |pid| == 9 && Parse(U32, pid).Some? && pid[0] != '+' ==> PassportIdIntended(pid)
  {
    if PassportIdIntended(pid) {
      DigitsParse(pid, 10);
      assert Power(10, 9) == 1_000_000_000;
    }
    if |pid| == 9 && Parse(U32, pid).Some? && pid[0] != '+' {
      ParsedDigits(pid, 10);
    }
  }

  /** A string that parses has only digits. */
  lemma {:induction false} ParsedDigits(s: string, radix: nat)
    requires 2 <= radix <= 36 && ParseDigits(s, radix).Some?
    ensures AllDigits(s, radix)
  {
    if |s| > 1 {
      ParsedDigits(s[..|s| - 1], radix);
      assert forall i | 0 <= i < |s| - 1 :: s[i] == s[..|s| - 1][i];
    }
  }

  /** Six hex digits parse as a `u32` in base 16; six characters without a leading `+` that parse are hex digits. */
  lemma HairColourFacts(c: string)
    ensures HairColourIntended(c) ==> c[..1] == "#" && ParseInteger(c[1..], 16, false, 0, U32.Max()).Some?
    ensures |c| == 7 && ParseInteger(c[1..], 16, false, 0, U32.Max()).Some? && c[1] != '+' ==> AllDigits(c[1..], 16)
  {
    if |c| != 7 {
      return;
    }
    var digits := c[1..];
    if HairColourIntended(c) {
      assert AllDigits(digits, 16) by {
        forall i | 0 <= i < 6
          ensures ToDigit(digits[i], 16).Some?
        {
          assert digits[i] == c[i + 1];
        }
      }
      DigitsParse(digits, 16);
      assert Power(16, 6) == 0x100_0000;
    }
    if |c| == 7 && ParseInteger(digits, 16, false, 0, U32.Max()).Some? && c[1] != '+' {
      ParsedDigits(digits, 16);
    }
  }

  /** An intended height passes the rule as written. */
  lemma HeightAgrees(h: string)
    requires HeightIntended(h)
    ensures CheckHeight(h) == Some(true)
  {
    var k := |h| - 2;
    var num := h[..k];
    var v := ParseDigits(num, 10).value;
    assert forall j | 0 <= j < k :: !OccursAt(h, "in", j) && !OccursAt(h, "cm", j) by {
      forall j | 0 <= j < k
        ensures !OccursAt(h, "in", j) && !OccursAt(h, "cm", j)
      {
        assert IsDigit(h[j]);
        if j + 2 <= |h| {
          assert h[j..j + 2][0] == h[j];
        }
      }
    }
    assert !OccursAt(h, "in", k + 1) && !OccursAt(h, "cm", k + 1);
    assert Parse(I32, num) == Some(v) by {
      assert IsDigit(h[0]) && num[0] == h[0];
    }
    if h[k..] == "in" {
      assert OccursAt(h, "in", k);
      assert Find(h, "in") == Some(k);
    } else {
      assert !OccursAt(h, "in", k);
      assert Find(h, "in") == None;
      assert OccursAt(h, "cm", k);
      assert Find(h, "cm") == Some(k);
    }
  }

  /** The intended checks are stricter: a passport they accept, `is_valid_strict` accepts as written. */
  lemma IntendedIsStricter(p: Passport)
    requires IsValidStrictIntended(p)
    ensures IsValidStrict(p) == Some(true)
  {
    HeightAgrees(p.height);
  }
}
