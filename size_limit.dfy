/** `size_str_to_int`: the parser of human-readable size limits such as
    "50m". The input is lower-cased and must be digits, optionally a dot and
    more digits, and optionally one unit letter; anything else gives -1. */
module SizeLimit {
  import opened Wrappers
  import opened Decimal

  /** The letter entries of `factor_map`, each a power of two: k = 2^10,
      m = 2^20, g = 2^30, t = 2^40, p = 2^50, then 'e' and 'z' share 2^60,
      and y, b, n, d, c, x go on from 2^70 to 2^120. Any other character is
      not a key. */
  function UnitFactor(c: char): Option<nat> {
    match c
    case 'k' => Some(0x400)
    case 'm' => Some(0x10_0000)
    case 'g' => Some(0x4000_0000)
    case 't' => Some(0x100_0000_0000)
    case 'p' => Some(0x4_0000_0000_0000)
    case 'e' => Some(0x1000_0000_0000_0000)
    case 'z' => Some(0x1000_0000_0000_0000)
    case 'y' => Some(0x40_0000_0000_0000_0000)
    case 'b' => Some(0x1_0000_0000_0000_0000_0000)
    case 'n' => Some(0x400_0000_0000_0000_0000_0000)
    case 'd' => Some(0x10_0000_0000_0000_0000_0000_0000)
    case 'c' => Some(0x4000_0000_0000_0000_0000_0000_0000)
    case 'x' => Some(0x100_0000_0000_0000_0000_0000_0000_0000)
    case _ => None
  }

  /** `''.join(factor_map.keys())` without the empty key: the unit letters
      in the order the table lists them. */
  const UNIT_LETTERS: string := "kmgtpezybndcx"

  /** Down the table each unit is 1024 times the one before, except that
      'z' repeats the factor of 'e'. */
  lemma UnitFactorsAscend()
    ensures UnitFactor(UNIT_LETTERS[0]) == Some(0x400)
    ensures forall i | 0 <= i < |UNIT_LETTERS| - 1 ::
      UnitFactor(UNIT_LETTERS[i + 1]).value == (if i == 5 then 1 else 0x400) * UnitFactor(UNIT_LETTERS[i]).value
  {
    forall i | 0 <= i < |UNIT_LETTERS| - 1
      ensures UnitFactor(UNIT_LETTERS[i + 1]).value == (if i == 5 then 1 else 0x400) * UnitFactor(UNIT_LETTERS[i]).value
    {
      UnitStep(i);
    }
  }

  lemma UnitStep(i: nat)
    requires i < |UNIT_LETTERS| - 1
    ensures UnitFactor(UNIT_LETTERS[i + 1]).Some? && UnitFactor(UNIT_LETTERS[i]).Some?
    ensures UnitFactor(UNIT_LETTERS[i + 1]).value == (if i == 5 then 1 else 0x400) * UnitFactor(UNIT_LETTERS[i]).value
  {
    match i
    case 0 => assert UNIT_LETTERS[0] == 'k' && UNIT_LETTERS[1] == 'm';
    case 1 => assert UNIT_LETTERS[1] == 'm' && UNIT_LETTERS[2] == 'g';
    case 2 => assert UNIT_LETTERS[2] == 'g' && UNIT_LETTERS[3] == 't';
    case 3 => assert UNIT_LETTERS[3] == 't' && UNIT_LETTERS[4] == 'p';
    case 4 => assert UNIT_LETTERS[4] == 'p' && UNIT_LETTERS[5] == 'e';
    case 5 => assert UNIT_LETTERS[5] == 'e' && UNIT_LETTERS[6] == 'z';
    case 6 => assert UNIT_LETTERS[6] == 'z' && UNIT_LETTERS[7] == 'y';
    case 7 => assert UNIT_LETTERS[7] == 'y' && UNIT_LETTERS[8] == 'b';
    case 8 => assert UNIT_LETTERS[8] == 'b' && UNIT_LETTERS[9] == 'n';
    case 9 => assert UNIT_LETTERS[9] == 'n' && UNIT_LETTERS[10] == 'd';
    case 10 => assert UNIT_LETTERS[10] == 'd' && UNIT_LETTERS[11] == 'c';
    case 11 => assert UNIT_LETTERS[11] == 'c' && UNIT_LETTERS[12] == 'x';
  }

  /** The keys of the table are exactly the unit letters, and every unit
      multiplies by at least 2^10. */
  lemma UnitFactorKeys(c: char)
    ensures UnitFactor(c).Some? <==> c in UNIT_LETTERS
    ensures UnitFactor(c).Some? ==> UnitFactor(c).value >= 0x400
  {
    if c in UNIT_LETTERS {
      var i :| 0 <= i < |UNIT_LETTERS| && UNIT_LETTERS[i] == c;
      if i == 12 { } else { UnitStep(i); }
    }
  }

  /** The character class of the pattern: the letters that are keys of
      `factor_map`. */
  predicate IsUnit(c: char) {
    UnitFactor(c).Some?
  }

  /** A suffix the pattern's second group can capture: empty or one unit letter. */
  predicate IsSuffix(suffix: string) {
    suffix == "" || (|suffix| == 1 && IsUnit(suffix[0]))
  }

  /** `factor_map[suffix]`; the empty suffix has factor 1. */
  function Factor(suffix: string): (f: nat)
    requires IsSuffix(suffix)
    ensures f >= 1
  {
    if suffix == "" then 1 else UnitFactor(suffix[0]).value
  }

  /** `str.lower` on ASCII letters. */
  function LowerChar(c: char): char {
    if 'A' <= c <= 'Z' then (c as int + 32) as char else c
  }

  function Lower(s: string): (r: string)
    ensures |r| == |s|
    ensures forall i | 0 <= i < |s| :: r[i] == LowerChar(s[i])
    ensures forall i | 0 <= i < |r| :: !('A' <= r[i] <= 'Z')
    decreases |s|
  {
    if s == [] then [] else Lower(s[..|s| - 1]) + [LowerChar(s[|s| - 1])]
  }

  /** The text of the pattern's first group: digits, then a dot and digits
      when there is a fractional part. */
  function NumberText(whole: string, frac: string): string {
    whole + (if frac == [] then [] else "." + frac)
  }

  /** A string the pattern accepts, taken apart: the digits before the dot,
      the digits after it (empty when there is no dot) and the unit suffix
      (empty or one letter). */
  datatype SizeLiteral = SizeLiteral(whole: string, frac: string, suffix: string) {

    predicate Valid() {
      |whole| > 0 && AllDigits(whole) && AllDigits(frac) && IsSuffix(suffix)
    }

    function Text(): string {
      NumberText(whole, frac) + suffix
    }

    /** The number `float(m.group(1))` stands for, as an exact rational. */
    function Number(): real
      requires Valid()
    {
      Value(whole) as real + Value(frac) as real / Pow10(|frac|) as real
    }

    /** `int(base * factor)`, computed exactly on integers. */
    function Bytes(): nat
      requires Valid()
    {
      var p := Pow10(|frac|);
      MulDivNat(Value(whole) * p + Value(frac), Factor(suffix), p)
    }
  }

  /** `a * b / c` on naturals. */
  function MulDivNat(a: nat, b: nat, c: nat): nat
    requires c > 0
  {
    var m: nat := a * b;
    m / c
  }

  /** Length of the run of digits at the start of `s`. */
  function DigitRun(s: string): (n: nat)
    ensures n <= |s| && AllDigits(s[..n])
    ensures n < |s| ==> !IsDigit(s[n])
  {
    if s == [] || !IsDigit(s[0]) then 0
    else
      var n := 1 + DigitRun(s[1..]);
      assert s[..n] == [s[0]] + s[1..][..n - 1];
      n
  }

  /** `\d+(?:\.\d+)?` matched against the whole of `body`: the digits before
      and after the dot. */
  function ParseNumber(body: string): (r: Option<(string, string)>)
    ensures r.Some? ==> |r.value.0| > 0 && AllDigits(r.value.0) && AllDigits(r.value.1)
    ensures r.Some? ==> NumberText(r.value.0, r.value.1) == body
  {
    var n := DigitRun(body);
    if n == 0 then None
    else if n == |body| then
      assert body[..n] == body;
      Some((body, ""))
    else if body[n] == '.' && n + 1 < |body| && DigitRun(body[n + 1..]) == |body| - n - 1 then
      assert body[n + 1..][..|body| - n - 1] == body[n + 1..];
      assert body == body[..n] + "." + body[n + 1..];
      Some((body[..n], body[n + 1..]))
    else None
  }

  /** The suffix group: a last character that is a unit letter. */
  function SplitSuffix(t: string): (r: (string, string))
    ensures r.0 + r.1 == t && IsSuffix(r.1)
  {
    if t != [] && IsUnit(t[|t| - 1]) then (t[..|t| - 1], [t[|t| - 1]]) else (t, "")
  }

  /** The anchored pattern `^(\d+(?:\.\d+)?)([kmgtpezybndcx]?)$` (the class
      lists the letter keys of `factor_map`). */
  function Parse(t: string): (r: Option<SizeLiteral>)
    ensures r.Some? ==> r.value.Valid() && r.value.Text() == t
  {
    var (body, suffix) := SplitSuffix(t);
    match ParseNumber(body)
    case None => None
    case Some((whole, frac)) => Some(SizeLiteral(whole, frac, suffix))
  }

  /** `size_str_to_int`. */
  function SizeStrToInt(s: string): (r: int)
    ensures r == -1 || r >= 0
  {
    match Parse(Lower(s))
    case None => -1
    case Some(x) => x.Bytes()
  }

  lemma {:induction false} DigitRunOfDigits(d: string, rest: string)
    requires AllDigits(d)
    requires rest == [] || !IsDigit(rest[0])
    ensures DigitRun(d + rest) == |d|
    decreases |d|
  {
    if d != [] {
      assert (d + rest)[1..] == d[1..] + rest;
      DigitRunOfDigits(d[1..], rest);
    } else {
      assert d + rest == rest;
    }
  }

  lemma ParseNumberText(whole: string, frac: string)
    requires |whole| > 0 && AllDigits(whole) && AllDigits(frac)
    ensures ParseNumber(NumberText(whole, frac)) == Some((whole, frac))
  {
    var body := NumberText(whole, frac);
    if frac == [] {
      assert body == whole + [];
      DigitRunOfDigits(whole, []);
    } else {
      var rest := "." + frac;
      assert body == whole + rest;
      DigitRunOfDigits(whole, rest);
      var n := |whole|;
      assert body[n] == '.';
      assert body[n + 1..] == frac;
      DigitRunOfDigits(frac, []);
      assert frac + [] == frac;
      assert body[..n] == whole;
    }
  }

  lemma DigitIsNoUnit(c: char)
    requires IsDigit(c)
    ensures !IsUnit(c)
  {
  }

  /** Parsing gives back the pieces of any string the pattern accepts, so
      `Parse` fails only on strings outside the pattern. */
  lemma ParseText(x: SizeLiteral)
    requires x.Valid()
    ensures Parse(x.Text()) == Some(x)
  {
    var t, body := x.Text(), NumberText(x.whole, x.frac);
    ParseNumberText(x.whole, x.frac);
    if x.suffix == "" {
      assert t == body;
      assert IsDigit(t[|t| - 1]) by {
        if x.frac == [] {
          assert t[|t| - 1] == x.whole[|x.whole| - 1];
        } else {
          assert t[|t| - 1] == x.frac[|x.frac| - 1];
        }
      }
      DigitIsNoUnit(t[|t| - 1]);
      assert SplitSuffix(t) == (body, "");
    } else {
      assert t[..|t| - 1] == body;
      assert SplitSuffix(t) == (body, x.suffix);
    }
  }

  /** `size_str_to_int` returns -1 exactly when the lower-cased input is not
      digits, optionally a dot and digits, then at most one unit letter. */
  lemma SizeStrToIntRejects(s: string)
    ensures SizeStrToInt(s) == -1 <==> forall x: SizeLiteral | x.Valid() :: x.Text() != Lower(s)
  {
    if x: SizeLiteral :| x.Valid() && x.Text() == Lower(s) {
      ParseText(x);
    }
  }

  /** On a match the result is `trunc(number * factor)` of the matched
      number and suffix, and never negative. */
  lemma SizeStrToIntAccepts(s: string, x: SizeLiteral)
    requires x.Valid() && x.Text() == Lower(s)
    ensures SizeStrToInt(s) >= 0
    ensures SizeStrToInt(s) == (x.Number() * Factor(x.suffix) as real).Floor
  {
    ParseText(x);
    assert SizeStrToInt(s) == x.Bytes();
    BytesTruncates(x);
  }

  lemma BytesTruncates(x: SizeLiteral)
    requires x.Valid()
    ensures x.Bytes() == (x.Number() * Factor(x.suffix) as real).Floor
  {
    var p := Pow10(|x.frac|);
    TruncatedScale(Value(x.whole), Value(x.frac), p, Factor(x.suffix),
                   Value(x.whole) * p + Value(x.frac), x.Number());
  }

  /** `(w + f / p) * k` truncated is `(w * p + f) * k / p`. */
  lemma TruncatedScale(w: nat, f: nat, p: nat, k: nat, n: nat, r: real)
    requires p > 0 && n == w * p + f && r == w as real + f as real / p as real
    ensures (r * k as real).Floor == MulDivNat(n, k, p)
  {
    var m: nat := n * k;
    calc {
      r * k as real;
      { RealScale(w, f, p); }
      (n as real / p as real) * k as real;
      { RealMulDiv(n, k, p); }
      m as real / p as real;
    }
    FloorOfQuotient(m, p);
  }

  lemma RealScale(w: nat, f: nat, p: nat)
    requires p > 0
    ensures w as real + f as real / p as real == (w * p + f) as real / p as real
  {
    assert (w * p) as real == w as real * p as real;
  }

  lemma RealMulDiv(n: nat, k: nat, p: nat)
    requires p > 0
    ensures (n as real / p as real) * k as real == (n * k) as real / p as real
  {
    assert (n * k) as real == n as real * k as real;
  }

  /** Truncating an exact quotient of naturals is integer division. */
  lemma FloorOfQuotient(a: nat, b: nat)
    requires b > 0
    ensures (a as real / b as real).Floor == a / b
  {
    var q, r := a / b, a % b;
    assert a == q * b + r;
    assert (q * b) as real == q as real * b as real;
    assert a as real / b as real == q as real + r as real / b as real;
    assert 0.0 <= r as real / b as real < 1.0;
  }

  /** Lower-casing twice is lower-casing once. */
  lemma {:induction false} LowerIdempotent(s: string)
    ensures Lower(Lower(s)) == Lower(s)
    decreases |s|
  {
    if s != [] {
      var t := s[..|s| - 1];
      LowerIdempotent(t);
      LowerAppend(Lower(t), LowerChar(s[|s| - 1]));
    }
  }

  /** The input's letter case does not matter: a string and its lower-cased
      form give the same result. */
  lemma SizeStrToIntLowered(s: string)
    ensures SizeStrToInt(Lower(s)) == SizeStrToInt(s)
  {
    LowerIdempotent(s);
  }

  lemma LowerAppend(t: string, c: char)
    ensures Lower(t + [c]) == Lower(t) + [LowerChar(c)]
  {
    assert (t + [c])[..|t|] == t;
  }

  /** 'e' and 'z' share the factor 2^60, so they always give the same value,
      in either case. */
  lemma ExaZettaCollide(t: string)
    ensures SizeStrToInt(t + "e") == SizeStrToInt(t + "z")
    ensures SizeStrToInt(t + "E") == SizeStrToInt(t + "Z")
  {
    SameFactorSuffix(t, 'e', 'z');
    LowerAppend(t, 'e');
    LowerAppend(t, 'z');
    LowerAppend(t, 'E');
    LowerAppend(t, 'Z');
  }

  /** Two unit letters with the same factor give the same result after any
      text. */
  lemma SameFactorSuffix(t: string, u: char, v: char)
    requires IsUnit(u) && IsUnit(v) && Factor([u]) == Factor([v])
    ensures SizeStrToInt(t + [u]) == SizeStrToInt(t + [v])
  {
    var l := Lower(t);
    UnitIsLowercase(u);
    UnitIsLowercase(v);
    LowerAppend(t, u);
    LowerAppend(t, v);
    assert SplitSuffix(l + [u]) == (l, [u]) by {
      assert (l + [u])[..|l|] == l;
    }
    assert SplitSuffix(l + [v]) == (l, [v]) by {
      assert (l + [v])[..|l|] == l;
    }
    match ParseNumber(l)
    case None =>
    case Some((whole, frac)) =>
      BytesSameFactor(SizeLiteral(whole, frac, [u]), SizeLiteral(whole, frac, [v]));
  }

  lemma UnitIsLowercase(c: char)
    requires IsUnit(c)
    ensures LowerChar(c) == c
  {
  }

  /** The size depends on the suffix only through its factor. */
  lemma BytesSameFactor(x: SizeLiteral, y: SizeLiteral)
    requires x.Valid() && y.Valid()
    requires x.whole == y.whole && x.frac == y.frac && Factor(x.suffix) == Factor(y.suffix)
    ensures x.Bytes() == y.Bytes()
  {
  }

  /** Lower-casing leaves a string without upper-case letters alone. */
  lemma {:induction false} LowerOfLowercase(s: string)
    requires forall i | 0 <= i < |s| :: !('A' <= s[i] <= 'Z')
    ensures Lower(s) == s
    decreases |s|
  {
    if s != [] {
      LowerOfLowercase(s[..|s| - 1]);
    }
  }

  /** A string without upper-case letters that spells a literal stands for
      that literal's size. */
  lemma SizeOfLowercase(s: string, x: SizeLiteral)
    requires x.Valid() && x.Text() == s
    requires forall i | 0 <= i < |s| :: !('A' <= s[i] <= 'Z')
    ensures SizeStrToInt(s) == x.Bytes()
  {
    LowerOfLowercase(s);
    ParseText(x);
  }

  lemma TenBytes()
    ensures SizeLiteral("10", "", "").Bytes() == 10
  {
    assert Value("10") == 10 by {
      assert "10"[..1] == "1";
    }
  }

  lemma OneKiloBytes()
    ensures SizeLiteral("1", "", "k").Bytes() == 1024
  {
    assert Value("1") == 1;
    assert Factor("k") == 1024;
  }

  lemma FiftyMegaBytes()
    ensures SizeLiteral("50", "", "m").Bytes() == 50 * 0x10_0000
  {
    assert Value("50") == 50 by {
      assert "50"[..1] == "5";
    }
    assert Factor("m") == 0x10_0000;
  }

  lemma FractionalGigaBytes()
    ensures SizeLiteral("2", "5", "g").Bytes() == 2684354560
  {
    assert Value("2") == 2 && Value("5") == 5;
    assert Factor("g") == 0x4000_0000;
    assert Pow10(1) == 10;
  }

  /** "10": no suffix means factor 1. */
  lemma SizeOfTen()
    ensures SizeStrToInt("10") == 10
  {
    SizeOfLowercase("10", SizeLiteral("10", "", ""));
    TenBytes();
  }

  /** "1k" is one kibibyte. */
  lemma SizeOfOneKilo()
    ensures SizeStrToInt("1k") == 1024
  {
    SizeOfLowercase("1k", SizeLiteral("1", "", "k"));
    OneKiloBytes();
  }

  /** "50m", the default limit, is 50 * 2^20. */
  lemma SizeOfFiftyMega()
    ensures SizeStrToInt("50m") == 50 * 0x10_0000
  {
    SizeOfLowercase("50m", SizeLiteral("50", "", "m"));
    FiftyMegaBytes();
  }

  lemma LowerFiftyMega()
    ensures Lower("50M") == "50m"
  {
    assert "50M" == "50" + ['M'] && "50m" == "50" + ['m'];
    LowerAppend("50", 'M');
    LowerOfLowercase("50");
  }

  /** So is "50M": the unit letter may be upper-case. */
  lemma SizeOfFiftyMegaUpper()
    ensures SizeStrToInt("50M") == 50 * 0x10_0000
  {
    LowerFiftyMega();
    SizeStrToIntLowered("50M");
    SizeOfFiftyMega();
  }

  /** "2.5g" is int(2.5 * 2^30). */
  lemma SizeOfFractionalGiga()
    ensures SizeStrToInt("2.5g") == 2684354560
  {
    SizeOfLowercase("2.5g", SizeLiteral("2", "5", "g"));
    FractionalGigaBytes();
  }

  /** The empty string does not match. */
  lemma SizeOfEmpty()
    ensures SizeStrToInt("") == -1
  {
  }

  /** A word without digits does not match. */
  lemma SizeOfWord()
    ensures SizeStrToInt("bogus") == -1
  {
    LowerOfLowercase("bogus");
    assert DigitRun("bogus") == 0;
  }

  /** A number needs digits before the dot. */
  lemma SizeOfLeadingDot()
    ensures SizeStrToInt(".5") == -1
  {
    LowerOfLowercase(".5");
    assert DigitRun(".5") == 0;
  }

  /** A dot needs digits after it. */
  lemma SizeOfTrailingDot()
    ensures SizeStrToInt("1.") == -1
  {
    LowerOfLowercase("1.");
    assert SplitSuffix("1.") == ("1.", "");
    assert DigitRun("1.") == 1 by {
      assert "1."[1..] == ".";
    }
  }
}
