/** The slice of PHP's value and string semantics that the framework relies on:
    scalar values and `empty()`, array-key casting, decimal rendering of integers,
    and the string functions the modelled code calls (`strtoupper`, `strtolower`,
    `trim`, `implode`, `explode`, `str_replace` with an empty replacement, `strtok`
    and the `(int)` cast of a string). Only ASCII case mapping is modelled, which
    is what PHP 8.2+ does for these functions. */
module Php {
  import opened Wrappers

  /** A PHP scalar. Arrays and objects never flow through the modelled values. */
  datatype Value = Null | Bool(b: bool) | Int(i: int) | Float(f: real) | Str(s: string)

  /** PHP `empty()` on a scalar: null, false, 0, 0.0, "" and "0". */
  predicate IsEmpty(v: Value) {
    match v
    case Null => true
    case Bool(b) => !b
    case Int(i) => i == 0
    case Float(f) => f == 0.0
    case Str(s) => s == "" || s == "0"
  }

  /** PHP truthiness (`if ($v)`, `(bool) $v`). */
  predicate Truthy(v: Value) {
    !IsEmpty(v)
  }

  // ---------------------------------------------------------------- digits

  predicate IsDigit(c: char) {
    '0' <= c <= '9'
  }

  predicate AllDigits(s: string) {
    forall i :: 0 <= i < |s| ==> IsDigit(s[i])
  }

  function DigitChar(d: nat): (c: char)
    requires d < 10
    ensures IsDigit(c) && c as int - '0' as int == d
  {
    (d + '0' as int) as char
  }

  function DigitValue(c: char): (d: nat)
    requires IsDigit(c)
    ensures d < 10 && DigitChar(d) == c
  {
    c as int - '0' as int
  }

  /** Decimal text of a natural number, as PHP's string interpolation writes it. */
  function NatToString(n: nat): (r: string)
    ensures |r| >= 1 && AllDigits(r)
    ensures n > 0 ==> r[0] != '0'
    ensures n == 0 ==> r == "0"
  {
    if n < 10 then [DigitChar(n)] else NatToString(n / 10) + [DigitChar(n % 10)]
  }

  /** A digit string without superfluous leading zeros. */
  predicate IsCanonicalNat(s: string) {
    |s| >= 1 && AllDigits(s) && (s[0] == '0' ==> |s| == 1)
  }

  /** A string PHP treats as an integer when it is used as an array key. */
  predicate IsCanonicalInt(s: string) {
    IsCanonicalNat(s) || (|s| >= 2 && s[0] == '-' && IsCanonicalNat(s[1..]) && s[1] != '0')
  }

  function ParseNat(s: string): nat
    requires AllDigits(s)
  {
    if |s| == 0 then 0 else ParseNat(s[..|s| - 1]) * 10 + DigitValue(s[|s| - 1])
  }

  function IntToString(i: int): (r: string)
    ensures IsCanonicalInt(r)
  {
    if i < 0 then "-" + NatToString(-i) else NatToString(i)
  }

  function ParseInt(s: string): int
    requires IsCanonicalInt(s)
  {
    if s[0] == '-' then 0 - ParseNat(s[1..]) else ParseNat(s)
  }

  lemma {:induction false} ParseNatToString(n: nat)
    ensures ParseNat(NatToString(n)) == n
  {
    if n >= 10 {
      var t := NatToString(n / 10);
      assert NatToString(n) == t + [DigitChar(n % 10)];
      assert (t + [DigitChar(n % 10)])[..|t|] == t;
      ParseNatToString(n / 10);
    }
  }

  lemma {:induction false} ParseNatPositive(s: string)
    requires |s| >= 1 && AllDigits(s) && s[0] != '0'
    ensures ParseNat(s) >= 1
  {
    if |s| > 1 {
      ParseNatPositive(s[..|s| - 1]);
    }
  }

  lemma {:induction false} NatToStringParse(s: string)
    requires IsCanonicalNat(s)
    ensures NatToString(ParseNat(s)) == s
  {
    if |s| > 1 {
      var t := s[..|s| - 1];
      ParseNatPositive(t);
      NatToStringParse(t);
      var n := ParseNat(s);
      assert n / 10 == ParseNat(t) && n % 10 == DigitValue(s[|s| - 1]);
      assert s == t + [s[|s| - 1]];
    }
  }

  /** Decimal rendering and parsing are inverse on integers ... */
  lemma ParseIntToString(i: int)
    ensures ParseInt(IntToString(i)) == i
  {
    if i < 0 {
      assert IntToString(i)[1..] == NatToString(-i);
      ParseNatToString(-i);
    } else {
      ParseNatToString(i);
    }
  }

  /** ... and on canonical integer strings. */
  lemma IntToStringParse(s: string)
    requires IsCanonicalInt(s)
    ensures IntToString(ParseInt(s)) == s
  {
    if s[0] == '-' {
      ParseNatPositive(s[1..]);
      NatToStringParse(s[1..]);
      assert s == "-" + s[1..];
    } else {
      NatToStringParse(s);
    }
  }

  // ---------------------------------------------------------------- array keys

  /** A PHP array key: an integer or a string that is not a canonical integer. */
  datatype Key = IntKey(i: int) | StrKey(s: string)

  predicate ValidKey(k: Key) {
    k.StrKey? ==> !IsCanonicalInt(k.s)
  }

  /** Float-to-int conversion truncates toward zero. */
  function Trunc(f: real): int {
    if f >= 0.0 then f.Floor else -((-f).Floor)
  }

  /** The key PHP uses when a scalar is written as `$a[$v]`. */
  function CastKey(v: Value): (k: Key)
    ensures ValidKey(k)
  {
    match v
    case Null => StrKey("")
    case Bool(b) => IntKey(if b then 1 else 0)
    case Int(i) => IntKey(i)
    case Float(f) => IntKey(Trunc(f))
    case Str(s) => if IsCanonicalInt(s) then IntKey(ParseInt(s)) else StrKey(s)
  }

  /** The key of a string offset, `$a['name']`. */
  function StrIndex(s: string): Key {
    CastKey(Str(s))
  }

  /** The key as text, as `array_keys` followed by interpolation shows it. */
  function KeyString(k: Key): string {
    match k
    case IntKey(i) => IntToString(i)
    case StrKey(s) => s
  }

  /** Casting a key's text back gives the key: the rendering loses nothing. */
  lemma KeyStringRoundTrip(k: Key)
    requires ValidKey(k)
    ensures StrIndex(KeyString(k)) == k
  {
    if k.IntKey? {
      ParseIntToString(k.i);
    }
  }

  /** Rendering the key of a string offset gives the original string. */
  lemma StrIndexRoundTrip(s: string)
    ensures KeyString(StrIndex(s)) == s
  {
    if IsCanonicalInt(s) {
      IntToStringParse(s);
    }
  }

  lemma KeyStringInjective(k1: Key, k2: Key)
    requires ValidKey(k1) && ValidKey(k2) && KeyString(k1) == KeyString(k2)
    ensures k1 == k2
  {
    KeyStringRoundTrip(k1);
    KeyStringRoundTrip(k2);
  }

  // ---------------------------------------------------------------- strings

  function UpperChar(c: char): char {
    if 'a' <= c <= 'z' then (c as int - 32) as char else c
  }

  function LowerChar(c: char): char {
    if 'A' <= c <= 'Z' then (c as int + 32) as char else c
  }

  /** `strtoupper`, ASCII letters only. */
  function Upper(s: string): (r: string)
    ensures |r| == |s| && forall i :: 0 <= i < |s| ==> r[i] == UpperChar(s[i])
  {
    seq(|s|, i requires 0 <= i < |s| => UpperChar(s[i]))
  }

  /** `strtolower`, ASCII letters only. */
  function Lower(s: string): (r: string)
    ensures |r| == |s| && forall i :: 0 <= i < |s| ==> r[i] == LowerChar(s[i])
  {
    seq(|s|, i requires 0 <= i < |s| => LowerChar(s[i]))
  }

  /** The characters `trim` strips by default: " \t\n\r\0\x0B". */
  const Whitespace: set<char> := {' ', '\t', '\n', '\r', '\0', 11 as char}

  function TrimLeft(s: string, cs: set<char>): (r: string)
    ensures |r| <= |s| && r == s[|s| - |r|..]
    ensures |r| > 0 ==> r[0] !in cs
    ensures forall i :: 0 <= i < |s| - |r| ==> s[i] in cs
  {
    if |s| > 0 && s[0] in cs then
      var r := TrimLeft(s[1..], cs);
      assert s[1..][|s| - 1 - |r|..] == s[|s| - |r|..];
      assert forall i :: 1 <= i < |s| - |r| ==> s[i] == s[1..][i - 1];
      r
    else s
  }

  function TrimRight(s: string, cs: set<char>): (r: string)
    ensures |r| <= |s| && r == s[..|r|]
    ensures |r| > 0 ==> r[|r| - 1] !in cs
    ensures forall i :: |r| <= i < |s| ==> s[i] in cs
  {
    if |s| > 0 && s[|s| - 1] in cs then TrimRight(s[..|s| - 1], cs) else s
  }

  /** `trim($s, $chars)`. */
  function TrimBy(s: string, cs: set<char>): (r: string)
    ensures |r| > 0 ==> r[0] !in cs && r[|r| - 1] !in cs
  {
    TrimRight(TrimLeft(s, cs), cs)
  }

  /** `trim($s)`. */
  function Trim(s: string): string {
    TrimBy(s, Whitespace)
  }

  /** A string that neither starts nor ends with whitespace is its own trim. */
  lemma TrimUnpadded(s: string)
    requires |s| > 0 && s[0] !in Whitespace && s[|s| - 1] !in Whitespace
    ensures Trim(s) == s
  {
    assert TrimLeft(s, Whitespace) == s;
  }

  /** A string without lower-case letters is its own upper case. */
  lemma UpperOfUpper(s: string)
    requires forall i :: 0 <= i < |s| ==> !('a' <= s[i] <= 'z')
    ensures Upper(s) == s
  {
  }

  /** Upper-casing twice is upper-casing once. */
  lemma UpperIdempotent(s: string)
    ensures Upper(Upper(s)) == Upper(s)
  {
  }

  /** `strtoupper(strtolower($s))` restores a string without lower-case letters. */
  lemma UpperLower(s: string)
    requires forall i :: 0 <= i < |s| ==> !('a' <= s[i] <= 'z')
    ensures Upper(Lower(s)) == s
  {
  }

  function Implode(sep: string, xs: seq<string>): string {
    if |xs| == 0 then "" else if |xs| == 1 then xs[0] else xs[0] + sep + Implode(sep, xs[1..])
  }

  /** Imploding two non-empty lists joined is joining their implosions with
      the separator. */
  lemma {:induction false} ImplodeConcat(sep: string, xs: seq<string>, ys: seq<string>)
    requires |xs| > 0 && |ys| > 0
    ensures Implode(sep, xs + ys) == Implode(sep, xs) + sep + Implode(sep, ys)
    decreases |xs|
  {
    if |xs| > 1 {
      assert (xs + ys)[1..] == xs[1..] + ys;
      ImplodeConcat(sep, xs[1..], ys);
    } else {
      assert (xs + ys)[1..] == ys;
    }
  }

  /** `explode($c, $s)` for a one-character delimiter. */
  function Explode(c: char, s: string): (r: seq<string>)
    ensures |r| >= 1
  {
    if |s| == 0 then [""]
    else
      var rest := Explode(c, s[1..]);
      if s[0] == c then [""] + rest else [[s[0]] + rest[0]] + rest[1..]
  }

  /** Exploding and imploding with the same delimiter gives the original string,
      and no piece contains the delimiter. */
  lemma {:induction false} ExplodeImplode(c: char, s: string)
    ensures Implode([c], Explode(c, s)) == s
    ensures forall i :: 0 <= i < |Explode(c, s)| ==> c !in Explode(c, s)[i]
  {
    if |s| > 0 {
      var rest := Explode(c, s[1..]);
      ExplodeImplode(c, s[1..]);
      if s[0] == c {
        assert Implode([c], [""] + rest) == "" + [c] + Implode([c], rest);
      } else if |rest| == 1 {
        assert Explode(c, s) == [[s[0]] + rest[0]];
      } else {
        var r := [[s[0]] + rest[0]] + rest[1..];
        assert r[1..] == rest[1..];
        assert Implode([c], r) == [s[0]] + rest[0] + [c] + Implode([c], rest[1..]);
        assert s == [s[0]] + s[1..];
      }
    }
  }

  /** The first piece of `explode` runs up to the first delimiter, and the
      remaining pieces are those of the text after it. */
  lemma {:induction false} ExplodeSplits(c: char, s: string)
    ensures Explode(c, s)[0] == s[..IndexOfChar(s, c)]
    ensures IndexOfChar(s, c) < |s| ==>
      |Explode(c, s)| >= 2 && Explode(c, s)[1..] == Explode(c, s[IndexOfChar(s, c) + 1..])
  {
    if |s| > 0 && s[0] != c {
      ExplodeSplits(c, s[1..]);
      var rest := Explode(c, s[1..]);
      assert Explode(c, s)[1..] == rest[1..];
      assert s[..IndexOfChar(s, c)] == [s[0]] + s[1..][..IndexOfChar(s[1..], c)];
      if IndexOfChar(s, c) < |s| {
        assert s[IndexOfChar(s, c) + 1..] == s[1..][IndexOfChar(s[1..], c) + 1..];
      }
    }
  }

  /** The index of the first `c` in `s`, or `|s|` when there is none. */
  function IndexOfChar(s: string, c: char): (r: nat)
    ensures r <= |s|
    ensures r < |s| ==> s[r] == c
    ensures forall j :: 0 <= j < r ==> s[j] != c
  {
    if |s| == 0 then 0 else if s[0] == c then 0 else 1 + IndexOfChar(s[1..], c)
  }

  function StartsWith(s: string, p: string): bool {
    |p| <= |s| && s[..|p|] == p
  }

  /** `p` occurs in `s` as a substring. */
  predicate Occurs(s: string, p: string) {
    exists i :: 0 <= i <= |s| && OccursAt(s, p, i)
  }

  predicate OccursAt(s: string, p: string, i: nat) {
    i + |p| <= |s| && s[i..i + |p|] == p
  }

  /** `str_replace($p, '', $s)`: a left-to-right scan deleting non-overlapping occurrences. */
  function RemoveAll(s: string, p: string): (r: string)
    requires |p| > 0
    ensures |r| <= |s|
    ensures forall c :: c in r ==> c in s
    decreases |s|
  {
    if |s| < |p| then s
    else if s[..|p|] == p then
      var r := RemoveAll(s[|p|..], p);
      assert forall c :: c in s[|p|..] ==> c in s;
      r
    else
      var r := RemoveAll(s[1..], p);
      assert forall c :: c in s[1..] ==> c in s;
      [s[0]] + r
  }

  /** Removing a pattern that does not occur changes nothing. */
  lemma {:induction false} RemoveAbsent(s: string, p: string)
    requires |p| > 0 && !Occurs(s, p)
    ensures RemoveAll(s, p) == s
    decreases |s|
  {
    if |s| >= |p| {
      assert !OccursAt(s, p, 0);
      assert !Occurs(s[1..], p) by {
        forall i: nat | OccursAt(s[1..], p, i)
          ensures false
        {
          assert s[1..][i..i + |p|] == s[i + 1..i + 1 + |p|];
          assert OccursAt(s, p, i + 1);
        }
      }
      RemoveAbsent(s[1..], p);
      assert s == [s[0]] + s[1..];
    }
  }

  /** `strtok($s, $c)` on a fresh string: skip leading delimiters, then take
      everything up to the next delimiter. When only delimiters remain `strtok`
      returns false, which the caller then uses as the empty string. */
  function FirstToken(s: string, c: char): (r: string)
    ensures c !in r
  {
    var t := TrimLeft(s, {c});
    t[..IndexOfChar(t, c)]
  }

  /** PHP's integer range on a 64-bit platform. */
  const PhpIntMax: int := 0x7FFF_FFFF_FFFF_FFFF
  const PhpIntMin: int := -0x8000_0000_0000_0000

  /** 2^1024 - 2^970: the least decimal value `strtod` rounds to infinity. */
  const DoubleOverflow: nat := 0xFFFFFFFFFFFFFC00_0000000000000000_0000000000000000_0000000000000000_0000000000000000_0000000000000000_0000000000000000_0000000000000000_0000000000000000_0000000000000000_0000000000000000_0000000000000000_0000000000000000_0000000000000000_0000000000000000_0000000000000000

  /** The whitespace `is_numeric_string` skips before a number. */
  const NumericWhitespace: set<char> := {' ', '\t', '\n', '\r', 11 as char, 12 as char}

  /** A decimal `mantissa * 10^exponent`, with its sign. */
  datatype Decimal = Decimal(negative: bool, mantissa: nat, exponent: int)

  /** The exponent part `e`/`E`, an optional sign and at least one digit;
      without digits the `e` is not part of the number. */
  function ExponentOf(s: string): int {
    if |s| > 0 && (s[0] == 'e' || s[0] == 'E') then
      var v := s[1..];
      var signed := |v| > 0 && (v[0] == '-' || v[0] == '+');
      var magnitude: int := ParseNat(LeadingDigits(if signed then v[1..] else v));
      if signed && v[0] == '-' then -magnitude else magnitude
    else 0
  }

  /** The numeric prefix `is_numeric_string` (errors allowed) hands to the
      cast: leading whitespace, a sign, digits with an optional fraction, and
      an exponent. At least one digit must stand before or after the point. */
  function DecimalPrefix(s: string): Option<Decimal> {
    var t := TrimLeft(s, NumericWhitespace);
    var u := if |t| > 0 && (t[0] == '-' || t[0] == '+') then t[1..] else t;
    var whole := LeadingDigits(u);
    var rest := u[|whole|..];
    var pointed := |rest| > 0 && rest[0] == '.';
    var frac := if pointed then LeadingDigits(rest[1..]) else "";
    var tail := if pointed then rest[1 + |frac|..] else rest;
    if whole == "" && frac == "" then None
    else
      AllDigitsConcat(whole, frac);
      Some(Decimal(|t| > 0 && t[0] == '-', ParseNat(whole + frac), ExponentOf(tail) - |frac|))
  }

  /** The magnitude of a decimal, truncated toward zero. */
  function Truncate(d: Decimal): nat {
    if d.exponent >= 0 then Scale(d.mantissa, d.exponent) else Shrink(d.mantissa, -d.exponent)
  }

  /** `m * 10^e`. */
  function Scale(m: nat, e: nat): nat
    decreases e
  {
    if e == 0 then m else Scale(m * 10, e - 1)
  }

  /** `m / 10^e`, rounded down. */
  function Shrink(m: nat, e: nat): nat
    decreases e
  {
    if e == 0 then m else Shrink(m / 10, e - 1)
  }

  /** The decimal's magnitude is at least `DoubleOverflow`, so it reads as an infinite float. */
  predicate Overflows(d: Decimal) {
    if d.exponent >= 0 then Scale(d.mantissa, d.exponent) >= DoubleOverflow
    else d.mantissa >= Scale(DoubleOverflow, -d.exponent)
  }

  /** The `(int)` cast of a string (PHP 8): no numeric prefix reads as 0; an
      infinite float reads as 0; otherwise the value truncated toward zero and
      saturated to the integer range. */
  function IntCast(s: string): (r: int)
    ensures PhpIntMin <= r <= PhpIntMax
    ensures DecimalPrefix(s).None? ==> r == 0
  {
    match DecimalPrefix(s)
    case None => 0
    case Some(d) =>
      if Overflows(d) then 0
      else if d.negative then -Min(Truncate(d), PhpIntMax + 1)
      else Min(Truncate(d), PhpIntMax)
  }

  function Min(a: int, b: int): int {
    if a <= b then a else b
  }

  /** What the cast makes of a natural number's decimal text. */
  function SaturatedNat(n: nat): (r: int)
    ensures n <= PhpIntMax ==> r == n
  {
    if n >= DoubleOverflow then 0 else Min(n, PhpIntMax)
  }

  lemma AllDigitsConcat(a: string, b: string)
    requires AllDigits(a) && AllDigits(b)
    ensures AllDigits(a + b)
  {
    assert forall i :: |a| <= i < |a + b| ==> (a + b)[i] == b[i - |a|];
  }

  /** The digits of `a` followed by a non-digit: the digit run is `a`. */
  lemma {:induction false} LeadingDigitsStop(a: string, b: string)
    requires AllDigits(a) && (|b| > 0 ==> !IsDigit(b[0]))
    ensures LeadingDigits(a + b) == a
    decreases |a|
  {
    if a == [] {
      assert a + b == b;
    } else {
      assert (a + b)[0] == a[0];
      assert (a + b)[1..] == a[1..] + b;
      LeadingDigitsStop(a[1..], b);
      assert a == [a[0]] + a[1..];
    }
  }

  /** The decimal text of a natural number reads as a plain decimal. */
  lemma NatDecimal(n: nat, b: string)
    requires |b| > 0 ==> !IsDigit(b[0]) && b[0] != '.'
    ensures DecimalPrefix(NatToString(n) + b) == Some(Decimal(false, n, ExponentOf(b)))
  {
    var digits := NatToString(n);
    var t := digits + b;
    assert t[0] == digits[0];
    LeadingDigitsStop(digits, b);
    assert t[|digits|..] == b;
    ParseNatToString(n);
    PlainDecimal(t, digits, b);
  }

  /** A string that starts with its digit run and continues without a point. */
  lemma PlainDecimal(t: string, digits: string, b: string)
    requires |digits| > 0 && |t| > 0 && IsDigit(t[0])
    requires LeadingDigits(t) == digits && t[|digits|..] == b
    requires |b| > 0 ==> b[0] != '.'
    ensures DecimalPrefix(t) == Some(Decimal(false, ParseNat(digits), ExponentOf(b)))
  {
    assert TrimLeft(t, NumericWhitespace) == t by {
      assert t[0] !in NumericWhitespace;
    }
    assert digits + "" == digits;
  }

  /** The cast reads back the decimal text of a natural number, saturated. */
  lemma IntCastNat(n: nat)
    ensures IntCast(NatToString(n)) == SaturatedNat(n)
  {
    NatDecimal(n, "");
    assert NatToString(n) + "" == NatToString(n);
  }

  /** ... and of an integer in range, negative ones included. */
  lemma IntCastIntToString(i: int)
    requires PhpIntMin <= i <= PhpIntMax
    ensures IntCast(IntToString(i)) == i
  {
    if i < 0 {
      NegativeDecimal(-i);
      assert Scale(-i, 0) == -i;
    } else {
      IntCastNat(i);
    }
  }

  /** A minus sign before the decimal text of a natural number. */
  lemma NegativeDecimal(n: nat)
    ensures DecimalPrefix("-" + NatToString(n)) == Some(Decimal(true, n, 0))
  {
    var digits := NatToString(n);
    var t := "-" + digits;
    assert t[1..] == digits;
    LeadingDigitsAll(digits);
    ParseNatToString(n);
    MinusDecimal(t, digits, "");
  }

  /** A minus sign, then a digit run continued without a point. */
  lemma MinusDecimal(t: string, digits: string, b: string)
    requires |digits| > 0 && |t| > 1 && t[0] == '-'
    requires LeadingDigits(t[1..]) == digits && t[1..][|digits|..] == b
    requires |b| > 0 ==> b[0] != '.'
    ensures DecimalPrefix(t) == Some(Decimal(true, ParseNat(digits), ExponentOf(b)))
  {
    assert TrimLeft(t, NumericWhitespace) == t by {
      assert t[0] !in NumericWhitespace;
    }
    assert digits + "" == digits;
  }

  /** An exponent scales the mantissa: `(int)"1e3"` is 1000. */
  lemma IntCastScientific(m: nat, k: nat)
    ensures IntCast(NatToString(m) + "e" + NatToString(k)) == SaturatedNat(Scale(m, k))
  {
    var b := "e" + NatToString(k);
    assert NatToString(m) + "e" + NatToString(k) == NatToString(m) + b;
    NatDecimal(m, b);
    ExponentOfDigits(k);
  }

  lemma ExponentOfDigits(k: nat)
    ensures ExponentOf("e" + NatToString(k)) == k
  {
    var v := ("e" + NatToString(k))[1..];
    assert v == NatToString(k);
    assert !(v[0] == '-' || v[0] == '+') by {
      assert IsDigit(v[0]);
    }
    LeadingDigitsAll(v);
    ParseNatToString(k);
  }

  lemma {:induction false} LeadingDigitsAll(s: string)
    requires AllDigits(s)
    ensures LeadingDigits(s) == s
  {
    if |s| > 0 {
      LeadingDigitsAll(s[1..]);
    }
  }

  function LeadingDigits(s: string): (r: string)
    ensures |r| <= |s| && AllDigits(r) && r == s[..|r|]
  {
    if |s| > 0 && IsDigit(s[0]) then [s[0]] + LeadingDigits(s[1..]) else ""
  }
}
