/**
 * The string built-ins the filters rely on: `toLowerCase`, `includes`, the string order
 * used for sorting names, statuses and section labels, and `Number` on a filter's text.
 */
module Text {
  import opened Types

  /**
   * Lower-case mapping of one character: the Basic Latin capitals and the Latin-1
   * capitals (U+00C0..U+00DE except the multiplication sign), which cover Portuguese text.
   */
  function LowerChar(c: char): (l: char)
    ensures (l == c) <==> !IsUpper(c)
  {
    if IsUpper(c) then (c as int + 32) as char else c
  }

  predicate IsUpper(c: char)
  {
    ('A' <= c <= 'Z') || ('À' <= c <= 'Þ' && c != '×')
  }

  function ToLower(s: string): (r: string)
    ensures |r| == |s|
    ensures forall i :: 0 <= i < |s| ==> r[i] == LowerChar(s[i])
  {
    if s == [] then [] else [LowerChar(s[0])] + ToLower(s[1..])
  }

  /** Lowering is idempotent, so lowering a query again changes nothing. */
  lemma ToLowerIdempotent(s: string)
    ensures ToLower(ToLower(s)) == ToLower(s)
  {
    assert forall i :: 0 <= i < |s| ==> !IsUpper(LowerChar(s[i]));
  }

  predicate IsPrefix(p: string, s: string)
  {
    |p| <= |s| && s[..|p|] == p
  }

  /** `String.prototype.includes`: tries every start position from the left. */
  predicate Contains(s: string, needle: string)
    decreases |s|
  {
    IsPrefix(needle, s) || (s != [] && Contains(s[1..], needle))
  }

  /** `needle` occurs in `s` starting at position `i`. */
  predicate OccursAt(s: string, needle: string, i: int)
  {
    0 <= i && i + |needle| <= |s| && s[i..i + |needle|] == needle
  }

  /** `Contains` agrees with the definition of substring by position. */
  lemma {:induction false} ContainsAt(s: string, needle: string)
    ensures Contains(s, needle) <==> exists i :: OccursAt(s, needle, i)
  {
    if s == [] {
      if needle == [] {
        assert OccursAt(s, needle, 0);
      }
      if exists i :: OccursAt(s, needle, i) {
        var i :| OccursAt(s, needle, i);
        assert i == 0 && needle == [] && IsPrefix(needle, s);
      }
    } else {
      ContainsAt(s[1..], needle);
      if IsPrefix(needle, s) {
        assert OccursAt(s, needle, 0);
      } else if Contains(s[1..], needle) {
        var i :| OccursAt(s[1..], needle, i);
        assert s[i + 1..i + 1 + |needle|] == s[1..][i..i + |needle|];
        assert OccursAt(s, needle, i + 1);
      }
      if exists i :: OccursAt(s, needle, i) {
        var i :| OccursAt(s, needle, i);
        if i > 0 {
          assert s[1..][i - 1..i - 1 + |needle|] == s[i..i + |needle|];
          assert OccursAt(s[1..], needle, i - 1);
        } else {
          assert IsPrefix(needle, s);
        }
      }
    }
  }

  /** The empty string is contained in every string. */
  lemma ContainsEmpty(s: string)
    ensures Contains(s, "")
  {
  }

  /** Lower-casing both sides keeps a substring a substring. */
  lemma ContainsLower(s: string, needle: string)
    requires Contains(s, needle)
    ensures Contains(ToLower(s), ToLower(needle))
  {
    ContainsAt(s, needle);
    var i :| OccursAt(s, needle, i);
    var t, u := ToLower(s), ToLower(needle);
    forall k | 0 <= k < |needle| ensures t[i..i + |needle|][k] == u[k] {
      assert s[i + k] == s[i..i + |needle|][k];
    }
    assert t[i..i + |needle|] == u;
    assert OccursAt(t, u, i);
    ContainsAt(ToLower(s), ToLower(needle));
  }

  /**
   * Three-way comparison by character code, the order the model uses for `localeCompare`
   * and for the default order of `Array.prototype.sort` on strings.
   */
  function LexCompare(a: string, b: string): (r: int)
    ensures -1 <= r <= 1
  {
    if a == [] && b == [] then 0
    else if a == [] then -1
    else if b == [] then 1
    else if a[0] < b[0] then -1
    else if a[0] > b[0] then 1
    else LexCompare(a[1..], b[1..])
  }

  /** Only equal strings compare equal. */
  lemma {:induction false} LexCompareZero(a: string, b: string)
    ensures LexCompare(a, b) == 0 <==> a == b
  {
    if a != [] && b != [] && a[0] == b[0] {
      LexCompareZero(a[1..], b[1..]);
      assert a == [a[0]] + a[1..] && b == [b[0]] + b[1..];
    }
  }

  /** Swapping the arguments flips the result. */
  lemma {:induction false} LexCompareFlip(a: string, b: string)
    ensures LexCompare(a, b) == -LexCompare(b, a)
  {
    if a != [] && b != [] && a[0] == b[0] {
      LexCompareFlip(a[1..], b[1..]);
    }
  }

  /** "No later than" is transitive. */
  lemma {:induction false} LexCompareTransitive(a: string, b: string, c: string)
    requires LexCompare(a, b) <= 0 && LexCompare(b, c) <= 0
    ensures LexCompare(a, c) <= 0
  {
    if a != [] && b != [] && c != [] && a[0] == b[0] == c[0] {
      LexCompareTransitive(a[1..], b[1..], c[1..]);
    }
  }

  predicate IsDigit(c: char)
  {
    '0' <= c <= '9'
  }

  predicate IsDigits(s: string)
  {
    |s| > 0 && forall i :: 0 <= i < |s| ==> IsDigit(s[i])
  }

  /** The value of a string of decimal digits, most significant first. */
  function DigitsValue(s: string): nat
    requires IsDigits(s)
  {
    var last := (s[|s| - 1] as int - '0' as int);
    if |s| == 1 then last else 10 * DigitsValue(s[..|s| - 1]) + last
  }

  /** A decimal number as the exact fraction `num / den`; `den` is a power of ten. */
  datatype Decimal = Decimal(num: int, den: nat)

  function Pow10(k: nat): (r: nat)
    ensures r >= 1
  {
    if k == 0 then 1 else 10 * Pow10(k - 1)
  }

  /** `m * 10^p` as a fraction. */
  function Scaled(m: int, p: int): (r: Decimal)
    ensures r.den >= 1
  {
    if p >= 0 then Decimal(m * Pow10(p), 1) else Decimal(m, Pow10(-p))
  }

  /** The position of the first `a` or `b` in `s`, or `|s|` when there is none. */
  function FirstOf(s: string, a: char, b: char): (i: nat)
    ensures i <= |s| && (i < |s| ==> s[i] == a || s[i] == b)
    ensures forall j :: 0 <= j < i ==> s[j] != a && s[j] != b
  {
    if s == [] then 0
    else if s[0] == a || s[0] == b then 0
    else 1 + FirstOf(s[1..], a, b)
  }

  /** The value of a possibly empty digit string; the empty string reads as zero. */
  function DigitsOrZero(s: string): nat
    requires s == [] || IsDigits(s)
  {
    if s == [] then 0 else DigitsValue(s)
  }

  lemma DigitsAppend(a: string, b: string)
    requires (a == [] || IsDigits(a)) && (b == [] || IsDigits(b))
    ensures a + b == [] || IsDigits(a + b)
  {
    if a + b != [] {
      forall i | 0 <= i < |a + b| ensures IsDigit((a + b)[i]) {
        if i >= |a| {
          assert (a + b)[i] == b[i - |a|];
        }
      }
    }
  }

  /**
   * The significand of a decimal literal: digits, optionally a `.` and more digits, with at
   * least one digit in all. It is read as the integer its digits write with the point removed,
   * and the count of digits after the point.
   */
  function Significand(t: string): Option<(nat, nat)>
  {
    var d := FirstOf(t, '.', '.');
    var whole, fraction := t[..d], if d < |t| then t[d + 1..] else "";
    if (whole == [] || IsDigits(whole)) && (fraction == [] || IsDigits(fraction)) && (whole != [] || fraction != []) then
      DigitsAppend(whole, fraction);
      Some((DigitsOrZero(whole + fraction), |fraction|))
    else None
  }

  /** An optional sign followed by decimal digits: the integer of an exponent. */
  function SignedInteger(t: string): Option<int>
  {
    if |t| > 1 && (t[0] == '-' || t[0] == '+') && IsDigits(t[1..]) then
      var magnitude: int := DigitsValue(t[1..]);
      Some(if t[0] == '-' then -magnitude else magnitude)
    else if IsDigits(t) then Some(DigitsValue(t))
    else None
  }

  /** An unsigned decimal literal: a significand, optionally followed by `e` or `E` and an exponent. */
  function UnsignedDecimal(t: string): (r: Option<Decimal>)
    ensures r.Some? ==> r.value.den >= 1
  {
    var e := FirstOf(t, 'e', 'E');
    if e == |t| then
      var significand := Significand(t);
      if significand.None? then None
      else Some(Scaled(significand.value.0, -(significand.value.1 as int)))
    else
      var significand, exponent := Significand(t[..e]), SignedInteger(t[e + 1..]);
      if significand.None? || exponent.None? then None
      else Some(Scaled(significand.value.0, exponent.value - significand.value.1))
  }

  /**
   * `Number(s)` for the text of a number input: the empty text is 0; an optional sign
   * followed by an unsigned decimal literal gives its exact value; any other text gives NaN,
   * modelled as `None`.
   */
  function ToNumber(s: string): (r: Option<Decimal>)
    ensures r.Some? ==> r.value.den >= 1
  {
    if s == [] then Some(Decimal(0, 1))
    else if s[0] == '-' || s[0] == '+' then
      var magnitude := UnsignedDecimal(s[1..]);
      if magnitude.None? then None
      else if s[0] == '-' then Some(Decimal(-magnitude.value.num, magnitude.value.den))
      else magnitude
    else UnsignedDecimal(s)
  }

  /** `n >= x` for an integer `n` and a decimal `x`. */
  predicate AtLeast(n: int, x: Decimal)
  {
    n * x.den >= x.num
  }

  /** `n <= x` for an integer `n` and a decimal `x`. */
  predicate AtMost(n: int, x: Decimal)
  {
    n * x.den <= x.num
  }

  /** `x < y` for two decimals with positive denominators. */
  predicate Below(x: Decimal, y: Decimal)
  {
    x.num * y.den < y.num * x.den
  }

  function DigitChar(d: int): char
    requires 0 <= d < 10
  {
    ('0' as int + d) as char
  }

  /** Decimal rendering of a natural number, without leading zeros. */
  function NatToString(n: nat): (s: string)
    ensures IsDigits(s) && DigitsValue(s) == n
  {
    if n < 10 then [DigitChar(n)]
    else
      var s := NatToString(n / 10) + [DigitChar(n % 10)];
      assert s[..|s| - 1] == NatToString(n / 10);
      s
  }

  /** Decimal rendering of an integer, as a number input's text holds it. */
  function IntToString(n: int): string
  {
    if n < 0 then "-" + NatToString(-n) else NatToString(n)
  }

  /** `FirstOf` finds the first position holding `a` or `b`. */
  lemma {:induction false} FirstOfIs(s: string, a: char, b: char, i: int)
    requires 0 <= i <= |s| && (i < |s| ==> s[i] == a || s[i] == b)
    requires forall j :: 0 <= j < i ==> s[j] != a && s[j] != b
    ensures FirstOf(s, a, b) == i
  {
    if i > 0 {
      FirstOfIs(s[1..], a, b, i - 1);
    }
  }

  /** A plain string of digits reads as the integer it writes. */
  lemma DigitsNumber(s: string)
    requires IsDigits(s)
    ensures UnsignedDecimal(s) == Some(Decimal(DigitsValue(s), 1))
  {
    FirstOfIs(s, 'e', 'E', |s|);
    SignificandDigits(s);
    NoExponent(s, DigitsValue(s), 0);
  }

  lemma SignificandPoint(w: string, fr: string)
    requires IsDigits(w) && IsDigits(fr)
    ensures Significand(w + "." + fr) == Some((DigitsValue(w + fr), |fr|))
  {
    var t := w + "." + fr;
    forall j | 0 <= j < |w| ensures t[j] != '.' {
      assert t[j] == w[j];
    }
    FirstOfIs(t, '.', '.', |w|);
    assert t[..|w|] == w && t[|w| + 1..] == fr;
  }

  lemma SignificandDigits(w: string)
    requires IsDigits(w)
    ensures Significand(w) == Some((DigitsValue(w), 0))
  {
    FirstOfIs(w, '.', '.', |w|);
    assert w[..|w|] == w && w + "" == w;
  }

  /** Without an exponent mark the literal is its significand, scaled down by its decimals. */
  lemma NoExponent(t: string, m: nat, k: nat)
    requires FirstOf(t, 'e', 'E') == |t| && Significand(t) == Some((m, k))
    ensures UnsignedDecimal(t) == Some(Scaled(m, -(k as int)))
  {
  }

  /** Digits, a point and more digits read as the exact decimal fraction they write. */
  lemma PointNumber(w: string, fr: string)
    requires IsDigits(w) && IsDigits(fr)
    ensures IsDigits(w + fr) && ToNumber(w + "." + fr) == Some(Decimal(DigitsValue(w + fr), Pow10(|fr|)))
  {
    var t := w + "." + fr;
    forall j | 0 <= j < |t| ensures t[j] != 'e' && t[j] != 'E' {
      if j < |w| {
        assert t[j] == w[j];
      } else if j > |w| {
        assert t[j] == fr[j - |w| - 1];
      }
    }
    FirstOfIs(t, 'e', 'E', |t|);
    SignificandPoint(w, fr);
    DigitsAppend(w, fr);
    NoExponent(t, DigitsValue(w + fr), |fr|);
    assert t[0] == w[0] && IsDigit(t[0]);
  }

  /** Digits, an `e` and more digits read as the first number times that power of ten. */
  lemma ExponentNumber(w: string, x: string)
    requires IsDigits(w) && IsDigits(x)
    ensures ToNumber(w + "e" + x) == Some(Decimal(DigitsValue(w) * Pow10(DigitsValue(x)), 1))
  {
    var t := w + "e" + x;
    forall j | 0 <= j < |w| ensures t[j] != 'e' && t[j] != 'E' {
      assert t[j] == w[j];
    }
    FirstOfIs(t, 'e', 'E', |w|);
    assert t[..|w|] == w && t[|w| + 1..] == x;
    SignificandDigits(w);
    assert SignedInteger(x) == Some(DigitsValue(x) as int);
    assert UnsignedDecimal(t) == Some(Scaled(DigitsValue(w), DigitsValue(x)));
    assert t[0] == w[0] && IsDigit(t[0]);
    assert ToNumber(t) == UnsignedDecimal(t);
    assert ToNumber(t).value.num == DigitsValue(w) * Pow10(DigitsValue(x));
    assert ToNumber(t).value.den == 1;
  }

  /** Text that is not a decimal literal is NaN. */
  lemma NotNumbers()
    ensures ToNumber("abc") == None && ToNumber(".") == None && ToNumber("1e") == None && ToNumber("-") == None
  {
    FirstOfIs("abc", 'e', 'E', 3);
    FirstOfIs("abc", '.', '.', 3);
    FirstOfIs(".", 'e', 'E', 1);
    FirstOfIs(".", '.', '.', 0);
    FirstOfIs("1e", 'e', 'E', 1);
    FirstOfIs("", 'e', 'E', 0);
    assert "1e"[2..] == "";
  }

  /** `Number` reads back the integer a number input renders. */
  lemma NumberOfRendering(n: int)
    ensures ToNumber(IntToString(n)) == Some(Decimal(n, 1))
  {
    var s := IntToString(n);
    if n < 0 {
      assert s[1..] == NatToString(-n);
      DigitsNumber(NatToString(-n));
    } else {
      DigitsNumber(s);
    }
  }

  lemma MulMonotone(a: int, b: int, k: int)
    requires a <= b && k >= 0
    ensures a * k <= b * k
  {
  }

  lemma CancelBelow(a: int, b: int, k: int)
    requires k > 0 && a * k < b * k
    ensures a < b
  {
  }

  /** No integer lies at or above `lo` and at or below `hi` when `hi` is below `lo`. */
  lemma NoIntegerBetween(n: int, lo: Decimal, hi: Decimal)
    requires lo.den >= 1 && hi.den >= 1 && Below(hi, lo)
    ensures !(AtLeast(n, lo) && AtMost(n, hi))
  {
    if AtLeast(n, lo) {
      MulMonotone(lo.num, n * lo.den, hi.den);
      assert hi.num * lo.den < (n * hi.den) * lo.den;
      CancelBelow(hi.num, n * hi.den, lo.den);
    }
  }
}
