/** Decimal text and base units (internal/config/units.go). */
module Units {
  import opened Wrappers
  import opened Ints

  datatype UnitsError = Required | NotUnsignedDecimal | NotDecimal | TooManyDecimals | Negative

  predicate IsDigit(c: char) {
    '0' <= c <= '9'
  }

  predicate AllDigits(s: string) {
    forall i :: 0 <= i < |s| ==> IsDigit(s[i])
  }

  /** digit+ or digit+ '.' digit+ */
  predicate IsDecimal(s: string) {
    || (|s| > 0 && AllDigits(s))
    || (exists p :: 0 < p < |s| - 1 && IsPoint(s, p))
  }

  predicate IsPoint(s: string, p: nat)
    requires p < |s|
  {
    s[p] == '.' && AllDigits(s[..p]) && AllDigits(s[p + 1..])
  }

  /** The loop over bytes recognises the grammar; a byte of a non-ASCII character is neither a
      digit nor a point, so looking at characters instead makes no difference. */
  method IsUnsignedBase10Decimal(value: string) returns (ok: bool)
    ensures ok == IsDecimal(value)
  {
    var sawDigit := false;
    var sawDecimalPoint := false;
    var digitsAfterDecimalPoint := 0;
    ghost var point := 0;
    for i := 0 to |value|
      invariant !sawDecimalPoint ==> AllDigits(value[..i]) && (sawDigit <==> i > 0) && digitsAfterDecimalPoint == 0
      invariant sawDecimalPoint ==>
                  && sawDigit && 0 < point < i && value[point] == '.'
                  && AllDigits(value[..point]) && AllDigits(value[point + 1..i])
                  && digitsAfterDecimalPoint == i - point - 1
    {
      var character := value[i];
      if IsDigit(character) {
        sawDigit := true;
        if sawDecimalPoint {
          digitsAfterDecimalPoint := digitsAfterDecimalPoint + 1;
          assert value[point + 1..i + 1] == value[point + 1..i] + [character];
        } else {
          assert value[..i + 1] == value[..i] + [character];
        }
      } else if character == '.' && !sawDecimalPoint && sawDigit {
        sawDecimalPoint := true;
        point := i;
      } else {
        NotADecimal(value, i, sawDecimalPoint, point);
        return false;
      }
    }
    if sawDecimalPoint && digitsAfterDecimalPoint > 0 {
      assert value[point + 1..] == value[point + 1..|value|] && IsPoint(value, point);
    } else if sawDecimalPoint {
      forall p | 0 < p < |value| - 1 ensures !IsPoint(value, p) {
        assert p < point ==> value[p] == value[..point][p];
      }
    } else {
      assert value[..|value|] == value;
    }
    return sawDigit && (!sawDecimalPoint || digitsAfterDecimalPoint > 0);
  }

  /** A stray character, or a second point, rules the grammar out. */
  lemma NotADecimal(s: string, i: nat, sawPoint: bool, point: nat)
    requires i < |s| && !IsDigit(s[i])
    requires s[i] == '.' ==> (if sawPoint then point < i && s[point] == '.' else i == 0)
    ensures !IsDecimal(s)
  {
    forall p | 0 < p < |s| - 1 ensures !IsPoint(s, p) {
      if i < p {
        assert s[..p][i] == s[i];
      } else if i > p {
        assert s[p + 1..][i - p - 1] == s[i];
      } else if sawPoint && s[i] == '.' {
        assert s[..p][point] == s[point];
      }
    }
  }

  // ----- trimming -----

  /** unicode.IsSpace */
  predicate IsSpace(c: char) {
    || '\U{9}' <= c <= '\U{D}' || c == ' ' || c == '\U{85}' || c == '\U{A0}' || c == '\U{1680}'
    || '\U{2000}' <= c <= '\U{200A}' || c == '\U{2028}' || c == '\U{2029}' || c == '\U{202F}'
    || c == '\U{205F}' || c == '\U{3000}'
  }

  function TrimLeft(s: string): string {
    if s != [] && IsSpace(s[0]) then TrimLeft(s[1..]) else s
  }

  function TrimRight(s: string): string {
    if s != [] && IsSpace(s[|s| - 1]) then TrimRight(s[..|s| - 1]) else s
  }

  function TrimSpace(s: string): string {
    TrimRight(TrimLeft(s))
  }

  // ----- values -----

  function Pow10(k: nat): (r: int)
    ensures r > 0
  {
    if k == 0 then 1 else 10 * Pow10(k - 1)
  }

  function DigitValue(c: char): int {
    c as int - '0' as int
  }

  function DigitsValue(s: string): int {
    if s == [] then 0 else DigitsValue(s[..|s| - 1]) * 10 + DigitValue(s[|s| - 1])
  }

  function PointIndex(s: string): (p: nat)
    ensures p <= |s| && (p < |s| ==> s[p] == '.')
    ensures forall i :: 0 <= i < p ==> s[i] != '.'
  {
    if s == [] || s[0] == '.' then 0 else 1 + PointIndex(s[1..])
  }

  function IntegerPart(s: string): string {
    s[..PointIndex(s)]
  }

  function FractionPart(s: string): string {
    if PointIndex(s) < |s| then s[PointIndex(s) + 1..] else ""
  }

  /** A quotient that has not been reduced. */
  datatype Rat = Rat(num: int, den: int)

  predicate AllSpace(s: string) {
    forall i :: 0 <= i < |s| ==> IsSpace(s[i])
  }

  /** Nothing, or text that neither begins nor ends with a space. */
  predicate IsTrimmed(s: string) {
    s == [] || (!IsSpace(s[0]) && !IsSpace(s[|s| - 1]))
  }

  lemma {:induction false} TrimLeftDrops(left: string, s: string)
    requires AllSpace(left) && (s == [] || !IsSpace(s[0]))
    ensures TrimLeft(left + s) == s
  {
    if left == [] {
      assert left + s == s;
    } else {
      assert (left + s)[1..] == left[1..] + s;
      TrimLeftDrops(left[1..], s);
    }
  }

  lemma {:induction false} TrimRightDrops(s: string, right: string)
    requires AllSpace(right) && (s == [] || !IsSpace(s[|s| - 1]))
    ensures TrimRight(s + right) == s
  {
    if right == [] {
      assert s + right == s;
    } else {
      var n := |right| - 1;
      assert (s + right)[..|s + right| - 1] == s + right[..n];
      TrimRightDrops(s, right[..n]);
    }
  }

  /** Trimming drops the space on both sides and nothing else. */
  lemma TrimSpaceDrops(left: string, s: string, right: string)
    requires AllSpace(left) && AllSpace(right) && IsTrimmed(s)
    ensures TrimSpace(left + s + right) == s
  {
    if s == [] {
      assert left + s + right == (left + right) + [];
      assert AllSpace(left + right);
      TrimLeftDrops(left + right, []);
    } else {
      assert left + s + right == left + (s + right);
      TrimLeftDrops(left, s + right);
      TrimRightDrops(s, right);
    }
  }

  /** big.Rat.SetString, which is exact on decimal text. */
  function RatFromText(s: string): (r: Option<Rat>)
    ensures r.Some? ==> r.value.den > 0
  {
    if IsDecimal(s)
    then Some(Rat(DigitsValue(IntegerPart(s) + FractionPart(s)), Pow10(|FractionPart(s)|)))
    else None
  }

  function ParseDecimalUnits(value: string, decimals: nat): Result<int, UnitsError> {
    var clean := TrimSpace(value);
    if clean == "" then Failure(Required)
    else if !IsDecimal(clean) then Failure(NotUnsignedDecimal)
    else
      var amount := RatFromText(clean);
      if amount.None? then Failure(NotDecimal)
      else
        var scaled := Rat(amount.value.num * Pow10(decimals), amount.value.den);
        if scaled.num % scaled.den != 0 then Failure(TooManyDecimals)
        else if scaled.num / scaled.den < 0 then Failure(Negative)
        else Success(scaled.num / scaled.den)
  }

  // ----- arithmetic of digit strings -----

  lemma {:induction false} Pow10Adds(j: nat, k: nat)
    ensures Pow10(j + k) == Pow10(j) * Pow10(k)
  {
    if j > 0 {
      Pow10Adds(j - 1, k);
      assert 10 * (Pow10(j - 1) * Pow10(k)) == (10 * Pow10(j - 1)) * Pow10(k);
    }
  }

  lemma {:induction false} DigitsValueRange(s: string)
    requires AllDigits(s)
    ensures 0 <= DigitsValue(s) < Pow10(|s|)
    ensures DigitsValue(s) == 0 <==> forall i :: 0 <= i < |s| ==> s[i] == '0'
  {
    if s != [] {
      var front := s[..|s| - 1];
      assert forall i :: 0 <= i < |front| ==> front[i] == s[i];
      DigitsValueRange(front);
    }
  }

  lemma {:induction false} DigitsValueConcat(a: string, b: string)
    ensures DigitsValue(a + b) == DigitsValue(a) * Pow10(|b|) + DigitsValue(b)
  {
    if b == [] {
      assert a + b == a;
    } else {
      var front := b[..|b| - 1];
      assert (a + b)[..|a + b| - 1] == a + front;
      DigitsValueConcat(a, front);
      assert (DigitsValue(a) * Pow10(|front|)) * 10 == DigitsValue(a) * (10 * Pow10(|front|));
    }
  }

  lemma NonZeroMultiple(d: int, k: int)
    requires d > 0 && k != 0
    ensures d * k >= d || d * k <= -d
  {
    if k >= 1 {
      assert d * (k - 1) >= 0;
    } else {
      assert d * (-1 - k) >= 0;
    }
  }

  lemma DivisionIsUnique(x: int, d: int, quotient: int, rest: int)
    requires 0 <= rest < d && x == d * quotient + rest
    ensures x / d == quotient && x % d == rest
  {
    assert d * (quotient - x / d) == x % d - rest;
    if quotient != x / d {
      NonZeroMultiple(d, quotient - x / d);
    }
  }

  /** Scaling both sides of a division changes neither whether it is exact nor the quotient. */
  lemma ScaledDivision(x: int, p: int, q: int)
    requires p > 0 && q > 0
    ensures p * q > 0
    ensures (x * q) % (p * q) == 0 <==> x % p == 0
    ensures (x * q) / (p * q) == x / p
  {
    var k, r := x / p, x % p;
    ScaledSum(x, p, q, k, r);
    DivisionIsUnique(x * q, p * q, k, r * q);
  }

  lemma ScaledSum(x: int, p: int, q: int, k: int, r: int)
    requires x == p * k + r && 0 <= r < p && q > 0
    ensures x * q == (p * q) * k + r * q
    ensures 0 <= r * q < p * q
    ensures r * q == 0 <==> r == 0
  {
    assert (p - r) * q > 0;
    assert (p * k) * q == (p * q) * k;
  }

  lemma CancelFactor(x: int, y: int, q: int)
    requires q > 0 && x * q == y * q
    ensures x == y
  {
    assert (x - y) * q == 0;
  }

  lemma DecimalParts(s: string)
    requires IsDecimal(s)
    ensures AllDigits(IntegerPart(s)) && AllDigits(FractionPart(s)) && IntegerPart(s) != []
  {
    if !AllDigits(s) {
      var p :| 0 < p < |s| - 1 && IsPoint(s, p);
      assert forall i :: 0 <= i < p ==> s[i] == s[..p][i];
      assert PointIndex(s) == p;
    }
  }

  predicate ZerosFrom(s: string, k: nat) {
    forall i :: k <= i < |s| ==> s[i] == '0'
  }

  /** Decimal text is accepted exactly when it matches the grammar and every fraction digit
      past the decimals is zero; the result is its exact value in base units; and of the five
      errors only three can come out. */
  lemma ParseIsExact(value: string, decimals: nat)
    ensures var clean, r := TrimSpace(value), ParseDecimalUnits(value, decimals);
            && (r.Success? <==> IsDecimal(clean) && ZerosFrom(FractionPart(clean), decimals))
            && (r.Success? ==>
                  && r.value >= 0
                  && r.value * Pow10(|FractionPart(clean)|)
                       == DigitsValue(IntegerPart(clean) + FractionPart(clean)) * Pow10(decimals))
            && (r.Failure? ==> r.error == (if clean == "" then Required
                                           else if !IsDecimal(clean) then NotUnsignedDecimal
                                           else TooManyDecimals))
  {
    var clean := TrimSpace(value);
    if IsDecimal(clean) {
      DecimalParts(clean);
      DecimalDivision(IntegerPart(clean), FractionPart(clean), decimals);
    }
  }

  /** Space around the text makes no difference. */
  lemma ParseIgnoresSpaceAround(left: string, s: string, right: string, decimals: nat)
    requires AllSpace(left) && AllSpace(right) && IsTrimmed(s)
    ensures ParseDecimalUnits(left + s + right, decimals) == ParseDecimalUnits(s, decimals)
  {
    TrimSpaceDrops(left, s, right);
    TrimSpaceDrops("", s, "");
    assert "" + s + "" == s;
  }

  lemma DecimalDivision(whole: string, fraction: string, decimals: nat)
    requires AllDigits(whole) && AllDigits(fraction)
    ensures var num, den := DigitsValue(whole + fraction) * Pow10(decimals), Pow10(|fraction|);
            && (num % den == 0 <==> ZerosFrom(fraction, decimals))
            && (num % den == 0 ==> num / den >= 0 && (num / den) * den == num)
  {
    var f := |fraction|;
    DigitsValueRange(whole + fraction);
    if f <= decimals {
      Pow10Adds(decimals - f, f);
      EnoughPlaces(DigitsValue(whole + fraction), Pow10(f), Pow10(decimals - f));
    } else {
      LostPlaces(whole, fraction, decimals);
      Pow10Adds(f - decimals, decimals);
      TooFewPlaces(DigitsValue(whole + fraction), DigitsValue(whole + fraction[..decimals]),
                   DigitsValue(fraction[decimals..]),
                   Pow10(f - decimals), Pow10(decimals));
    }
  }

  lemma LostPlaces(whole: string, fraction: string, decimals: nat)
    requires AllDigits(fraction) && decimals < |fraction|
    ensures DigitsValue(whole + fraction)
         == DigitsValue(whole + fraction[..decimals]) * Pow10(|fraction| - decimals) + DigitsValue(fraction[decimals..])
    ensures 0 <= DigitsValue(fraction[decimals..]) < Pow10(|fraction| - decimals)
    ensures DigitsValue(fraction[decimals..]) == 0 <==> ZerosFrom(fraction, decimals)
  {
    var lost := fraction[decimals..];
    assert whole + fraction == (whole + fraction[..decimals]) + lost;
    DigitsValueConcat(whole + fraction[..decimals], lost);
    DigitsValueRange(lost);
    assert forall i :: 0 <= i < |lost| ==> lost[i] == fraction[decimals + i];
    assert forall i :: decimals <= i < |fraction| ==> fraction[i] == lost[i - decimals];
  }

  lemma EnoughPlaces(n: int, p: int, q: int)
    requires n >= 0 && p > 0 && q > 0
    ensures var num := n * (q * p); num % p == 0 && num / p >= 0 && (num / p) * p == num
  {
    assert n * (q * p) == p * (n * q) + 0;
    DivisionIsUnique(n * (q * p), p, n * q, 0);
    assert n * q >= 0;
  }

  lemma TooFewPlaces(n: int, kept: int, lost: int, p: int, q: int)
    requires n >= 0 && n == kept * p + lost && 0 <= lost < p && q > 0
    ensures p * q > 0
    ensures var num, den := n * q, p * q;
            && (num % den == 0 <==> lost == 0)
            && (num % den == 0 ==> num / den >= 0 && (num / den) * den == num)
  {
    DivisionIsUnique(n, p, kept, lost);
    ScaledDivision(n, p, q);
    assert n / p >= 0;
    if lost == 0 {
      assert kept * (p * q) == (kept * p) * q;
    }
  }

  // ----- rendering -----

  function DigitChar(d: int): (c: char)
    requires 0 <= d < 10
    ensures IsDigit(c) && DigitValue(c) == d
  {
    '0' + d as char
  }

  function NatText(n: nat): (s: string)
    ensures s != [] && AllDigits(s) && DigitsValue(s) == n
  {
    if n < 10 then [DigitChar(n)] else NatText(n / 10) + [DigitChar(n % 10)]
  }

  function IntText(n: int): string {
    if n < 0 then "-" + NatText(-n) else NatText(n)
  }

  lemma IntTextIsInjective(a: int, b: int)
    requires IntText(a) == IntText(b)
    ensures a == b
  {
    var s := IntText(a);
    assert a < 0 <==> !IsDigit(s[0]);
    assert b < 0 <==> !IsDigit(s[0]);
    if a < 0 {
      assert s[1..] == NatText(-a) && s[1..] == NatText(-b);
    }
  }

  function PaddedText(n: nat, width: nat): (s: string)
    requires n < Pow10(width)
    ensures |s| == width && AllDigits(s) && DigitsValue(s) == n
  {
    if width == 0 then "" else PaddedText(n / 10, width - 1) + [DigitChar(n % 10)]
  }

  function Quotient(n: nat, d: int): nat
    requires d > 0
  {
    n / d
  }

  function Remainder(n: nat, d: int): (r: nat)
    requires d > 0
    ensures r < d && n == Quotient(n, d) * d + r
  {
    n % d
  }

  function FractionText(n: nat, decimals: nat): (s: string)
    ensures |s| == decimals && AllDigits(s) && DigitsValue(s) == Remainder(n, Pow10(decimals))
  {
    PaddedText(Remainder(n, Pow10(decimals)), decimals)
  }

  /** n base units written as a decimal with all its places. */
  function UnitsText(n: nat, decimals: nat): string {
    NatText(Quotient(n, Pow10(decimals))) + (if decimals == 0 then "" else "." + FractionText(n, decimals))
  }

  lemma DigitsAreNotTrimmed(s: string)
    requires s != [] && IsDigit(s[0]) && IsDigit(s[|s| - 1])
    ensures TrimSpace(s) == s
  {
  }

  /** Parsing a decimal written with all its places reads off its digits. */
  lemma ParseReadsDigits(s: string, whole: string, fraction: string)
    requires whole != [] && AllDigits(whole) && AllDigits(fraction)
    requires s == whole + (if fraction == [] then "" else "." + fraction)
    ensures ParseDecimalUnits(s, |fraction|) == Success(DigitsValue(whole) * Pow10(|fraction|) + DigitsValue(fraction))
  {
    TextIsDecimal(s, whole, fraction);
    ParseIsExact(s, |fraction|);
    DigitsValueConcat(whole, fraction);
    CancelFactor(ParseDecimalUnits(s, |fraction|).value, DigitsValue(whole + fraction), Pow10(|fraction|));
  }

  /** Parsing the decimal text of any amount gives the amount back. */
  lemma ParseInvertsText(n: nat, decimals: nat)
    ensures ParseDecimalUnits(UnitsText(n, decimals), decimals) == Success(n)
  {
    ParseReadsDigits(UnitsText(n, decimals), NatText(Quotient(n, Pow10(decimals))), FractionText(n, decimals));
  }

  lemma TextIsDecimal(s: string, whole: string, fraction: string)
    requires whole != [] && AllDigits(whole) && AllDigits(fraction)
    requires s == whole + (if fraction == [] then "" else "." + fraction)
    ensures IsDecimal(s) && TrimSpace(s) == s
    ensures IntegerPart(s) == whole && FractionPart(s) == fraction
  {
    assert forall i :: 0 <= i < |whole| ==> s[i] == whole[i];
    if fraction == [] {
      assert s == whole;
      assert PointIndex(s) == |s|;
    } else {
      var p := |whole|;
      assert s[p] == '.' && s[..p] == whole && s[p + 1..] == fraction;
      assert IsPoint(s, p);
      assert PointIndex(s) == p;
      assert s[|s| - 1] == fraction[|fraction| - 1];
    }
    DigitsAreNotTrimmed(s);
  }

  // ----- integers -----

  /** strconv.ParseInt(value, 10, 64) */
  function ParseInt64(value: string): (r: Option<int>)
    ensures r.Some? ==> MIN_INT64 <= r.value <= MAX_INT64
  {
    var signed := value != [] && (value[0] == '+' || value[0] == '-');
    var digits := if signed then value[1..] else value;
    if digits == "" || !AllDigits(digits) then None
    else
      var n := if signed && value[0] == '-' then -DigitsValue(digits) else DigitsValue(digits);
      if MIN_INT64 <= n <= MAX_INT64 then Some(n) else None
  }

  /** Parsing the text of any int64 gives it back, with or without a plus sign. */
  lemma ParseInt64InvertsText(n: int)
    requires MIN_INT64 <= n <= MAX_INT64
    ensures ParseInt64(IntText(n)) == Some(n)
    ensures n >= 0 ==> ParseInt64("+" + IntText(n)) == Some(n)
  {
    var s := IntText(n);
    if n < 0 {
      assert s[1..] == NatText(-n);
    } else {
      assert IsDigit(s[0]);
      assert ("+" + s)[1..] == s;
    }
  }

  const BASIS_POINTS_DENOMINATOR := 10_000

  predicate ValidBPS(value: int) {
    0 <= value <= BASIS_POINTS_DENOMINATOR
  }
}
