/**
 * Number tokens: which run of bytes a number is read from, which of them strtod reads whole, and
 * the value of those that are integers.
 */
module JsonNumbers {
  import opened Wrappers
  import opened Bytes
  import opened JsonValue

  const PLUS: byte := 0x2B
  const POINT: byte := 0x2E

  predicate IsExponent(b: int) {
    b == 0x65 || b == 0x45
  }

  predicate IsNumberByte(b: int) {
    IsDigit(b) || b == PLUS || b == MINUS || b == POINT || IsExponent(b)
  }

  /** The longest prefix of number bytes. */
  function NumberToken(u: bytes): (token: bytes)
    ensures |token| <= |u|
  {
    if u == [] || !IsNumberByte(u[0]) then [] else [u[0]] + NumberToken(u[1..])
  }

  lemma NumberBytesAreThese(b: byte)
    ensures IsNumberByte(b) <==> 0x30 <= b <= 0x39 || exists i :: 0 <= i < 5 && b == "+-.eE"[i] as int
  {
    var all := "+-.eE";
    assert all[0] == '+' && all[1] == '-' && all[2] == '.' && all[3] == 'e' && all[4] == 'E';
  }

  lemma {:induction false} NumberTokenIsMaximal(u: bytes)
    ensures NumberToken(u) <= u
    ensures forall i :: 0 <= i < |NumberToken(u)| ==> IsNumberByte(u[i])
    ensures |NumberToken(u)| < |u| ==> !IsNumberByte(u[|NumberToken(u)|])
  {
    if u != [] && IsNumberByte(u[0]) {
      NumberTokenIsMaximal(u[1..]);
      assert u == [u[0]] + u[1..];
      forall i | 0 <= i < |NumberToken(u)| ensures IsNumberByte(u[i]) {
        if i > 0 {
          assert u[i] == u[1..][i - 1];
        }
      }
    }
  }

  // ---------- What strtod reads ----------

  /** A sign, digits, a fraction and an exponent, as section 7.20.1.3 of ISO C99 has them. */
  datatype Numeral = Numeral(sign: bytes, whole: bytes, fraction: Option<bytes>, exponent: bytes)

  predicate SignOk(s: bytes) {
    s == [] || s == [PLUS] || s == [MINUS]
  }

  function SignOf(s: bytes): (sign: bytes)
    ensures sign <= s && SignOk(sign)
  {
    if s != [] && (s[0] == PLUS || s[0] == MINUS) then [s[0]] else []
  }

  predicate ExponentOk(s: bytes) {
    s == [] ||
    (IsExponent(s[0]) && var digits := s[1..][|SignOf(s[1..])|..]; digits != [] && AllDigits(digits))
  }

  function FractionDigits(n: Numeral): bytes {
    if n.fraction.Some? then n.fraction.value else []
  }

  predicate NumeralOk(n: Numeral) {
    && SignOk(n.sign) && AllDigits(n.whole) && AllDigits(FractionDigits(n))
    && n.whole + FractionDigits(n) != []
    && ExponentOk(n.exponent)
  }

  function WriteFraction(fraction: Option<bytes>): bytes {
    if fraction.Some? then [POINT] + fraction.value else []
  }

  function WriteNumeral(n: Numeral): bytes {
    n.sign + (n.whole + (WriteFraction(n.fraction) + n.exponent))
  }

  function DigitRun(s: bytes): (n: nat)
    ensures n <= |s|
  {
    if s != [] && IsDigit(s[0]) then 1 + DigitRun(s[1..]) else 0
  }

  function CutFraction(s: bytes): (Option<bytes>, bytes) {
    if s != [] && s[0] == POINT then
      var n := DigitRun(s[1..]);
      (Some(s[1..][..n]), s[1..][n..])
    else (None, s)
  }

  /** Cuts a token as strtod goes through it; what does not fit is left in the exponent. */
  function NumeralOf(token: bytes): Numeral {
    var sign := SignOf(token);
    var unsigned := token[|sign|..];
    var n := DigitRun(unsigned);
    var behind := CutFraction(unsigned[n..]);
    Numeral(sign, unsigned[..n], behind.0, behind.1)
  }

  /** Whether strtod reads the whole of a token of number bytes. */
  predicate StrtodReadsAll(token: bytes) {
    NumeralOk(NumeralOf(token))
  }

  lemma {:induction false} DigitRunStops(digits: bytes, rest: bytes)
    requires AllDigits(digits) && (rest == [] || !IsDigit(rest[0]))
    ensures DigitRun(digits + rest) == |digits|
    ensures (digits + rest)[..|digits|] == digits && (digits + rest)[|digits|..] == rest
  {
    if digits != [] {
      assert (digits + rest)[1..] == digits[1..] + rest;
      DigitRunStops(digits[1..], rest);
    } else {
      assert digits + rest == rest;
    }
  }

  lemma FractionIsCutBack(s: bytes)
    ensures WriteFraction(CutFraction(s).0) + CutFraction(s).1 == s
  {
    hide DigitRun;
    if s != [] && s[0] == POINT {
      var n := DigitRun(s[1..]);
      assert s[1..] == s[1..][..n] + s[1..][n..];
      assert s == [POINT] + s[1..];
    }
  }

  lemma NumeralIsCutBack(token: bytes)
    ensures WriteNumeral(NumeralOf(token)) == token
  {
    hide DigitRun, CutFraction, WriteFraction;
    var unsigned := token[|SignOf(token)|..];
    var n := DigitRun(unsigned);
    FractionIsCutBack(unsigned[n..]);
    assert unsigned == unsigned[..n] + unsigned[n..];
    assert token == SignOf(token) + unsigned;
  }

  lemma FractionIsFound(fraction: Option<bytes>, exponent: bytes)
    requires fraction.Some? ==> AllDigits(fraction.value)
    requires exponent == [] || IsExponent(exponent[0])
    ensures CutFraction(WriteFraction(fraction) + exponent) == (fraction, exponent)
  {
    hide DigitRun;
    var s := WriteFraction(fraction) + exponent;
    if fraction.Some? {
      assert s[1..] == fraction.value + exponent;
      DigitRunStops(fraction.value, exponent);
    } else {
      assert s == exponent;
    }
  }

  lemma NumeralIsFound(n: Numeral)
    requires NumeralOk(n)
    ensures NumeralOf(WriteNumeral(n)) == n
  {
    hide DigitRun, CutFraction;
    var behind := WriteFraction(n.fraction) + n.exponent;
    var unsigned := n.whole + behind;
    assert behind == [] || behind[0] == POINT || IsExponent(behind[0]);
    SignIsFound(n.sign, unsigned);
    DigitRunStops(n.whole, behind);
    FractionIsFound(n.fraction, n.exponent);
  }

  lemma SignIsFound(sign: bytes, s: bytes)
    requires SignOk(sign) && (s == [] || (s[0] != PLUS && s[0] != MINUS))
    ensures SignOf(sign + s) == sign && (sign + s)[|sign|..] == s
  {
  }

  // ---------- The value ----------

  function Power(n: nat): (p: nat)
    ensures p > 0
  {
    if n == 0 then 1 else 10 * Power(n - 1)
  }

  function Exponent(s: bytes): int
    requires ExponentOk(s)
  {
    if s == [] then 0
    else
      var magnitude := Magnitude(s[1..][|SignOf(s[1..])|..]);
      if s[1] == MINUS then 0 - magnitude else magnitude as int
  }

  /** Without its sign, the numeral is Digits divided by Divisor. */
  function Digits(n: Numeral): nat
    requires NumeralOk(n)
  {
    var scale := Exponent(n.exponent) - |FractionDigits(n)|;
    Magnitude(n.whole + FractionDigits(n)) * if scale > 0 then Power(scale) else 1
  }

  function Divisor(n: Numeral): (d: nat)
    requires NumeralOk(n)
    ensures d > 0
  {
    var scale := Exponent(n.exponent) - |FractionDigits(n)|;
    if scale < 0 then Power(0 - scale) else 1
  }

  /** The quotient, if it is whole. */
  function Divided(n: nat, d: nat): Option<nat>
    requires d > 0
  {
    if n % d == 0 then Some(n / d) else None
  }

  function NumeralValue(n: Numeral, token: bytes): Value
    requires NumeralOk(n)
  {
    var whole := Divided(Digits(n), Divisor(n));
    if whole.Some? && whole.value < EXACT_LIMIT then Num(n.sign == [MINUS], whole.value) else Float(token)
  }

  /**
   * The double that strtod yields, if it reads the whole token. Of the empty token it reads
   * nothing, and so nothing is left.
   */
  function NumberValue(token: bytes): Option<Value> {
    if token == [] then Some(Num(false, 0))
    else if StrtodReadsAll(token) then Some(NumeralValue(NumeralOf(token), token))
    else None
  }

  predicate DecimalDigits(s: bytes) {
    forall i :: 0 <= i < |s| ==> 0x30 <= s[i] <= 0x39
  }

  /**
   * The form strtod reads in decimal: an optional sign, digits, a point with more digits, at least
   * one digit in all, and an exponent that is worth `k`.
   */
  predicate StrtodForm(sign: bytes, whole: bytes, fraction: bytes, exponent: bytes, k: int) {
    && (sign == [] || sign == ['+' as int] || sign == ['-' as int])
    && DecimalDigits(whole) && |whole| + |fraction| > 0
    && (fraction != [] ==>
          fraction[0] == '.' as int && DecimalDigits(fraction[1..]) && |whole| + |fraction[1..]| > 0)
    && ExponentForm(exponent, k)
  }

  predicate ExponentForm(exponent: bytes, k: int) {
    if exponent == [] then k == 0
    else
      && (exponent[0] == 'e' as int || exponent[0] == 'E' as int) && |exponent| > 1
      && var signed := exponent[1] == '+' as int || exponent[1] == '-' as int;
         var digits := if signed then exponent[2..] else exponent[1..];
         && digits != [] && DecimalDigits(digits)
         && k == if exponent[1] == '-' as int then 0 - Magnitude(digits) else Magnitude(digits) as int
  }

  ghost predicate HasStrtodForm(token: bytes) {
    exists sign, whole, fraction, exponent, k ::
      token == sign + whole + fraction + exponent && StrtodForm(sign, whole, fraction, exponent, k)
  }

  lemma ExponentFormIff(exponent: bytes, k: int)
    ensures ExponentForm(exponent, k) <==> ExponentOk(exponent) && k == Exponent(exponent)
  {
    hide Magnitude;
    if exponent != [] {
      var more := exponent[1..];
      assert more != [] && (more[0] == PLUS || more[0] == MINUS) ==> more[1..] == exponent[2..];
      assert more[0..] == more;
    }
  }

  /** The parts of a numeral in that form. */
  lemma FormOfNumeral(n: Numeral)
    requires NumeralOk(n)
    ensures StrtodForm(n.sign, n.whole, WriteFraction(n.fraction), n.exponent, Exponent(n.exponent))
    ensures WriteNumeral(n) == n.sign + n.whole + WriteFraction(n.fraction) + n.exponent
  {
    hide Exponent, ExponentForm, ExponentOk;
    ExponentFormIff(n.exponent, Exponent(n.exponent));
    assert n.fraction.Some? ==> WriteFraction(n.fraction)[1..] == n.fraction.value;
  }

  function NumeralFrom(sign: bytes, whole: bytes, fraction: bytes, exponent: bytes): Numeral {
    Numeral(sign, whole, if fraction == [] then None else Some(fraction[1..]), exponent)
  }

  lemma NumeralOfForm(sign: bytes, whole: bytes, fraction: bytes, exponent: bytes, k: int)
    requires StrtodForm(sign, whole, fraction, exponent, k)
    ensures var n := NumeralFrom(sign, whole, fraction, exponent);
            NumeralOk(n) && WriteNumeral(n) == sign + whole + fraction + exponent && Exponent(n.exponent) == k
  {
    hide Exponent, ExponentForm, ExponentOk;
    ExponentFormIff(exponent, k);
    assert fraction != [] ==> [fraction[0]] + fraction[1..] == fraction;
    var n := NumeralFrom(sign, whole, fraction, exponent);
    assert WriteFraction(n.fraction) == fraction;
    assert sign + (whole + (fraction + exponent)) == sign + whole + fraction + exponent;
  }

  /** The source's test passes exactly for what strtod reads whole, and for the empty token. */
  lemma NumberIffStrtodForm(token: bytes)
    ensures NumberValue(token).Some? <==> token == [] || HasStrtodForm(token)
    ensures token == [] ==> NumberValue(token) == Some(Num(false, 0))
  {
    hide NumeralOk, WriteNumeral, NumeralOf, NumeralValue, StrtodForm, Exponent;
    NumeralIsCutBack(token);
    if StrtodReadsAll(token) {
      FormOfNumeral(NumeralOf(token));
    }
    if HasStrtodForm(token) {
      var sign, whole, fraction, exponent, k :|
        token == sign + whole + fraction + exponent && StrtodForm(sign, whole, fraction, exponent, k);
      NumeralOfForm(sign, whole, fraction, exponent, k);
      NumeralIsFound(NumeralFrom(sign, whole, fraction, exponent));
    }
  }

  lemma QuotientIff(n: nat, d: nat, m: nat)
    requires d > 0
    ensures Divided(n, d) == Some(m) <==> n == m * d
  {
    if n == m * d {
      var q, r := n / d, n % d;
      assert (m - q) * d == r;
      assert m - q >= 1 ==> (m - q) * d >= d;
      assert m < q ==> (m - q) * d < 0;
    }
  }

  lemma ReadAsQuotient(n: Numeral, m: exact)
    requires NumeralOk(n)
    ensures NumberValue(WriteNumeral(n)) == Some(Num(n.sign == [MINUS], m)) <==>
            Digits(n) == m * Divisor(n)
  {
    hide NumeralOk, NumeralOf, Digits, Divisor, Divided;
    NumeralIsFound(n);
    NumeralIsNotEmpty(n);
    QuotientIff(Digits(n), Divisor(n), m);
  }

  function Zeros(n: nat): (z: bytes)
    ensures |z| == n && DecimalDigits(z)
  {
    seq(n, i => '0' as int)
  }

  lemma {:induction false} PaddedMagnitude(s: bytes, n: nat)
    requires AllDigits(s)
    ensures AllDigits(s + Zeros(n)) && Magnitude(s + Zeros(n)) == Magnitude(s) * Power(n)
  {
    hide Magnitude;
    if n == 0 {
      assert s + Zeros(0) == s;
    } else {
      PaddedMagnitude(s, n - 1);
      var padded := s + Zeros(n - 1);
      assert s + Zeros(n) == padded + [0x30];
      MagnitudeOfMore(padded, 0x30);
      TenTimes(Magnitude(s), Power(n - 1));
    }
  }

  lemma TenTimes(m: nat, p: nat)
    ensures 10 * (m * p) == m * (10 * p)
  {
  }

  lemma DigitsBothAreDigits(a: bytes, b: bytes)
    requires DecimalDigits(a) && DecimalDigits(b)
    ensures AllDigits(a + b)
  {
  }

  /** How many zeros stand for a scale: behind the digits if it is positive, else behind the integer. */
  function Up(scale: int): nat {
    if scale > 0 then scale else 0
  }

  function WithZeros(s: bytes, n: int): (d: bytes)
    requires AllDigits(s)
    ensures AllDigits(d)
  {
    s + Zeros(Up(n))
  }

  /** The places behind the point. */
  function PlacesOf(fraction: bytes): bytes {
    if fraction == [] then [] else fraction[1..]
  }

  function AllPlaces(whole: bytes, fraction: bytes): (d: bytes)
    requires DecimalDigits(whole) && DecimalDigits(PlacesOf(fraction))
    ensures AllDigits(d)
  {
    whole + PlacesOf(fraction)
  }

  lemma ScaledByZeros(n: Numeral, m: nat)
    requires NumeralOk(n)
    ensures var digits, scale := n.whole + FractionDigits(n), Exponent(n.exponent) - |FractionDigits(n)|;
            && AllDigits(digits) && Magnitude(WithZeros(digits, scale)) == Digits(n)
            && Magnitude(WithZeros(Decimal(m), 0 - scale)) == m * Divisor(n)
  {
    hide Magnitude, Exponent, Decimal, Zeros;
    var digits, scale := n.whole + FractionDigits(n), Exponent(n.exponent) - |FractionDigits(n)|;
    DigitsBothAreDigits(n.whole, FractionDigits(n));
    PaddedMagnitude(digits, Up(scale));
    PaddedMagnitude(Decimal(m), Up(0 - scale));
    MagnitudeOfDecimal(m);
  }

  lemma ReadsMagnitude(n: Numeral, m: nat)
    requires NumeralOk(n)
    ensures var r := NumberValue(WriteNumeral(n));
            && r.Some?
            && (r.value.Num? && r.value.negative == (n.sign == [MINUS]) && r.value.magnitude == m <==>
                m < EXACT_LIMIT && Digits(n) == m * Divisor(n))
  {
    hide NumeralOk, NumeralOf, Digits, Divisor, Divided, WriteNumeral;
    NumeralIsFound(n);
    NumeralIsNotEmpty(n);
    if m < EXACT_LIMIT {
      ReadAsQuotient(n, m);
    }
  }

  /**
   * A numeral is read as the integer `m` exactly if `m` is below 2^53 and is its value: its digits
   * with as many zeros behind them as the exponent exceeds the places of the fraction, or, where it
   * falls short of them, the digits of `m` with that many zeros. So 1.0 and 10e-1 are read as 1.
   */
  lemma IntegersAreExact(sign: bytes, whole: bytes, fraction: bytes, exponent: bytes, k: int, m: nat)
    requires StrtodForm(sign, whole, fraction, exponent, k)
    ensures var r, scale := NumberValue(sign + whole + fraction + exponent), k - |PlacesOf(fraction)|;
            && r.Some?
            && (r.value.Num? && r.value.negative == (sign == ['-' as int]) && r.value.magnitude == m <==>
                && m < 9007199254740992
                && Magnitude(WithZeros(AllPlaces(whole, fraction), scale)) == Magnitude(WithZeros(Decimal(m), 0 - scale)))
  {
    hide NumeralOk, WriteNumeral, NumberValue, Digits, Divisor, Magnitude, Decimal, WithZeros, Exponent, StrtodForm;
    var n := NumeralFrom(sign, whole, fraction, exponent);
    NumeralOfForm(sign, whole, fraction, exponent, k);
    ScaledByZeros(n, m);
    ReadsMagnitude(n, m);
  }

  lemma NumeralIsNotEmpty(n: Numeral)
    requires NumeralOk(n)
    ensures WriteNumeral(n) != []
  {
    assert n.whole == [] ==> FractionDigits(n) != [];
  }

  /** Plain decimal digits have their decimal value. */
  lemma DigitsAreRead(negative: bool, digits: bytes)
    requires digits != [] && AllDigits(digits) && Magnitude(digits) < EXACT_LIMIT
    ensures NumberValue((if negative then [MINUS] else []) + digits) == Some(Num(negative, Magnitude(digits)))
  {
    hide Magnitude, NumberValue;
    var n := Numeral(if negative then [MINUS] else [], digits, None, []);
    assert digits + [] == digits;
    assert WriteNumeral(n) == n.sign + digits;
    ReadAsQuotient(n, Magnitude(digits));
  }
}
