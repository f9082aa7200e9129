/** Bytes, and the decimal notation shared by the JSON printer and the parameter names of SQL statements. */
module Bytes {
  type byte = b: int | 0 <= b < 256
  type bytes = seq<byte>

  const ZERO: byte := 0x30
  const MINUS: byte := 0x2D
  const NEWLINE: byte := 0x0A

  predicate IsDigit(b: int) {
    ZERO <= b <= 0x39
  }

  predicate AllDigits(s: bytes) {
    forall i :: 0 <= i < |s| ==> IsDigit(s[i])
  }

  /** How many newline bytes `s` holds. */
  function Newlines(s: bytes): nat {
    if s == [] then 0
    else Newlines(s[..|s| - 1]) + if s[|s| - 1] == NEWLINE then 1 else 0
  }

  /** The number written by a run of decimal digits, most significant first. */
  function Magnitude(s: bytes): nat
    requires AllDigits(s)
  {
    if s == [] then 0 else 10 * Magnitude(s[..|s| - 1]) + (s[|s| - 1] - ZERO)
  }

  /** The shortest decimal notation of `n`. */
  function Decimal(n: nat): (s: bytes)
    ensures s != [] && AllDigits(s)
    ensures n > 0 ==> s[0] != ZERO
    ensures n == 0 ==> s == [ZERO]
  {
    if n < 10 then [ZERO + n] else Decimal(n / 10) + [ZERO + n % 10]
  }

  lemma {:induction false} MagnitudeOfDecimal(n: nat)
    ensures Magnitude(Decimal(n)) == n
  {
    if n < 10 {
      assert Decimal(n)[..0] == [];
    } else {
      var front := Decimal(n / 10);
      assert Decimal(n)[..|Decimal(n)| - 1] == front;
      MagnitudeOfDecimal(n / 10);
    }
  }

  /** What the characters of decimal notation are. */
  lemma DigitsAreZeroToNine(b: byte)
    ensures IsDigit(b) <==> b in {0x30, 0x31, 0x32, 0x33, 0x34, 0x35, 0x36, 0x37, 0x38, 0x39}
  {
  }

  /** Each further digit multiplies by ten and adds its value. */
  lemma MagnitudeOfMore(s: bytes, d: byte)
    requires AllDigits(s) && 0x30 <= d <= 0x39
    ensures Magnitude([]) == 0
    ensures AllDigits(s + [d]) && Magnitude(s + [d]) == 10 * Magnitude(s) + (d - 0x30)
  {
    assert (s + [d])[..|s|] == s;
  }

  /** Newlines counts the places of byte 0x0A. */
  lemma {:induction false} NewlinesAreCounted(s: bytes)
    ensures Newlines(s) == |set i | 0 <= i < |s| && s[i] == 0x0A|
  {
    var places := set i | 0 <= i < |s| && s[i] == 0x0A;
    if s != [] {
      var n := |s| - 1;
      var front := s[..n];
      NewlinesAreCounted(front);
      var earlier := set i | 0 <= i < |front| && front[i] == 0x0A;
      assert places == if s[n] == 0x0A then earlier + {n} else earlier;
    } else {
      assert places == {};
    }
  }
}
