/**
 * The shifts, masks and ors with which the source cuts a code point into bytes and joins a
 * surrogate pair, bit by bit on nonnegative integers.
 */
module JsonBits {
  import opened JsonStrings

  function Power2(n: nat): (p: nat)
    ensures p > 0
  {
    if n == 0 then 1 else 2 * Power2(n - 1)
  }

  /** a | b */
  function Or(a: nat, b: nat): nat {
    if a == 0 && b == 0 then 0 else 2 * Or(a / 2, b / 2) + if a % 2 == 1 || b % 2 == 1 then 1 else 0
  }

  /** a & b */
  function And(a: nat, b: nat): nat {
    if a == 0 || b == 0 then 0 else 2 * And(a / 2, b / 2) + if a % 2 == 1 && b % 2 == 1 then 1 else 0
  }

  /** a << n */
  function Left(a: nat, n: nat): nat {
    a * Power2(n)
  }

  /** a >> n */
  function Right(a: nat, n: nat): nat {
    if n == 0 then a else Right(a / 2, n - 1)
  }

  lemma {:induction false} OrWithZero(b: nat)
    ensures Or(0, b) == b
  {
    if b != 0 {
      OrWithZero(b / 2);
    }
  }

  /** Fields that share no bit are added. */
  lemma {:induction false} OrOfFields(a: nat, n: nat, b: nat)
    requires b < Power2(n)
    ensures Or(Left(a, n), b) == Left(a, n) + b
  {
    if n == 0 {
      assert b == 0;
      OrIsSymmetric(a, 0);
      OrWithZero(a);
    } else {
      assert Left(a, n) == 2 * Left(a, n - 1) by {
        assert a * (2 * Power2(n - 1)) == 2 * (a * Power2(n - 1));
      }
      OrOfFields(a, n - 1, b / 2);
      if Left(a, n) == 0 && b == 0 {
        assert Or(0, 0) == 0;
      }
    }
  }

  lemma {:induction false} OrIsSymmetric(a: nat, b: nat)
    ensures Or(a, b) == Or(b, a)
  {
    if a != 0 || b != 0 {
      OrIsSymmetric(a / 2, b / 2);
    }
  }

  lemma AndOfOdd(a: nat, m: nat)
    ensures And(a, 2 * m + 1) == 2 * And(a / 2, m) + a % 2
  {
    assert (2 * m + 1) / 2 == m && (2 * m + 1) % 2 == 1;
  }

  /** A mask of low ones keeps the remainder. */
  lemma {:induction false} AndWithOnes(a: nat, n: nat)
    ensures And(a, Power2(n) - 1) == a % Power2(n)
  {
    hide And;
    if n == 0 {
      AndWithZero(a);
    } else {
      var p := Power2(n - 1);
      AndWithOnes(a / 2, n - 1);
      AndOfOdd(a, p - 1);
      assert Power2(n) - 1 == 2 * (p - 1) + 1;
      RemainderOfDouble(a, p);
    }
  }

  lemma AndWithZero(a: nat)
    ensures And(a, 0) == 0
  {
  }

  lemma RemainderOfDouble(a: nat, p: nat)
    requires p > 0
    ensures a % (2 * p) == 2 * (a / 2 % p) + a % 2 && a / (2 * p) == a / 2 / p
  {
    var q, r := a / 2 / p, a / 2 % p;
    assert a / 2 == q * p + r;
    assert a == 2 * (a / 2) + a % 2;
    assert a == q * (2 * p) + (2 * r + a % 2);
    RemainderIs(a, 2 * p, q, 2 * r + a % 2);
  }

  lemma RemainderIs(a: nat, d: nat, q: nat, r: nat)
    requires r < d && a == q * d + r
    ensures a % d == r && a / d == q
  {
    var s, t := a / d, a % d;
    assert (q - s) * d == t - r;
    assert q - s >= 1 ==> (q - s) * d >= d;
    assert s - q >= 1 ==> (s - q) * d >= d;
  }

  /** The bytes as the source computes them. */
  function SourceBytes(c: nat): seq<nat> {
    var last := Or(0x80, And(c, 0x3F));
    if c < 0x80 then [c]
    else if c < 0x800 then [Or(0xC0, Right(c, 6)), last]
    else
      var middle := Or(0x80, And(Right(c, 6), 0x3F));
      if c < 0x10000 then [Or(0xE0, Right(c, 12)), middle, last]
      else [Or(0xF0, Right(c, 18)), Or(0x80, And(Right(c, 12), 0x3F)), middle, last]
  }

  lemma Powers()
    ensures Power2(4) == 0x10 && Power2(5) == 0x20 && Power2(6) == 0x40 && Power2(10) == 0x400
    ensures Power2(12) == 0x1000 && Power2(18) == 0x40000
  {
    assert Power2(4) == 0x10;
    assert Power2(8) == 0x100;
    assert Power2(12) == 0x1000;
    assert Power2(16) == 0x10000;
  }

  lemma {:induction false} RightIsQuotient(a: nat, n: nat)
    ensures Right(a, n) == a / Power2(n)
  {
    if n > 0 {
      RightIsQuotient(a / 2, n - 1);
      RemainderOfDouble(a, Power2(n - 1));
    }
  }

  lemma Shifts(c: nat)
    ensures Right(c, 6) == c / 0x40 && Right(c, 12) == c / 0x1000 && Right(c, 18) == c / 0x40000
  {
    hide Right, Power2;
    Powers();
    RightIsQuotient(c, 6);
    RightIsQuotient(c, 12);
    RightIsQuotient(c, 18);
  }

  lemma Continuation(c: nat)
    ensures Or(0x80, And(c, 0x3F)) == 0x80 + c % 0x40
  {
    hide Or, And, Power2;
    Powers();
    AndWithOnes(c, 6);
    OrOfFields(2, 6, c % 0x40);
  }

  /** PushedBytes is what the source's bit operations yield. */
  lemma BitsOfCodePoint(c: nat)
    requires c < 0x110000
    ensures SourceBytes(c) == PushedBytes(c)
  {
    hide Or, And, Power2, Right;
    Powers();
    Shifts(c);
    Continuation(c);
    Continuation(c / 0x40);
    Continuation(c / 0x1000);
    if 0x80 <= c < 0x800 {
      OrOfFields(3, 6, c / 0x40);
    } else if 0x800 <= c < 0x10000 {
      OrOfFields(7, 5, c / 0x1000);
    } else if 0x10000 <= c {
      OrOfFields(15, 4, c / 0x40000);
    }
  }

  /** And Combine is what they make of a surrogate pair. */
  lemma BitsOfPair(high: nat, low: nat)
    requires IsHigh(high) && IsLow(low)
    ensures Or(Left(high - FIRST_HIGH, 10), And(low - FIRST_LOW, 0x3FF)) + 0x10000 == Combine(high, low)
  {
    hide Or, And, Power2;
    Powers();
    AndWithOnes(low - FIRST_LOW, 10);
    OrOfFields(high - FIRST_HIGH, 10, low - FIRST_LOW);
  }
}
