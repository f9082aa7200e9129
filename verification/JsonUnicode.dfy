/** What \uXXXX escapes push, judged by a UTF-8 decoder written from RFC 3629. */
module JsonUnicode {
  import opened Wrappers
  import opened Bytes
  import opened JsonStrings
  import opened JsonGrammar
  import opened JsonAcceptance

  predicate IsTail(b: int) { 0x80 <= b <= 0xBF }

  /** The length of the well-formed sequence `s` starts with (section 4 of RFC 3629), or 0. */
  function SequenceLength(s: bytes): (n: nat)
    ensures n <= |s|
  {
    if |s| >= 1 && s[0] <= 0x7F then 1
    else if |s| >= 2 && 0xC2 <= s[0] <= 0xDF && IsTail(s[1]) then 2
    else if |s| >= 3 && IsTail(s[2]) &&
            ((s[0] == 0xE0 && 0xA0 <= s[1] <= 0xBF) || (0xE1 <= s[0] <= 0xEC && IsTail(s[1])) ||
             (s[0] == 0xED && 0x80 <= s[1] <= 0x9F) || (0xEE <= s[0] <= 0xEF && IsTail(s[1]))) then 3
    else if |s| >= 4 && IsTail(s[2]) && IsTail(s[3]) &&
            ((s[0] == 0xF0 && 0x90 <= s[1] <= 0xBF) || (0xF1 <= s[0] <= 0xF3 && IsTail(s[1])) ||
             (s[0] == 0xF4 && 0x80 <= s[1] <= 0x8F)) then 4
    else 0
  }

  /** The character number in a sequence of `n` octets (section 3 of RFC 3629). */
  function CharacterNumber(s: bytes, n: nat): int
    requires 1 <= n <= 4 && n <= |s|
  {
    if n == 1 then s[0] as int
    else if n == 2 then (s[0] as int - 0xC0) * 0x40 + (s[1] as int - 0x80)
    else if n == 3 then (s[0] as int - 0xE0) * 0x1000 + (s[1] as int - 0x80) * 0x40 + (s[2] as int - 0x80)
    else
      (s[0] as int - 0xF0) * 0x40000 + (s[1] as int - 0x80) * 0x1000 + (s[2] as int - 0x80) * 0x40 +
      (s[3] as int - 0x80)
  }

  /** The characters a well-formed UTF-8 string encodes. */
  function Utf8Decode(s: bytes): Option<seq<int>> {
    if s == [] then Some([])
    else
      var n := SequenceLength(s);
      if n == 0 then None
      else
        match Utf8Decode(s[n..])
        case None => None
        case Some(more) => Some([CharacterNumber(s, n)] + more)
  }

  predicate IsScalar(c: int) {
    0 <= c < 0x110000 && !IsHigh(c) && !IsLow(c)
  }

  lemma Base64Digits(c: nat)
    ensures c == c / 0x1000 * 0x1000 + c / 0x40 % 0x40 * 0x40 + c % 0x40
    ensures c / 0x1000 == c / 0x40000 * 0x40 + c / 0x1000 % 0x40
  {
  }

  lemma ThreeOctets(s: bytes, z: nat, y: nat, x: nat)
    requires 3 <= |s| && z < 0x10 && y < 0x40 && x < 0x40
    requires s[0] == 0xE0 + z && s[1] == 0x80 + y && s[2] == 0x80 + x
    requires z == 0 ==> 0x20 <= y
    requires z == 0xD ==> y < 0x20
    ensures SequenceLength(s) == 3 && CharacterNumber(s, 3) == z * 0x1000 + y * 0x40 + x
  {
  }

  lemma FourOctets(s: bytes, w: nat, z: nat, y: nat, x: nat)
    requires 4 <= |s| && w <= 4 && z < 0x40 && y < 0x40 && x < 0x40
    requires s[0] == 0xF0 + w && s[1] == 0x80 + z && s[2] == 0x80 + y && s[3] == 0x80 + x
    requires w == 0 ==> 0x10 <= z
    requires w == 4 ==> z < 0x10
    ensures SequenceLength(s) == 4 && CharacterNumber(s, 4) == w * 0x40000 + z * 0x1000 + y * 0x40 + x
  {
  }

  /** The bytes pushed for a scalar value are its UTF-8 sequence. */
  lemma PushedBytesAreUtf8(c: nat, rest: bytes)
    requires IsScalar(c)
    ensures SequenceLength(PushedBytes(c) + rest) == |PushedBytes(c)|
    ensures 1 <= |PushedBytes(c)| <= 4
    ensures CharacterNumber(PushedBytes(c) + rest, |PushedBytes(c)|) == c
  {
    var s := PushedBytes(c) + rest;
    Base64Digits(c);
    if 0x800 <= c {
      hide SequenceLength, CharacterNumber;
      var w, z, y, x := c / 0x40000, c / 0x1000, c / 0x40 % 0x40, c % 0x40;
      if c < 0x10000 {
        ThreeOctets(s, z, y, x);
      } else {
        FourOctets(s, w, z % 0x40, y, x);
      }
    }
  }

  predicate AllEscapes(units: seq<Unit>) {
    UnitsOk(units) && forall i :: 0 <= i < |units| ==> units[i].Escape? || units[i].SurrogatePair?
  }

  function Scalars(units: seq<Unit>): seq<int>
    requires AllEscapes(units)
  {
    if units == [] then [] else [Scalar(units[0])] + Scalars(units[1..])
  }

  lemma {:induction false} EscapesDenoteUtf8(units: seq<Unit>)
    requires AllEscapes(units)
    ensures Utf8Decode(DenoteUnits(units)) == Some(Scalars(units))
  {
    hide SequenceLength, CharacterNumber, PushedBytes;
    if units != [] {
      var c := Scalar(units[0]);
      var more := DenoteUnits(units[1..]);
      PushedBytesAreUtf8(c, more);
      EscapesDenoteUtf8(units[1..]);
      assert DenoteUnits(units)[|PushedBytes(c)|..] == more;
    }
  }

  /** A string of escapes is accepted, and what is read is the UTF-8 of the characters escaped. */
  lemma EscapesDecode(units: seq<Unit>, rest: bytes)
    requires AllEscapes(units)
    ensures StringBody(WriteUnits(units) + [QUOTE] + rest, []).Done?
    ensures StringBody(WriteUnits(units) + [QUOTE] + rest, []).tape.rest == rest
    ensures Utf8Decode(StringBody(WriteUnits(units) + [QUOTE] + rest, []).out) == Some(Scalars(units))
  {
    hide StringBody, DenoteUnits, Utf8Decode, WriteUnits;
    ReadsUnits(units, rest, []);
    assert [] + DenoteUnits(units) == DenoteUnits(units);
    EscapesDenoteUtf8(units);
  }

  function UpperHex(n: nat): (b: byte)
    requires n < 16
    ensures IsHex(b) && HexValue(b) == n
  {
    if n < 10 then 0x30 + n else 0x37 + n
  }

  function QuadOf(n: nat): (q: bytes)
    requires n < 0x10000
    ensures IsQuad(q) && QuadValue(q) == n
  {
    HexDigits(n);
    [UpperHex(n / 0x1000), UpperHex(n / 0x100 % 16), UpperHex(n / 0x10 % 16), UpperHex(n % 16)]
  }

  lemma HexDigits(n: nat)
    ensures n == n / 0x1000 * 0x1000 + n / 0x100 % 16 * 0x100 + n / 0x10 % 16 * 0x10 + n % 16
  {
    assert n / 0x100 == n / 0x10 / 16;
    assert n / 0x1000 == n / 0x100 / 16;
  }

  /** Section 7 of RFC 8259: above U+FFFF a character takes a surrogate pair. */
  function EscapeOf(c: nat): (unit: Unit)
    requires IsScalar(c)
    ensures UnitOk(unit) && (unit.Escape? || unit.SurrogatePair?) && Scalar(unit) == c
  {
    hide QuadOf, QuadValue, IsQuad;
    if c < 0x10000 then Escape(QuadOf(c))
    else SurrogatePair(QuadOf(0xD800 + (c - 0x10000) / 0x400), QuadOf(0xDC00 + (c - 0x10000) % 0x400))
  }

  /** Every sequence of scalar values has an escaped spelling, so all of UTF-8 can be pushed. */
  lemma {:induction false} EveryTextHasEscapes(chars: seq<int>) returns (units: seq<Unit>)
    requires forall i :: 0 <= i < |chars| ==> IsScalar(chars[i])
    ensures AllEscapes(units) && Scalars(units) == chars
  {
    hide QuadOf, EscapeOf;
    units := [];
    if chars != [] {
      var more := EveryTextHasEscapes(chars[1..]);
      units := [EscapeOf(chars[0])] + more;
      assert units[1..] == more;
    }
  }

  predicate StartsWithLowEscape(u: bytes) {
    |u| >= 6 && u[0] == BACKSLASH && u[1] == LETTER_U && IsQuad(u[2..6]) && IsLow(QuadValue(u[2..6]))
  }

  /** An escape is rejected exactly if it is a lone or reversed surrogate. */
  lemma SurrogatesMustPair(quad: bytes, u: bytes)
    requires IsQuad(quad)
    ensures CodePoint(quad + u).Done? <==>
            !IsLow(QuadValue(quad)) && (IsHigh(QuadValue(quad)) ==> StartsWithLowEscape(u))
  {
    hide Quad, PushedBytes, QuadValue;
    ReadsQuad(quad, u);
    if IsHigh(QuadValue(quad)) {
      if StartsWithLowEscape(u) {
        assert u[2..] == u[2..6] + u[6..];
        ReadsQuad(u[2..6], u[6..]);
      }
      if CodePoint(quad + u).Done? {
        var low := SplitQuad(u[2..]);
        assert u[2..6] == low;
      }
    }
  }

  /** A string body that starts with such an escape is rejected. */
  lemma LoneSurrogateRejected(quad: bytes, u: bytes, sofar: bytes)
    requires IsQuad(quad)
    requires IsLow(QuadValue(quad)) || (IsHigh(QuadValue(quad)) && !StartsWithLowEscape(u))
    ensures StringBody([BACKSLASH, LETTER_U] + quad + u, sofar).Stop?
  {
    hide CodePoint;
    SurrogatesMustPair(quad, u);
    assert ([BACKSLASH, LETTER_U] + quad + u)[2..] == quad + u;
  }
}
