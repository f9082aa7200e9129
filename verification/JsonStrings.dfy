/**
 * String bodies: the escapes of section 7 of RFC 8259, and \uXXXX decoding into UTF-8.
 *
 * Each specification function maps the unread bytes to what was produced and the tape left; each
 * method is the source's loop over the stream.
 */
module JsonStrings {
  import opened Bytes
  import opened JsonInput

  /** A parse either stops with an error or yields a result; both leave a tape. */
  datatype Outcome<+T> = Done(out: T, tape: Tape) | Stop(tape: Tape)

  const QUOTE: byte := 0x22
  const BACKSLASH: byte := 0x5C
  const LETTER_U: byte := 0x75
  const FIRST_HIGH := 0xD800
  const FIRST_LOW := 0xDC00
  const LAST_LOW := 0xDFFF

  predicate IsHex(b: int) {
    IsDigit(b) || 0x41 <= b <= 0x46 || 0x61 <= b <= 0x66
  }

  function HexValue(b: int): (v: int)
    requires IsHex(b)
    ensures 0 <= v < 16
  {
    if IsDigit(b) then b - 0x30 else if b <= 0x46 then b - 0x37 else b - 0x57
  }

  const LOWER_HEX: string := "0123456789abcdef"
  const UPPER_HEX: string := "0123456789ABCDEF"

  /** Hex digits are these characters in either case, and each is worth its place. */
  lemma HexDigitsAreThese(b: byte)
    ensures IsHex(b) <==> exists i :: 0 <= i < 16 && (b == LOWER_HEX[i] as int || b == UPPER_HEX[i] as int)
    ensures forall i :: 0 <= i < 16 && (b == LOWER_HEX[i] as int || b == UPPER_HEX[i] as int) ==> HexValue(b) == i
  {
    if IsHex(b) {
      var i := HexValue(b);
      assert b == LOWER_HEX[i] as int || b == UPPER_HEX[i] as int;
    }
  }

  /** Reads `n` hex digits onto the number read so far. */
  function QuadHex(u: bytes, n: nat, sofar: nat): (r: Outcome<nat>)
    ensures |r.tape.rest| <= |u|
    decreases |u|
  {
    if n == 0 then Done(sofar, Tape(u, Taken))
    else if u == [] || !IsHex(u[0]) then Stop(Peeked(u))
    else QuadHex(u[1..], n - 1, 16 * sofar + HexValue(u[0]))
  }

  /** The bytes pushed for code point `c`. */
  function PushedBytes(c: nat): bytes
    requires c < 0x110000
  {
    if c < 0x80 then [c]
    else if c < 0x800 then [0xC0 + c / 0x40, 0x80 + c % 0x40]
    else if c < 0x10000 then [0xE0 + c / 0x1000, 0x80 + c / 0x40 % 0x40, 0x80 + c % 0x40]
    else [0xF0 + c / 0x40000, 0x80 + c / 0x1000 % 0x40, 0x80 + c / 0x40 % 0x40, 0x80 + c % 0x40]
  }

  lemma {:induction false} QuadHexBound(u: bytes, n: nat, sofar: nat)
    requires n <= 4
    requires QuadHex(u, n, sofar).Done?
    ensures n == 0 ==> QuadHex(u, n, sofar).out == sofar
    ensures n == 1 ==> QuadHex(u, n, sofar).out < 0x10 * (sofar + 1)
    ensures n == 2 ==> QuadHex(u, n, sofar).out < 0x100 * (sofar + 1)
    ensures n == 3 ==> QuadHex(u, n, sofar).out < 0x1000 * (sofar + 1)
    ensures n == 4 ==> QuadHex(u, n, sofar).out < 0x10000 * (sofar + 1)
  {
    if n > 0 {
      QuadHexBound(u[1..], n - 1, 16 * sofar + HexValue(u[0]));
    }
  }

  /** Four hex digits, for a caller that knows they make a 16-bit number. */
  function Quad(u: bytes): (r: Outcome<nat>)
    ensures |r.tape.rest| <= |u|
    ensures r.Done? ==> r.out < 0x10000
  {
    if QuadHex(u, 4, 0).Done? then QuadHexBound(u, 4, 0); QuadHex(u, 4, 0) else QuadHex(u, 4, 0)
  }

  lemma {:induction false} QuadHexStops(u: bytes, n: nat, sofar: nat, k: nat)
    requires k < n && k <= |u| && forall i :: 0 <= i < k ==> IsHex(u[i])
    requires k < |u| ==> !IsHex(u[k])
    ensures QuadHex(u, n, sofar) == Stop(if k < |u| then Tape(u[k..], PushedBack) else Tape([], Nothing))
    decreases k
  {
    if k > 0 {
      assert forall i :: 0 < i < |u| ==> u[i] == u[1..][i - 1];
      QuadHexStops(u[1..], n - 1, 16 * sofar + HexValue(u[0]), k - 1);
    }
  }

  /** With fewer than four hex digits it stops at the first byte that is none, pushed back, or at the end. */
  lemma QuadStops(u: bytes, k: nat)
    requires k < 4 && k <= |u| && forall i :: 0 <= i < k ==> IsHex(u[i])
    requires k < |u| ==> !IsHex(u[k])
    ensures Quad(u) == Stop(if k < |u| then Tape(u[k..], PushedBack) else Tape([], Nothing))
  {
    QuadHexStops(u, 4, 0, k);
  }

  predicate IsHigh(c: int) { FIRST_HIGH <= c < FIRST_LOW }

  predicate IsLow(c: int) { FIRST_LOW <= c <= LAST_LOW }

  function Combine(high: nat, low: nat): (c: nat)
    requires IsHigh(high) && IsLow(low)
    ensures 0x10000 <= c < 0x110000
  {
    0x10000 + 0x400 * (high - FIRST_HIGH) + (low - FIRST_LOW)
  }

  /** What follows `\u`: one quad, or a surrogate pair. */
  function CodePoint(u: bytes): (r: Outcome<bytes>)
    ensures |r.tape.rest| <= |u|
  {
    var first := Quad(u);
    if first.Stop? || IsLow(first.out) then Stop(first.tape)
    else if !IsHigh(first.out) then Done(PushedBytes(first.out), first.tape)
    else
      var t := first.tape.rest;
      if t == [] || t[0] != BACKSLASH then Stop(Peeked(t))
      else if t[1..] == [] || t[1] != LETTER_U then Stop(Peeked(t[1..]))
      else
        var second := Quad(t[2..]);
        if second.Stop? || !IsLow(second.out) then Stop(second.tape)
        else Done(PushedBytes(Combine(first.out, second.out)), second.tape)
  }

  predicate IsShortEscape(b: int) {
    b in {QUOTE, BACKSLASH, 0x2F, 0x62, 0x66, 0x6E, 0x72, 0x74}
  }

  function ShortEscape(b: int): byte
    requires IsShortEscape(b)
  {
    match b
    case 0x62 => 0x08
    case 0x66 => 0x0C
    case 0x6E => 0x0A
    case 0x72 => 0x0D
    case 0x74 => 0x09
    case _ => b
  }

  /** The eight short escapes of section 7 of RFC 8259, and no others. */
  lemma ShortEscapesAreThese(b: byte)
    ensures IsShortEscape(b) <==> exists i :: 0 <= i < 8 && b == "\"\\/bfnrt"[i] as int
    ensures b == '"' as int || b == '\\' as int || b == '/' as int ==> ShortEscape(b) == b
    ensures b == 'b' as int ==> ShortEscape(b) == 0x08
    ensures b == 'f' as int ==> ShortEscape(b) == 0x0C
    ensures b == 'n' as int ==> ShortEscape(b) == 0x0A
    ensures b == 'r' as int ==> ShortEscape(b) == 0x0D
    ensures b == 't' as int ==> ShortEscape(b) == 0x09
  {
    var all := "\"\\/bfnrt";
    assert all[0] == '"' && all[1] == '\\' && all[2] == '/' && all[3] == 'b';
    assert all[4] == 'f' && all[5] == 'n' && all[6] == 'r' && all[7] == 't';
  }

  /** Reads a string body up to and including its closing quote, after having read `sofar`. */
  function StringBody(u: bytes, sofar: bytes): (r: Outcome<bytes>)
    ensures |r.tape.rest| <= |u|
    ensures r.Done? ==> |r.tape.rest| < |u|
    decreases |u|
  {
    if u == [] || u[0] < 0x20 then Stop(Peeked(u))
    else if u[0] == QUOTE then Done(sofar, Tape(u[1..], Taken))
    else if u[0] != BACKSLASH then StringBody(u[1..], sofar + [u[0]])
    else if u[1..] == [] then Stop(Tape([], Nothing))
    else if IsShortEscape(u[1]) then StringBody(u[2..], sofar + [ShortEscape(u[1])])
    else if u[1] != LETTER_U then Stop(Tape(u[2..], Taken))
    else
      var point := CodePoint(u[2..]);
      if point.Stop? then Stop(point.tape) else StringBody(point.tape.rest, sofar + point.out)
  }

  /** Where a body stops that is neither closed nor an escape. */
  lemma BodyStops(u: bytes, sofar: bytes)
    ensures u == [] ==> StringBody(u, sofar) == Stop(Tape([], Nothing))
    ensures u != [] && u[0] < 0x20 ==> StringBody(u, sofar) == Stop(Tape(u, PushedBack))
    ensures |u| == 1 && u[0] == '\\' as int ==> StringBody(u, sofar) == Stop(Tape([], Nothing))
    ensures |u| >= 2 && u[0] == '\\' as int && u[1] != 'u' as int && !IsShortEscape(u[1]) ==>
              StringBody(u, sofar) == Stop(Tape(u[2..], Taken))
    ensures |u| >= 2 && u[0] == '\\' as int && u[1] == 'u' as int && CodePoint(u[2..]).Stop? ==>
              StringBody(u, sofar) == Stop(CodePoint(u[2..]).tape)
  {
    hide CodePoint;
  }

  method ParseQuadHex(inp: Input) returns (ok: bool, uniCh: int)
    requires inp.Valid()
    modifies inp
    ensures inp.Valid()
    ensures ok == Quad(old(inp.Unread())).Done? && inp.ToTape() == Quad(old(inp.Unread())).tape
    ensures ok ==> uniCh == Quad(old(inp.Unread())).out
    ensures !ok ==> uniCh == -1
  {
    hide Input.Valid, Input.Unread;
    uniCh := 0;
    ghost var whole := Quad(inp.Unread());
    for i := 0 to 4
      invariant inp.Valid() && 0 <= uniCh
      invariant 0 < i ==> inp.Mode() == Taken
      invariant QuadHex(inp.Unread(), 4 - i, uniCh) == whole
    {
      ghost var u := inp.Unread();
      var hex := inp.GetC();
      if hex == -1 {
        return false, -1;
      }
      if !IsHex(hex) {
        inp.UngetC();
        assert [u[0]] + u[1..] == u;
        return false, -1;
      }
      uniCh := uniCh * 16 + HexValue(hex);
    }
    ok := true;
  }

  /** `out` is what the source pushes onto its output string. */
  method ParseCodePoint(inp: Input) returns (ok: bool, out: bytes)
    requires inp.Valid()
    modifies inp
    ensures inp.Valid()
    ensures ok == CodePoint(old(inp.Unread())).Done? && inp.ToTape() == CodePoint(old(inp.Unread())).tape
    ensures ok ==> out == CodePoint(old(inp.Unread())).out
  {
    hide Input.Valid, Input.Unread;
    out := [];
    var uniCh: int;
    ok, uniCh := ParseQuadHex(inp);
    if !ok {
      return;
    }
    if FIRST_HIGH <= uniCh <= LAST_LOW {
      if FIRST_LOW <= uniCh {
        return false, out;
      }
      ghost var t := inp.Unread();
      var ch := inp.GetC();
      var paired := ch == BACKSLASH;
      if paired {
        ch := inp.GetC();
        paired := ch == LETTER_U;
      }
      if !paired {
        inp.UngetC();
        assert t != [] ==> t == [t[0]] + t[1..];
        assert |t| > 1 ==> t[1..] == [t[1]] + t[2..];
        return false, out;
      }
      var second: int;
      ok, second := ParseQuadHex(inp);
      if !(FIRST_LOW <= second <= LAST_LOW) {
        return false, out;
      }
      uniCh := Combine(uniCh, second);
    }
    return true, PushedBytes(uniCh);
  }

  /** The loop of the default context: the bytes read go to `out`. */
  method ParseString(inp: Input) returns (ok: bool, out: bytes)
    requires inp.Valid()
    modifies inp
    ensures inp.Valid()
    ensures ok == StringBody(old(inp.Unread()), []).Done?
    ensures inp.ToTape() == StringBody(old(inp.Unread()), []).tape
    ensures ok ==> out == StringBody(old(inp.Unread()), []).out
  {
    hide Input.Valid, Input.Unread, CodePoint;
    out := [];
    while true
      invariant inp.Valid()
      invariant StringBody(inp.Unread(), out) == StringBody(old(inp.Unread()), [])
      decreases |inp.Unread()|
    {
      ghost var u := inp.Unread();
      var ch := inp.GetC();
      if ch < 0x20 {
        inp.UngetC();
        assert u != [] ==> u == [u[0]] + u[1..];
        return false, out;
      } else if ch == QUOTE {
        return true, out;
      } else if ch == BACKSLASH {
        ch := inp.GetC();
        if ch == -1 {
          return false, out;
        }
        assert u[1..][1..] == u[2..];
        if IsShortEscape(ch) {
          out := out + [ShortEscape(ch)];
        } else if ch == LETTER_U {
          var pushed: bytes;
          ok, pushed := ParseCodePoint(inp);
          if !ok {
            return;
          }
          out := out + pushed;
        } else {
          return false, out;
        }
      } else {
        out := out + [ch];
      }
    }
  }

  /** The same body read by the null context, which keeps nothing. */
  function SkipBody(u: bytes): (r: Outcome<()>)
    ensures |r.tape.rest| <= |u|
    decreases |u|
  {
    if u == [] || u[0] < 0x20 then Stop(Peeked(u))
    else if u[0] == QUOTE then Done((), Tape(u[1..], Taken))
    else if u[0] != BACKSLASH then SkipBody(u[1..])
    else if u[1..] == [] then Stop(Tape([], Nothing))
    else if IsShortEscape(u[1]) then SkipBody(u[2..])
    else if u[1] != LETTER_U then Stop(Tape(u[2..], Taken))
    else
      var point := CodePoint(u[2..]);
      if point.Stop? then Stop(point.tape) else SkipBody(point.tape.rest)
  }

  method SkipString(inp: Input) returns (ok: bool)
    requires inp.Valid()
    modifies inp
    ensures inp.Valid()
    ensures ok == SkipBody(old(inp.Unread())).Done?
    ensures inp.ToTape() == SkipBody(old(inp.Unread())).tape
  {
    hide Input.Valid, Input.Unread, CodePoint;
    while true
      invariant inp.Valid()
      invariant SkipBody(inp.Unread()) == SkipBody(old(inp.Unread()))
      decreases |inp.Unread()|
    {
      ghost var u := inp.Unread();
      var ch := inp.GetC();
      if ch < 0x20 {
        inp.UngetC();
        assert u != [] ==> u == [u[0]] + u[1..];
        return false;
      } else if ch == QUOTE {
        return true;
      } else if ch == BACKSLASH {
        ch := inp.GetC();
        if ch == -1 {
          return false;
        }
        assert u[1..][1..] == u[2..];
        if ch == LETTER_U {
          var pushed: bytes;
          ok, pushed := ParseCodePoint(inp);
          if !ok {
            return;
          }
        } else if !IsShortEscape(ch) {
          return false;
        }
      }
    }
  }
}
