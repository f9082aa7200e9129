/**
 * picojson's input stream: a byte iterator with one byte of pushback and a line counter.
 *
 * The stream operations are specified on tapes. A tape is what a caller can still read, together
 * with what the latest read left behind; with the data it was made from it fixes every field.
 */
module JsonInput {
  import opened Bytes

  /** What the latest getc left: a byte taken, a byte pushed back, or nothing at the end of input. */
  datatype Mode = Taken | PushedBack | Nothing

  datatype Tape = Tape(rest: bytes, mode: Mode)

  predicate IsSpace(b: int) {
    b == 0x20 || b == 0x09 || b == 0x0A || b == 0x0D
  }

  /** What a getc followed by an ungetc leaves of `u`. */
  function Peeked(u: bytes): Tape {
    if u == [] then Tape(u, Nothing) else Tape(u, PushedBack)
  }

  function SkipSpace(u: bytes): (t: bytes)
    ensures |t| <= |u|
    ensures t != [] ==> !IsSpace(t[0])
  {
    if u != [] && IsSpace(u[0]) then SkipSpace(u[1..]) else u
  }

  /** Exactly the leading spaces, tabs, newlines and carriage returns are skipped. */
  lemma {:induction false} SkipsLeadingSpaces(u: bytes)
    ensures |SkipSpace(u)| <= |u| && SkipSpace(u) == u[|u| - |SkipSpace(u)|..]
    ensures forall i :: 0 <= i < |u| - |SkipSpace(u)| ==> u[i] in {0x20, 0x09, 0x0A, 0x0D}
    ensures SkipSpace(u) != [] ==> SkipSpace(u)[0] !in {0x20, 0x09, 0x0A, 0x0D}
  {
    if u != [] && IsSpace(u[0]) {
      SkipsLeadingSpaces(u[1..]);
      assert forall i :: 0 < i < |u| ==> u[i] == u[1..][i - 1];
    }
  }

  /** Whether `c` comes next once spaces are skipped, and the tape after looking. */
  function Expect(c: byte, u: bytes): (r: (bool, Tape))
    ensures |r.1.rest| <= |u|
    ensures r.0 ==> |r.1.rest| < |u|
  {
    var t := SkipSpace(u);
    if t != [] && t[0] == c then (true, Tape(t[1..], Taken)) else (false, Peeked(t))
  }

  /** Whether `u` starts with `pattern`, and the tape after comparing as far as they agree. */
  function Match(pattern: bytes, u: bytes): (r: (bool, Tape))
    ensures |r.1.rest| <= |u|
  {
    if pattern == [] then (true, Tape(u, Taken))
    else if u != [] && u[0] == pattern[0] then Match(pattern[1..], u[1..])
    else (false, Peeked(u))
  }

  lemma {:induction false} MatchIsPrefix(pattern: bytes, u: bytes)
    ensures Match(pattern, u).0 <==> pattern <= u
    ensures pattern <= u ==> Match(pattern, u).1 == Tape(u[|pattern|..], Taken)
  {
    if pattern != [] && u != [] && u[0] == pattern[0] {
      MatchIsPrefix(pattern[1..], u[1..]);
      assert pattern == [pattern[0]] + pattern[1..] && u == [u[0]] + u[1..];
    }
  }

  /** Otherwise it stops at the first byte that differs, pushed back, or at the end. */
  lemma {:induction false} MatchStops(pattern: bytes, u: bytes, k: nat)
    requires k < |pattern| && k <= |u| && pattern[..k] == u[..k] && (k < |u| ==> pattern[k] != u[k])
    ensures Match(pattern, u) == (false, if k < |u| then Tape(u[k..], PushedBack) else Tape([], Nothing))
    decreases k
  {
    if k > 0 {
      assert pattern[0] == pattern[..k][0] == u[..k][0] == u[0];
      assert pattern[1..][..k - 1] == pattern[..k][1..] && u[1..][..k - 1] == u[..k][1..];
      MatchStops(pattern[1..], u[1..], k - 1);
    }
  }

  class Input {
    const data: bytes
    var cur: nat
    var last: int
    var ungot: bool
    var line: int

    ghost predicate Valid()
      reads this
    {
      && cur <= |data|
      && (last == -1 ==> !ungot && (cur == 0 || cur == |data|))
      && (last != -1 ==> 0 < cur && last == data[cur - 1])
         // the newlines counted are those read before the latest byte
      && line == 1 + Newlines(data[..if cur == 0 then 0 else cur - 1])
    }

    ghost function Unread(): bytes
      reads this
      requires Valid()
    {
      data[if ungot then cur - 1 else cur..]
    }

    ghost function Mode(): Mode
      reads this
    {
      if ungot then PushedBack else if last == -1 then Nothing else Taken
    }

    ghost function ToTape(): Tape
      reads this
      requires Valid()
    {
      Tape(Unread(), Mode())
    }

    constructor (data: bytes)
      ensures this.data == data && Valid()
      ensures ToTape() == Tape(data, Nothing)
    {
      this.data := data;
      cur, last, ungot, line := 0, -1, false, 1;
    }

    method GetC() returns (ch: int)
      requires Valid()
      modifies this
      ensures Valid()
      ensures ch == if old(Unread()) == [] then -1 else old(Unread())[0]
      ensures ToTape() == if old(Unread()) == [] then Tape([], Nothing) else Tape(old(Unread())[1..], Taken)
      ensures last == ch
    {
      if ungot {
        ungot := false;
        return last;
      }
      if cur == |data| {
        last := -1;
        return -1;
      }
      if last == NEWLINE {
        line := line + 1;
      }
      assert 0 < cur ==> data[..cur][..cur - 1] == data[..cur - 1];
      last, cur := data[cur], cur + 1;
      return last;
    }

    /** A byte is never pushed back twice: every caller meets the second precondition. */
    method UngetC()
      requires Valid()
      requires Mode() != PushedBack
      modifies this
      ensures Valid() && last == old(last)
      ensures ToTape() == if last == -1 then old(ToTape()) else Tape([last] + old(Unread()), PushedBack)
    {
      if last != -1 {
        ungot := true;
      }
    }

    method SkipWs()
      requires Valid()
      modifies this
      ensures Valid()
      ensures ToTape() == Peeked(SkipSpace(old(Unread())))
    {
      hide Valid, Unread;
      while true
        invariant Valid()
        invariant SkipSpace(Unread()) == SkipSpace(old(Unread()))
        decreases |Unread()|
      {
        ghost var u := Unread();
        var ch := GetC();
        if !IsSpace(ch) {
          UngetC();
          assert u != [] ==> [u[0]] + u[1..] == u;
          break;
        }
      }
    }

    method ExpectByte(expected: byte) returns (found: bool)
      requires Valid()
      modifies this
      ensures Valid()
      ensures (found, ToTape()) == Expect(expected, old(Unread()))
    {
      hide Valid, Unread;
      SkipWs();
      ghost var t := Unread();
      var ch := GetC();
      if ch != expected {
        UngetC();
        assert t != [] ==> [t[0]] + t[1..] == t;
        return false;
      }
      return true;
    }

    method MatchBytes(pattern: bytes) returns (found: bool)
      requires Valid()
      modifies this
      ensures Valid()
      ensures if pattern == [] then found && ToTape() == old(ToTape())
              else (found, ToTape()) == Match(pattern, old(Unread()))
    {
      hide Valid, Unread;
      var i := 0;
      while i < |pattern|
        invariant 0 <= i <= |pattern| && Valid()
        invariant if i == 0 then ToTape() == old(ToTape()) else Mode() == Taken
        invariant Match(pattern[i..], Unread()) == Match(pattern, old(Unread()))
      {
        ghost var u := Unread();
        var ch := GetC();
        if ch != pattern[i] {
          UngetC();
          assert u != [] ==> [u[0]] + u[1..] == u;
          return false;
        }
        assert pattern[i..][1..] == pattern[i + 1..];
        i := i + 1;
      }
      return true;
    }
  }

  /** What is unread is the pushed-back byte, if there is one, followed by [cur, end). */
  lemma UnreadIsPushbackThenTail(inp: Input)
    requires inp.Valid()
    ensures inp.Unread() == (if inp.ungot then [inp.last] else []) + inp.data[inp.cur..]
  {
  }

  /** Where the iterator stands: past the byte that was pushed back, if one was. */
  function Cursor(data: bytes, t: Tape): int {
    |data| - |t.rest| + if t.mode == PushedBack then 1 else 0
  }

  /** One more than the newlines among the bytes read before the latest one. */
  function LineAt(data: bytes, t: Tape): int
    requires 0 <= Cursor(data, t) <= |data|
  {
    1 + Newlines(data[..if Cursor(data, t) == 0 then 0 else Cursor(data, t) - 1])
  }

  /** The line is one more than the bytes 0x0A among those read before the latest one. */
  lemma LineCountsNewlines(data: bytes, t: Tape)
    requires 0 < Cursor(data, t) <= |data|
    ensures LineAt(data, t) == 1 + |set i | 0 <= i < Cursor(data, t) - 1 && data[i] == 0x0A|
  {
    var before := data[..Cursor(data, t) - 1];
    NewlinesAreCounted(before);
    assert (set i | 0 <= i < Cursor(data, t) - 1 && data[i] == 0x0A) == set i | 0 <= i < |before| && before[i] == 0x0A;
  }

  /** The data and the tape determine every field of a stream. */
  lemma TapeFixesState(inp: Input)
    requires inp.Valid()
    ensures inp.cur == Cursor(inp.data, inp.ToTape()) <= |inp.data|
    ensures inp.line == LineAt(inp.data, inp.ToTape())
    ensures inp.ungot <==> inp.ToTape().mode == PushedBack
    ensures inp.last == if inp.ToTape().mode == Nothing then -1 else inp.data[inp.cur - 1]
  {
  }
}
