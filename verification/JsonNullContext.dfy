/**
 * The parser driven by the null context, which builds nothing: the same templates instantiated a
 * second time. It reads exactly as the default context does.
 */
module JsonNullContext {
  import opened Bytes
  import opened JsonValue
  import opened JsonInput
  import opened JsonStrings
  import opened JsonParser

  function ScanWord(pattern: bytes, u: bytes): (r: Outcome<()>)
    ensures |r.tape.rest| <= |u|
  {
    var m := Match(pattern, u);
    if m.0 then Done((), m.1) else Stop(m.1)
  }

  /** `set_number` is told the number and ignores it. */
  function ScanNumber(u: bytes): (r: Outcome<()>)
    ensures |r.tape.rest| <= |u|
  {
    var r := ReadNumber(u);
    if r.Done? then Done((), r.tape) else Stop(r.tape)
  }

  function ScanValue(u: bytes): (r: Outcome<()>)
    ensures |r.tape.rest| <= |u|
    ensures r.Done? && u != [] ==> |r.tape.rest| < |u|
    decreases |u|, 0
  {
    var t := SkipSpace(u);
    if t == [] then Stop(Peeked(t))
    else if t[0] == LETTER_N then ScanWord(ULL, t[1..])
    else if t[0] == LETTER_F then ScanWord(ALSE, t[1..])
    else if t[0] == LETTER_T then ScanWord(RUE, t[1..])
    else if t[0] == QUOTE then SkipBody(t[1..])
    else if t[0] == OPEN_ARRAY then ScanArray(t[1..])
    else if t[0] == OPEN_OBJECT then ScanObject(t[1..])
    else if IsDigit(t[0]) || t[0] == MINUS then
      assert ReadNumber(t).Done? ==> |ReadNumber(t).tape.rest| < |t|;
      ScanNumber(t)
    else Stop(Peeked(t))
  }

  function ScanArray(u: bytes): (r: Outcome<()>)
    ensures |r.tape.rest| <= |u|
    decreases |u|, 2
  {
    var e := Expect(CLOSE_ARRAY, u);
    if e.0 then Done((), e.1) else ScanItems(e.1.rest)
  }

  function ScanItems(u: bytes): (r: Outcome<()>)
    ensures |r.tape.rest| <= |u|
    decreases |u|, 1
  {
    var item := ScanValue(u);
    if item.Stop? then Stop(item.tape)
    else
      var comma := Expect(COMMA, item.tape.rest);
      if comma.0 then ScanItems(comma.1.rest)
      else
        var close := Expect(CLOSE_ARRAY, comma.1.rest);
        if close.0 then Done((), close.1) else Stop(close.1)
  }

  function ScanObject(u: bytes): (r: Outcome<()>)
    ensures |r.tape.rest| <= |u|
    decreases |u|, 2
  {
    var e := Expect(CLOSE_OBJECT, u);
    if e.0 then Done((), e.1) else ScanMembers(e.1.rest)
  }

  /** Keys are read into a string under either context. */
  function ScanMembers(u: bytes): (r: Outcome<()>)
    ensures |r.tape.rest| <= |u|
    decreases |u|, 1
  {
    var key := ReadKey(u);
    if key.Stop? then Stop(key.tape)
    else
      var item := ScanValue(key.tape.rest);
      if item.Stop? then Stop(item.tape)
      else
        var comma := Expect(COMMA, item.tape.rest);
        if comma.0 then ScanMembers(comma.1.rest)
        else
          var close := Expect(CLOSE_OBJECT, comma.1.rest);
          if close.0 then Done((), close.1) else Stop(close.1)
  }

  // ---------- Simulation ----------

  function Forget<T>(r: Outcome<T>): Outcome<()> {
    if r.Done? then Done((), r.tape) else Stop(r.tape)
  }

  lemma {:induction false} BodiesAgree(u: bytes, sofar: bytes)
    ensures SkipBody(u) == Forget(StringBody(u, sofar))
    decreases |u|
  {
    hide CodePoint;
    if u != [] && 0x20 <= u[0] && u[0] != QUOTE {
      if u[0] != BACKSLASH {
        BodiesAgree(u[1..], sofar + [u[0]]);
      } else if u[1..] != [] && IsShortEscape(u[1]) {
        BodiesAgree(u[2..], sofar + [ShortEscape(u[1])]);
      } else if u[1..] != [] && u[1] == LETTER_U && CodePoint(u[2..]).Done? {
        BodiesAgree(CodePoint(u[2..]).tape.rest, sofar + CodePoint(u[2..]).out);
      }
    }
  }

  /** On every input both contexts accept or reject alike and leave the same tape. */
  lemma {:induction false} ContextsAgree(u: bytes)
    ensures ScanValue(u) == Forget(ReadValue(u))
    decreases |u|, 0
  {
    hide Match, ReadNumber, ReadItems, ReadMembers, ScanItems, ScanMembers, StringBody, SkipBody;
    var t := SkipSpace(u);
    if t != [] {
      BodiesAgree(t[1..], []);
      if t[0] == OPEN_ARRAY && !Expect(CLOSE_ARRAY, t[1..]).0 {
        ItemsAgree(Expect(CLOSE_ARRAY, t[1..]).1.rest, []);
      } else if t[0] == OPEN_OBJECT && !Expect(CLOSE_OBJECT, t[1..]).0 {
        MembersAgree(Expect(CLOSE_OBJECT, t[1..]).1.rest, []);
      }
    }
  }

  lemma {:induction false} ItemsAgree(u: bytes, sofar: seq<Value>)
    ensures ScanItems(u) == Forget(ReadItems(u, sofar))
    decreases |u|, 1
  {
    hide ReadValue, ScanValue, Expect;
    ContextsAgree(u);
    var item := ReadValue(u);
    if item.Done? && Expect(COMMA, item.tape.rest).0 {
      ItemsAgree(Expect(COMMA, item.tape.rest).1.rest, sofar + [item.out]);
    }
  }

  lemma {:induction false} MembersAgree(u: bytes, sofar: seq<Member>)
    ensures ScanMembers(u) == Forget(ReadMembers(u, sofar))
    decreases |u|, 1
  {
    hide ReadValue, ScanValue, ReadKey, Expect, Put;
    var key := ReadKey(u);
    if key.Done? {
      ContextsAgree(key.tape.rest);
      var item := ReadValue(key.tape.rest);
      if item.Done? && Expect(COMMA, item.tape.rest).0 {
        MembersAgree(Expect(COMMA, item.tape.rest).1.rest, Put(sofar, key.out, item.out));
      }
    }
  }

  // ---------- The instantiated methods ----------

  method ParseValue(inp: Input) returns (ok: bool)
    requires inp.Valid()
    modifies inp
    ensures inp.Valid()
    ensures ok == ScanValue(old(inp.Unread())).Done? && inp.ToTape() == ScanValue(old(inp.Unread())).tape
    decreases |inp.Unread()|, 0
  {
    hide Input.Valid, Input.Unread, Match, SkipBody, ReadNumber, ScanArray, ScanObject;
    inp.SkipWs();
    ghost var t := inp.Unread();
    var ch := inp.GetC();
    if ch == LETTER_N {
      ok := inp.MatchBytes(ULL);
    } else if ch == LETTER_F {
      ok := inp.MatchBytes(ALSE);
    } else if ch == LETTER_T {
      ok := inp.MatchBytes(RUE);
    } else if ch == QUOTE {
      ok := SkipString(inp);
    } else if ch == OPEN_ARRAY {
      ok := ParseArray(inp);
    } else if ch == OPEN_OBJECT {
      ok := ParseObject(inp);
    } else {
      inp.UngetC();
      assert t != [] ==> t == [t[0]] + t[1..];
      if IsDigit(ch) || ch == MINUS {
        var f: Value;
        ok, f := ParseNumber(inp);
      } else {
        ok := false;
      }
    }
  }

  method ParseArray(inp: Input) returns (ok: bool)
    requires inp.Valid()
    modifies inp
    ensures inp.Valid()
    ensures ok == ScanArray(old(inp.Unread())).Done? && inp.ToTape() == ScanArray(old(inp.Unread())).tape
    decreases |inp.Unread()|, 1
  {
    hide Input.Valid, Input.Unread, ScanValue, Expect;
    ghost var whole := ScanArray(inp.Unread());
    var found := inp.ExpectByte(CLOSE_ARRAY);
    if found {
      return true;
    }
    while true
      invariant inp.Valid() && |inp.Unread()| <= |old(inp.Unread())|
      invariant ScanItems(inp.Unread()) == whole
      decreases |inp.Unread()|
    {
      ok := ParseValue(inp);
      if !ok {
        return;
      }
      found := inp.ExpectByte(COMMA);
      if !found {
        break;
      }
    }
    ok := inp.ExpectByte(CLOSE_ARRAY);
  }

  method ParseObject(inp: Input) returns (ok: bool)
    requires inp.Valid()
    modifies inp
    ensures inp.Valid()
    ensures ok == ScanObject(old(inp.Unread())).Done? && inp.ToTape() == ScanObject(old(inp.Unread())).tape
    decreases |inp.Unread()|, 1
  {
    hide Input.Valid, Input.Unread, ScanValue, Expect, StringBody;
    ghost var whole := ScanObject(inp.Unread());
    var found := inp.ExpectByte(CLOSE_OBJECT);
    if found {
      return true;
    }
    while true
      invariant inp.Valid() && |inp.Unread()| <= |old(inp.Unread())|
      invariant ScanMembers(inp.Unread()) == whole
      decreases |inp.Unread()|
    {
      found := inp.ExpectByte(QUOTE);
      if !found {
        return false;
      }
      var key: bytes;
      ok, key := ParseString(inp);
      if !ok {
        return;
      }
      found := inp.ExpectByte(COLON);
      if !found {
        return false;
      }
      ok := ParseValue(inp);
      if !ok {
        return;
      }
      found := inp.ExpectByte(COMMA);
      if !found {
        break;
      }
    }
    ok := inp.ExpectByte(CLOSE_OBJECT);
  }
}
