/**
 * picojson's recursive-descent parser, driven by the context that builds a value.
 *
 * The Read functions say, for any unread bytes, which value is built and which tape is left. The
 * Parse methods are the source's loops over the stream. Unread length bounds all of them.
 */
module JsonParser {
  import opened Bytes
  import opened JsonValue
  import opened JsonInput
  import opened JsonStrings
  import opened JsonNumbers

  const COMMA: byte := 0x2C
  const COLON: byte := 0x3A
  const OPEN_ARRAY: byte := 0x5B
  const CLOSE_ARRAY: byte := 0x5D
  const OPEN_OBJECT: byte := 0x7B
  const CLOSE_OBJECT: byte := 0x7D
  const LETTER_N: byte := 0x6E
  const LETTER_F: byte := 0x66
  const LETTER_T: byte := 0x74
  const ULL: bytes := [0x75, 0x6C, 0x6C]
  const ALSE: bytes := [0x61, 0x6C, 0x73, 0x65]
  const RUE: bytes := [0x72, 0x75, 0x65]

  function ReadNumber(u: bytes): (r: Outcome<Value>)
    ensures |r.tape.rest| <= |u|
    ensures u != [] && IsNumberByte(u[0]) ==> |r.tape.rest| < |u|
  {
    var token := NumberToken(u);
    var tape := Peeked(u[|token|..]);
    match NumberValue(token)
    case None => Stop(tape)
    case Some(v) => Done(v, tape)
  }

  function ReadWord(pattern: bytes, v: Value, u: bytes): (r: Outcome<Value>)
    ensures |r.tape.rest| <= |u|
  {
    var m := Match(pattern, u);
    if m.0 then Done(v, m.1) else Stop(m.1)
  }

  function ReadString(u: bytes): (r: Outcome<Value>)
    ensures |r.tape.rest| <= |u|
  {
    var r := StringBody(u, []);
    if r.Stop? then Stop(r.tape) else Done(Str(r.out), r.tape)
  }

  function ReadValue(u: bytes): (r: Outcome<Value>)
    ensures |r.tape.rest| <= |u|
    ensures r.Done? ==> |r.tape.rest| < |u|
    decreases |u|, 0
  {
    var t := SkipSpace(u);
    if t == [] then Stop(Peeked(t))
    else if t[0] == LETTER_N then ReadWord(ULL, Null, t[1..])
    else if t[0] == LETTER_F then ReadWord(ALSE, Bool(false), t[1..])
    else if t[0] == LETTER_T then ReadWord(RUE, Bool(true), t[1..])
    else if t[0] == QUOTE then ReadString(t[1..])
    else if t[0] == OPEN_ARRAY then ReadArray(t[1..])
    else if t[0] == OPEN_OBJECT then ReadObject(t[1..])
    else if IsDigit(t[0]) || t[0] == MINUS then ReadNumber(t)
    else Stop(Peeked(t))
  }

  function ReadArray(u: bytes): (r: Outcome<Value>)
    ensures |r.tape.rest| <= |u|
    decreases |u|, 2
  {
    var e := Expect(CLOSE_ARRAY, u);
    if e.0 then Done(Arr([]), e.1) else ReadItems(e.1.rest, [])
  }

  /** The items from the next one to the closing bracket, after `sofar`. */
  function ReadItems(u: bytes, sofar: seq<Value>): (r: Outcome<Value>)
    ensures |r.tape.rest| <= |u|
    decreases |u|, 1
  {
    var item := ReadValue(u);
    if item.Stop? then Stop(item.tape)
    else
      var items := sofar + [item.out];
      var comma := Expect(COMMA, item.tape.rest);
      if comma.0 then ReadItems(comma.1.rest, items)
      else
        var close := Expect(CLOSE_ARRAY, comma.1.rest);
        if close.0 then Done(Arr(items), close.1) else Stop(close.1)
  }

  function ReadObject(u: bytes): (r: Outcome<Value>)
    ensures |r.tape.rest| <= |u|
    decreases |u|, 2
  {
    var e := Expect(CLOSE_OBJECT, u);
    if e.0 then Done(Obj([]), e.1) else ReadMembers(e.1.rest, [])
  }

  /** A quoted key and the colon after it. */
  function ReadKey(u: bytes): (r: Outcome<bytes>)
    ensures |r.tape.rest| <= |u|
    ensures r.Done? ==> |r.tape.rest| < |u|
  {
    var quote := Expect(QUOTE, u);
    if !quote.0 then Stop(quote.1)
    else
      var key := StringBody(quote.1.rest, []);
      if key.Stop? then Stop(key.tape)
      else
        var colon := Expect(COLON, key.tape.rest);
        if colon.0 then Done(key.out, colon.1) else Stop(colon.1)
  }

  /** The members from the next one to the closing brace, assigned into `sofar` in turn. */
  function ReadMembers(u: bytes, sofar: seq<Member>): (r: Outcome<Value>)
    ensures |r.tape.rest| <= |u|
    decreases |u|, 1
  {
    var key := ReadKey(u);
    if key.Stop? then Stop(key.tape)
    else
      var item := ReadValue(key.tape.rest);
      if item.Stop? then Stop(item.tape)
      else
        var members := Put(sofar, key.out, item.out);
        var comma := Expect(COMMA, item.tape.rest);
        if comma.0 then ReadMembers(comma.1.rest, members)
        else
          var close := Expect(CLOSE_OBJECT, comma.1.rest);
          if close.0 then Done(Obj(members), close.1) else Stop(close.1)
  }

  /** What a scan for number bytes has still to find, one byte on. */
  lemma TokenFromNextByte(u: bytes)
    ensures u == [] || !IsNumberByte(u[0]) ==> NumberToken(u) == []
    ensures u != [] && IsNumberByte(u[0]) ==>
              NumberToken(u) == [u[0]] + NumberToken(u[1..]) &&
              u[|NumberToken(u)|..] == u[1..][|NumberToken(u[1..])|..]
  {
  }

  /** The first loop of ParseNumber: takes number bytes and pushes back the byte after them. */
  method ScanNumber(inp: Input) returns (numStr: bytes)
    requires inp.Valid()
    modifies inp
    ensures inp.Valid()
    ensures numStr == NumberToken(old(inp.Unread()))
    ensures inp.ToTape() == Peeked(old(inp.Unread())[|numStr|..])
  {
    hide Input.Valid, Input.Unread, NumberToken;
    numStr := [];
    ghost var token, after := NumberToken(inp.Unread()), inp.Unread()[|NumberToken(inp.Unread())|..];
    while true
      invariant inp.Valid()
      invariant numStr + NumberToken(inp.Unread()) == token
      invariant inp.Unread()[|NumberToken(inp.Unread())|..] == after
      decreases |inp.Unread()|
    {
      ghost var u := inp.Unread();
      TokenFromNextByte(u);
      var ch := inp.GetC();
      if !IsNumberByte(ch) {
        inp.UngetC();
        assert u != [] ==> u == [u[0]] + u[1..];
        break;
      }
      numStr := numStr + [ch];
    }
  }

  method ParseNumber(inp: Input) returns (ok: bool, v: Value)
    requires inp.Valid()
    modifies inp
    ensures inp.Valid()
    ensures ok == ReadNumber(old(inp.Unread())).Done? && inp.ToTape() == ReadNumber(old(inp.Unread())).tape
    ensures ok ==> v == ReadNumber(old(inp.Unread())).out
  {
    hide Input.Valid, Input.Unread, NumberValue, NumberToken;
    var numStr := ScanNumber(inp);
    match NumberValue(numStr)
    case None => return false, Null;
    case Some(f) => return true, f;
  }

  method ParseWord(inp: Input, pattern: bytes, constant: Value) returns (ok: bool, v: Value)
    requires inp.Valid() && pattern != []
    modifies inp
    ensures inp.Valid()
    ensures ok == ReadWord(pattern, constant, old(inp.Unread())).Done?
    ensures inp.ToTape() == ReadWord(pattern, constant, old(inp.Unread())).tape
    ensures ok ==> v == ReadWord(pattern, constant, old(inp.Unread())).out
  {
    hide Input.Valid, Input.Unread, Match;
    ok := inp.MatchBytes(pattern);
    v := constant;
  }

  method ParseValue(inp: Input) returns (ok: bool, v: Value)
    requires inp.Valid()
    modifies inp
    ensures inp.Valid()
    ensures ok == ReadValue(old(inp.Unread())).Done? && inp.ToTape() == ReadValue(old(inp.Unread())).tape
    ensures ok ==> v == ReadValue(old(inp.Unread())).out
    decreases |inp.Unread()|, 0
  {
    hide Input.Valid, Input.Unread, StringBody, ReadNumber, ReadArray, ReadObject, ReadWord;
    inp.SkipWs();
    ghost var t := inp.Unread();
    var ch := inp.GetC();
    if ch == LETTER_N {
      ok, v := ParseWord(inp, ULL, Null);
    } else if ch == LETTER_F {
      ok, v := ParseWord(inp, ALSE, Bool(false));
    } else if ch == LETTER_T {
      ok, v := ParseWord(inp, RUE, Bool(true));
    } else if ch == QUOTE {
      var s: bytes;
      ok, s := ParseString(inp);
      v := Str(s);
    } else if ch == OPEN_ARRAY {
      ok, v := ParseArray(inp);
    } else if ch == OPEN_OBJECT {
      ok, v := ParseObject(inp);
    } else {
      inp.UngetC();
      assert t != [] ==> t == [t[0]] + t[1..];
      if IsDigit(ch) || ch == MINUS {
        ok, v := ParseNumber(inp);
      } else {
        ok, v := false, Null;
      }
    }
  }

  method ParseArray(inp: Input) returns (ok: bool, v: Value)
    requires inp.Valid()
    modifies inp
    ensures inp.Valid()
    ensures ok == ReadArray(old(inp.Unread())).Done? && inp.ToTape() == ReadArray(old(inp.Unread())).tape
    ensures ok ==> v == ReadArray(old(inp.Unread())).out
    decreases |inp.Unread()|, 1
  {
    hide Input.Valid, Input.Unread, ReadValue, Expect;
    ghost var whole := ReadArray(inp.Unread());
    var items: seq<Value> := [];
    var found := inp.ExpectByte(CLOSE_ARRAY);
    if found {
      return true, Arr(items);
    }
    while true
      invariant inp.Valid() && |inp.Unread()| <= |old(inp.Unread())|
      invariant ReadItems(inp.Unread(), items) == whole
      decreases |inp.Unread()|
    {
      var item: Value;
      ok, item := ParseValue(inp);
      if !ok {
        return false, Null;
      }
      items := items + [item];
      found := inp.ExpectByte(COMMA);
      if !found {
        break;
      }
    }
    ok := inp.ExpectByte(CLOSE_ARRAY);
    v := Arr(items);
  }

  method ParseObject(inp: Input) returns (ok: bool, v: Value)
    requires inp.Valid()
    modifies inp
    ensures inp.Valid()
    ensures ok == ReadObject(old(inp.Unread())).Done? && inp.ToTape() == ReadObject(old(inp.Unread())).tape
    ensures ok ==> v == ReadObject(old(inp.Unread())).out
    decreases |inp.Unread()|, 1
  {
    hide Input.Valid, Input.Unread, ReadValue, Expect, StringBody, Put;
    ghost var whole := ReadObject(inp.Unread());
    var members: seq<Member> := [];
    var found := inp.ExpectByte(CLOSE_OBJECT);
    if found {
      return true, Obj(members);
    }
    while true
      invariant inp.Valid() && |inp.Unread()| <= |old(inp.Unread())|
      invariant ReadMembers(inp.Unread(), members) == whole
      decreases |inp.Unread()|
    {
      found := inp.ExpectByte(QUOTE);
      if !found {
        return false, Null;
      }
      var key: bytes;
      ok, key := ParseString(inp);
      if !ok {
        return false, Null;
      }
      found := inp.ExpectByte(COLON);
      if !found {
        return false, Null;
      }
      var item: Value;
      ok, item := ParseValue(inp);
      if !ok {
        return false, Null;
      }
      members := Put(members, key, item);
      found := inp.ExpectByte(COMMA);
      if !found {
        break;
      }
    }
    ok := inp.ExpectByte(CLOSE_OBJECT);
    v := Obj(members);
  }
}
