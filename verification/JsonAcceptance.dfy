/**
 * The parser accepts exactly the texts of the grammar: whenever it succeeds, a syntax tree for
 * what it consumed can be read off its run. The lemmas below build that tree.
 */
module JsonAcceptance {
  import opened Bytes
  import opened JsonValue
  import opened JsonInput
  import opened JsonStrings
  import opened JsonNumbers
  import opened JsonParser
  import opened JsonGrammar

  lemma {:induction false} SplitSpaces(u: bytes) returns (ws: bytes)
    ensures AllSpace(ws) && u == ws + SkipSpace(u)
  {
    if u != [] && IsSpace(u[0]) {
      var more := SplitSpaces(u[1..]);
      ws := [u[0]] + more;
    } else {
      ws := [];
    }
  }

  lemma SplitExpect(c: byte, u: bytes) returns (ws: bytes)
    requires Expect(c, u).0
    ensures AllSpace(ws) && u == ws + [c] + Expect(c, u).1.rest
  {
    hide AllSpace, SkipSpace;
    ws := SplitSpaces(u);
    var t := SkipSpace(u);
    assert t == [c] + t[1..];
    assert ws + t == ws + [c] + t[1..];
  }

  lemma QuadHexStep(u: bytes, n: nat, sofar: nat)
    requires n > 0 && QuadHex(u, n, sofar).Done?
    ensures u != [] && IsHex(u[0])
    ensures QuadHex(u, n, sofar) == QuadHex(u[1..], n - 1, 16 * sofar + HexValue(u[0]))
  {
  }

  lemma SplitQuad(u: bytes) returns (q: bytes)
    requires Quad(u).Done?
    ensures IsQuad(q) && u == q + Quad(u).tape.rest
    ensures Quad(u).out == QuadValue(q) && Quad(u).tape.mode == Taken
  {
    hide QuadHex, HexValue;
    QuadHexStep(u, 4, 0);
    var a := HexValue(u[0]);
    QuadHexStep(u[1..], 3, a);
    var b := 16 * a + HexValue(u[1]);
    assert u[1..][1..] == u[2..];
    QuadHexStep(u[2..], 2, b);
    var c := 16 * b + HexValue(u[2]);
    assert u[2..][1..] == u[3..];
    QuadHexStep(u[3..], 1, c);
    q := u[..4];
    ReadsQuad(q, u[4..]);
    assert u == q + u[4..];
  }

  lemma CodePointDone(u: bytes)
    requires CodePoint(u).Done?
    ensures Quad(u).Done? && !IsLow(Quad(u).out)
    ensures IsHigh(Quad(u).out) ==>
              var t := Quad(u).tape.rest;
              |t| > 1 && t[0] == BACKSLASH && t[1] == LETTER_U && Quad(t[2..]).Done? && IsLow(Quad(t[2..]).out)
  {
    hide Quad, PushedBytes;
  }

  lemma SplitCodePoint(u: bytes) returns (unit: Unit)
    requires CodePoint(u).Done?
    ensures UnitOk(unit) && (unit.Escape? || unit.SurrogatePair?)
    ensures u == WriteUnit(unit)[2..] + CodePoint(u).tape.rest
    ensures CodePoint(u).out == DenoteUnit(unit) && CodePoint(u).tape.mode == Taken
  {
    hide PushedBytes, Quad, CodePoint, QuadValue, IsQuad;
    CodePointDone(u);
    var high := SplitQuad(u);
    var t := Quad(u).tape.rest;
    if IsHigh(QuadValue(high)) {
      var low := SplitQuad(t[2..]);
      unit := SurrogatePair(high, low);
      var rest := Quad(t[2..]).tape.rest;
      assert WriteUnit(unit)[2..] == high + [BACKSLASH, LETTER_U] + low;
      assert t == [BACKSLASH, LETTER_U] + t[2..];
      assert u == WriteUnit(unit)[2..] + rest;
      ReadsCodePoint(unit, rest);
    } else {
      unit := Escape(high);
      assert WriteUnit(unit)[2..] == high;
      ReadsCodePoint(unit, t);
    }
  }

  /** The unit a string body starts with. */
  lemma SplitUnit(u: bytes, sofar: bytes) returns (unit: Unit, behind: bytes)
    requires StringBody(u, sofar).Done? && u[0] != QUOTE
    ensures UnitOk(unit) && u == WriteUnit(unit) + behind && |behind| < |u|
  {
    hide CodePoint, PushedBytes, StringBody;
    StringHead(u, sofar);
    if u[0] != BACKSLASH {
      unit, behind := Raw(u[0]), u[1..];
    } else if IsShortEscape(u[1]) {
      unit, behind := Short(u[1]), u[2..];
    } else {
      unit := SplitCodePoint(u[2..]);
      behind := CodePoint(u[2..]).tape.rest;
      assert WriteUnit(unit) == [BACKSLASH, LETTER_U] + WriteUnit(unit)[2..];
    }
  }

  lemma StringHead(u: bytes, sofar: bytes)
    requires StringBody(u, sofar).Done?
    ensures u != [] && 0x20 <= u[0]
    ensures u[0] == BACKSLASH ==> |u| > 1 && (IsShortEscape(u[1]) || (u[1] == LETTER_U && CodePoint(u[2..]).Done?))
  {
  }

  lemma {:induction false} SplitBody(u: bytes, sofar: bytes) returns (units: seq<Unit>)
    requires StringBody(u, sofar).Done?
    ensures UnitsOk(units)
    ensures u == WriteUnits(units) + [QUOTE] + StringBody(u, sofar).tape.rest
    ensures StringBody(u, sofar).out == sofar + DenoteUnits(units)
    ensures StringBody(u, sofar).tape.mode == Taken
    decreases |u|
  {
    hide CodePoint, WriteUnit, DenoteUnit, UnitOk;
    if u[0] == QUOTE {
      units := [];
      assert u == [QUOTE] + u[1..] && sofar + [] == sofar;
    } else {
      var unit, behind := SplitUnit(u, sofar);
      ReadsUnit(unit, behind, sofar);
      var more := SplitBody(behind, sofar + DenoteUnit(unit));
      units := [unit] + more;
      JoinUnits(unit, more, behind, StringBody(u, sofar).tape.rest);
      assert sofar + DenoteUnit(unit) + DenoteUnits(more) == sofar + DenoteUnits(units);
    }
  }

  lemma JoinUnits(unit: Unit, more: seq<Unit>, behind: bytes, rest: bytes)
    requires UnitOk(unit) && UnitsOk(more)
    requires behind == WriteUnits(more) + [QUOTE] + rest
    ensures UnitsOk([unit] + more)
    ensures WriteUnit(unit) + behind == WriteUnits([unit] + more) + [QUOTE] + rest
    ensures DenoteUnits([unit] + more) == DenoteUnit(unit) + DenoteUnits(more)
  {
  }

  lemma SplitWord(pattern: bytes, v: Value, u: bytes)
    requires ReadWord(pattern, v, u).Done?
    ensures u == pattern + ReadWord(pattern, v, u).tape.rest
    ensures ReadWord(pattern, v, u) == Done(v, Tape(ReadWord(pattern, v, u).tape.rest, Taken))
  {
    MatchIsPrefix(pattern, u);
  }

  lemma SplitText(u: bytes) returns (units: seq<Unit>)
    requires ReadString(u).Done?
    ensures UnitsOk(units) && u == WriteUnits(units) + [QUOTE] + ReadString(u).tape.rest
    ensures ReadString(u) == Done(Str(DenoteUnits(units)), Tape(ReadString(u).tape.rest, Taken))
  {
    hide StringBody, UnitsOk, WriteUnits, DenoteUnits;
    units := SplitBody(u, []);
    assert [] + DenoteUnits(units) == DenoteUnits(units);
  }

  lemma SplitNumber(t: bytes) returns (token: bytes)
    requires ReadNumber(t).Done? && t != [] && (IsDigit(t[0]) || t[0] == MINUS)
    ensures SyntaxOk(Number(token)) && Follows(Number(token), ReadNumber(t).tape.rest)
    ensures t == token + ReadNumber(t).tape.rest
    ensures ReadNumber(t) == Done(NumberValue(token).value, Peeked(ReadNumber(t).tape.rest))
  {
    hide NumberValue;
    NumberTokenIsMaximal(t);
    token := NumberToken(t);
    assert token != [] && token[0] == t[0];
  }

  /** The tree of a string, a number or a literal. */
  lemma SplitAtom(t: bytes) returns (syn: Syntax)
    requires ReadValue(t).Done? && SkipSpace(t) == t
    requires t[0] != OPEN_ARRAY && t[0] != OPEN_OBJECT
    ensures Parses([], syn, t, ReadValue(t).out, ReadValue(t).tape)
  {
    hide ReadWord, ReadString, ReadNumber, ReadArray, ReadObject, NumberValue, WriteUnits, DenoteUnits, UnitsOk,
      AllSpace;
    var rest := ReadValue(t).tape.rest;
    assert AllSpace([]) by {
      var none := SplitSpaces([]);
    }
    assert t == [t[0]] + t[1..];
    if t[0] == LETTER_N {
      syn := NullWord;
      SplitWord(ULL, Null, t[1..]);
    } else if t[0] == LETTER_F {
      syn := FalseWord;
      SplitWord(ALSE, Bool(false), t[1..]);
    } else if t[0] == LETTER_T {
      syn := TrueWord;
      SplitWord(RUE, Bool(true), t[1..]);
    } else if t[0] == QUOTE {
      var units := SplitText(t[1..]);
      syn := Text(units);
    } else {
      var token := SplitNumber(t);
      syn := Number(token);
    }
    assert t == [] + Write(syn) + rest;
  }

  /** The tree of an array or an object. */
  lemma {:induction false} SplitBracketed(t: bytes) returns (syn: Syntax)
    requires ReadValue(t).Done? && SkipSpace(t) == t
    requires t[0] == OPEN_ARRAY || t[0] == OPEN_OBJECT
    ensures Parses([], syn, t, ReadValue(t).out, ReadValue(t).tape)
    decreases |t|, 0
  {
    hide ReadArray, ReadObject, ReadItems, ReadMembers, ItemOk, PairOk, DenoteItems, Assign, WriteItems, WritePairs,
      AllSpace;
    var rest := ReadValue(t).tape.rest;
    if t[0] == OPEN_ARRAY {
      var inner, items := SplitArray(t[1..]);
      syn := Array(inner, items);
      assert t == [OPEN_ARRAY] + t[1..];
    } else {
      var inner, pairs := SplitObject(t[1..]);
      syn := Object(inner, pairs);
      assert t == [OPEN_OBJECT] + t[1..];
    }
    assert t == [] + Write(syn) + rest;
    assert AllSpace([]) by {
      var none := SplitSpaces([]);
    }
  }

  lemma SpacesBeforeValue(u: bytes)
    ensures SkipSpace(SkipSpace(u)) == SkipSpace(u) && ReadValue(SkipSpace(u)) == ReadValue(u)
    ensures ReadValue(u).Done? ==> SkipSpace(u) != []
  {
  }

  lemma {:induction false} SplitValue(u: bytes) returns (ws: bytes, syn: Syntax)
    requires ReadValue(u).Done?
    ensures Parses(ws, syn, u, ReadValue(u).out, ReadValue(u).tape)
    decreases |u|, 1
  {
    hide Denote, Write, SyntaxOk, ReadValue, AllSpace;
    ws := SplitSpaces(u);
    var t := SkipSpace(u);
    SpacesBeforeValue(u);
    if t[0] == OPEN_ARRAY || t[0] == OPEN_OBJECT {
      syn := SplitBracketed(t);
    } else {
      syn := SplitAtom(t);
    }
    assert u == ws + Write(syn) + ReadValue(u).tape.rest;
  }

  /** An item, up to the byte `b` that comes next once spaces are skipped. */
  lemma {:induction false} SplitItem(u: bytes, b: byte, behind: bytes) returns (item: Item)
    requires ReadValue(u).Done? && !IsSpace(b)
    requires SkipSpace(ReadValue(u).tape.rest) == [b] + behind
    ensures ItemOk(item) && u == WriteItem(item) + [b] + behind && Denote(item.syn) == ReadValue(u).out
    decreases |u|, 2
  {
    hide ReadValue, Denote, Write;
    var ws, syn := SplitValue(u);
    var after := SplitSpaces(ReadValue(u).tape.rest);
    item := Item(ws, syn, after);
    assert u == ws + Write(syn) + (after + ([b] + behind));
  }

  lemma JoinItemsWritten(item: Item, more: seq<Item>, rest: bytes)
    ensures WriteItems([item] + more) + [CLOSE_ARRAY] + rest
         == if more == [] then WriteItem(item) + [CLOSE_ARRAY] + rest
            else WriteItem(item) + [COMMA] + (WriteItems(more) + [CLOSE_ARRAY] + rest)
  {
    hide WriteItem;
    assert ([item] + more)[1..] == more;
  }

  lemma JoinItems(item: Item, more: seq<Item>, sofar: seq<Value>, rest: bytes)
    requires ItemOk(item) && forall i :: 0 <= i < |more| ==> ItemOk(more[i])
    ensures forall i :: 0 <= i < |[item] + more| ==> ItemOk(([item] + more)[i])
    ensures WriteItems([item] + more) + [CLOSE_ARRAY] + rest
         == if more == [] then WriteItem(item) + [CLOSE_ARRAY] + rest
            else WriteItem(item) + [COMMA] + (WriteItems(more) + [CLOSE_ARRAY] + rest)
    ensures SyntaxOk(item.syn)
    ensures sofar + DenoteItems([item] + more) == sofar + [Denote(item.syn)] + DenoteItems(more)
  {
    hide WriteItem, WriteItems, Denote, SyntaxOk, AllSpace;
    JoinItemsWritten(item, more, rest);
    assert ([item] + more)[1..] == more;
  }

  lemma {:induction false} SplitItems(u: bytes, sofar: seq<Value>) returns (items: seq<Item>)
    requires ReadItems(u, sofar).Done?
    ensures items != [] && forall i :: 0 <= i < |items| ==> ItemOk(items[i])
    ensures u == WriteItems(items) + [CLOSE_ARRAY] + ReadItems(u, sofar).tape.rest
    ensures ReadItems(u, sofar).out == Arr(sofar + DenoteItems(items)) && ReadItems(u, sofar).tape.mode == Taken
    decreases |u|, 3
  {
    hide ReadValue, Denote, WriteItem, WriteItems, DenoteItems, ItemOk;
    var value := ReadValue(u);
    var t := SkipSpace(value.tape.rest);
    var rest := ReadItems(u, sofar).tape.rest;
    if Expect(COMMA, value.tape.rest).0 {
      var item := SplitItem(u, COMMA, t[1..]);
      var more := SplitItems(t[1..], sofar + [value.out]);
      items := [item] + more;
      JoinItems(item, more, sofar, rest);
    } else {
      SkipsSpaces([], t);
      assert [] + t == t && t == [CLOSE_ARRAY] + rest;
      var item := SplitItem(u, CLOSE_ARRAY, rest);
      items := [item] + [];
      JoinItems(item, [], sofar, rest);
      assert DenoteItems([]) == [] by { NoItems(); }
    }
  }

  lemma NoItems()
    ensures DenoteItems([]) == [] && WriteItems([]) == []
  {
  }

  lemma {:induction false} SplitArray(u: bytes) returns (inner: bytes, items: seq<Item>)
    requires ReadArray(u).Done?
    ensures AllSpace(inner) && forall i :: 0 <= i < |items| ==> ItemOk(items[i])
    ensures u == (if items == [] then inner else WriteItems(items)) + [CLOSE_ARRAY] + ReadArray(u).tape.rest
    ensures ReadArray(u).out == Arr(DenoteItems(items)) && ReadArray(u).tape.mode == Taken
    decreases |u|, 4
  {
    hide ReadItems, WriteItem, Denote, ItemOk;
    inner, items := [], [];
    if Expect(CLOSE_ARRAY, u).0 {
      inner := SplitExpect(CLOSE_ARRAY, u);
    } else {
      SpacesBeforeItems(u, []);
      items := SplitItems(u, []);
      assert [] + DenoteItems(items) == DenoteItems(items);
    }
  }

  lemma {:induction false} SplitKey(u: bytes) returns (beforeKey: bytes, key: seq<Unit>, beforeColon: bytes)
    requires ReadKey(u).Done?
    ensures AllSpace(beforeKey) && UnitsOk(key) && AllSpace(beforeColon)
    ensures u == beforeKey + [QUOTE] + WriteUnits(key) + [QUOTE] + beforeColon + [COLON] + ReadKey(u).tape.rest
    ensures ReadKey(u).out == DenoteUnits(key)
  {
    hide StringBody, Expect, UnitsOk, WriteUnits, DenoteUnits, AllSpace;
    beforeKey := SplitExpect(QUOTE, u);
    var body := Expect(QUOTE, u).1.rest;
    key := SplitBody(body, []);
    assert [] + DenoteUnits(key) == DenoteUnits(key);
    beforeColon := SplitExpect(COLON, StringBody(body, []).tape.rest);
  }

  lemma JoinPairs(pair: Pair, more: seq<Pair>, sofar: seq<Member>, rest: bytes)
    requires PairOk(pair) && forall i :: 0 <= i < |more| ==> PairOk(more[i])
    ensures forall i :: 0 <= i < |[pair] + more| ==> PairOk(([pair] + more)[i])
    ensures WritePairs([pair] + more) + [CLOSE_OBJECT] + rest
         == if more == [] then WriteKey(pair) + (WriteItem(pair.item) + [CLOSE_OBJECT] + rest)
            else WriteKey(pair) + (WriteItem(pair.item) + [COMMA] + (WritePairs(more) + [CLOSE_OBJECT] + rest))
    ensures ItemOk(pair.item) && UnitsOk(pair.key)
    ensures Assign(sofar, [pair] + more) == Assign(Put(sofar, DenoteUnits(pair.key), Denote(pair.item.syn)), more)
  {
    hide WriteItem, WriteKey, Denote, SyntaxOk, DenoteUnits, UnitsOk, Put;
    assert ([pair] + more)[1..] == more;
    assert ItemOk(pair.item);
  }

  lemma {:induction false} SplitMembers(u: bytes, sofar: seq<Member>) returns (pairs: seq<Pair>)
    requires ReadMembers(u, sofar).Done?
    ensures pairs != [] && forall i :: 0 <= i < |pairs| ==> PairOk(pairs[i])
    ensures u == WritePairs(pairs) + [CLOSE_OBJECT] + ReadMembers(u, sofar).tape.rest
    ensures ReadMembers(u, sofar).out == Obj(Assign(sofar, pairs)) && ReadMembers(u, sofar).tape.mode == Taken
    decreases |u|, 3
  {
    hide ReadValue, ReadKey, Denote, DenoteUnits, WriteKey, WriteItem, WritePairs, Assign, Put, PairOk;
    var pair, more, behind := SplitMember(u, sofar);
    var members := Put(sofar, ReadKey(u).out, ReadValue(ReadKey(u).tape.rest).out);
    var rest := ReadMembers(u, sofar).tape.rest;
    if more {
      var others := SplitMembers(behind, members);
      pairs := [pair] + others;
      JoinPairs(pair, others, sofar, rest);
    } else {
      pairs := [pair] + [];
      JoinPairs(pair, [], sofar, rest);
      assert Assign(members, []) == members by { NoPairs(members); }
    }
  }

  lemma NoPairs(members: seq<Member>)
    ensures Assign(members, []) == members
  {
  }

  /** The first member, and whether a comma says that there are more. */
  lemma {:induction false} SplitMember(u: bytes, sofar: seq<Member>) returns (pair: Pair, more: bool, behind: bytes)
    requires ReadMembers(u, sofar).Done?
    ensures PairOk(pair) && ItemOk(pair.item) && UnitsOk(pair.key) && |behind| < |u|
    ensures u == WriteKey(pair) + (WriteItem(pair.item) + [if more then COMMA else CLOSE_OBJECT] + behind)
    ensures ReadKey(u).Done? && ReadKey(u).out == DenoteUnits(pair.key)
    ensures ReadValue(ReadKey(u).tape.rest).Done? && ReadValue(ReadKey(u).tape.rest).out == Denote(pair.item.syn)
    ensures ReadMembers(u, sofar)
         == var members := Put(sofar, ReadKey(u).out, ReadValue(ReadKey(u).tape.rest).out);
            if more then ReadMembers(behind, members) else Done(Obj(members), Tape(behind, Taken))
    decreases |u|, 2
  {
    hide ReadValue, ReadKey, Denote, DenoteUnits, WriteUnits, UnitsOk, WriteItem, ItemOk, AllSpace, Put;
    var beforeKey, key, beforeColon := SplitKey(u);
    var w := ReadKey(u).tape.rest;
    var value := ReadValue(w);
    var t := SkipSpace(value.tape.rest);
    more := Expect(COMMA, value.tape.rest).0;
    if !more {
      SkipsSpaces([], t);
      assert [] + t == t;
    }
    behind := t[1..];
    assert t == [t[0]] + behind;
    var item := SplitItem(w, t[0], behind);
    pair := Pair(beforeKey, key, beforeColon, item);
    assert u == WriteKey(pair) + w;
  }

  lemma {:induction false} SplitObject(u: bytes) returns (inner: bytes, pairs: seq<Pair>)
    requires ReadObject(u).Done?
    ensures AllSpace(inner) && forall i :: 0 <= i < |pairs| ==> PairOk(pairs[i])
    ensures u == (if pairs == [] then inner else WritePairs(pairs)) + [CLOSE_OBJECT] + ReadObject(u).tape.rest
    ensures ReadObject(u).out == Obj(Assign([], pairs)) && ReadObject(u).tape.mode == Taken
    decreases |u|, 4
  {
    hide ReadMembers, WriteItem, WriteKey, Denote, PairOk;
    inner, pairs := [], [];
    if Expect(CLOSE_OBJECT, u).0 {
      inner := SplitExpect(CLOSE_OBJECT, u);
    } else {
      SpacesBeforeMembers(u, []);
      pairs := SplitMembers(u, []);
    }
  }

  /** `u` is spaces, the text of `syn`, and the rest of the tape; and `syn` denotes `v`. */
  predicate Parses(ws: bytes, syn: Syntax, u: bytes, v: Value, tape: Tape) {
    && AllSpace(ws) && SyntaxOk(syn) && Follows(syn, tape.rest)
    && u == ws + Write(syn) + tape.rest
    && Denote(syn) == v
    && tape == EndTape(syn, tape.rest)
  }

  /** The parser yields `v` and this tape if and only if the grammar does. */
  lemma AcceptsExactlyTheGrammar(u: bytes, v: Value, tape: Tape)
    ensures ReadValue(u) == Done(v, tape) <==> exists ws, syn :: Parses(ws, syn, u, v, tape)
  {
    hide ReadValue, Denote, Write, SyntaxOk;
    if ReadValue(u) == Done(v, tape) {
      var ws, syn := SplitValue(u);
    }
    forall ws, syn | Parses(ws, syn, u, v, tape) ensures ReadValue(u) == Done(v, tape) {
      ReadsSyntax(ws, syn, tape.rest);
    }
  }
}
