/**
 * The grammar picojson accepts, as concrete syntax trees.
 *
 * A tree records every choice a writer has: the spaces between tokens (section 2 of RFC 8259),
 * the literals (section 3), objects, arrays and numbers (sections 4 to 6), and how each unit of a
 * string is spelled (section 7). Write gives its text and Denote the value it stands for, which
 * ignores the spaces. Two deviations follow the code: any byte from 0x20 up may stand for itself
 * in a string, and a \u escape of a lone surrogate is not a unit.
 */
module JsonGrammar {
  import opened Bytes
  import opened JsonValue
  import opened JsonInput
  import opened JsonStrings
  import opened JsonNumbers
  import opened JsonParser

  /** One unit of a string body. */
  datatype Unit =
    | Raw(b: byte)
    | Short(letter: byte)
    | Escape(quad: bytes)
    | SurrogatePair(high: bytes, low: bytes)

  datatype Syntax =
    | NullWord
    | FalseWord
    | TrueWord
    | Number(token: bytes)
    | Text(units: seq<Unit>)
    | Array(inner: bytes, items: seq<Item>)
    | Object(inner: bytes, pairs: seq<Pair>)

  /** An array item with the spaces on both sides. */
  datatype Item = Item(before: bytes, syn: Syntax, after: bytes)

  datatype Pair = Pair(beforeKey: bytes, key: seq<Unit>, beforeColon: bytes, item: Item)

  predicate AllSpace(s: bytes) {
    forall i :: 0 <= i < |s| ==> IsSpace(s[i])
  }

  predicate IsQuad(q: bytes) {
    |q| == 4 && IsHex(q[0]) && IsHex(q[1]) && IsHex(q[2]) && IsHex(q[3])
  }

  function QuadValue(q: bytes): (n: nat)
    requires IsQuad(q)
    ensures n < 0x10000
  {
    0x1000 * HexValue(q[0]) + 0x100 * HexValue(q[1]) + 0x10 * HexValue(q[2]) + HexValue(q[3])
  }

  predicate UnitOk(unit: Unit) {
    match unit
    case Raw(b) => 0x20 <= b && b != QUOTE && b != BACKSLASH
    case Short(letter) => IsShortEscape(letter)
    case Escape(quad) => IsQuad(quad) && !IsHigh(QuadValue(quad)) && !IsLow(QuadValue(quad))
    case SurrogatePair(high, low) => IsQuad(high) && IsQuad(low) && IsHigh(QuadValue(high)) && IsLow(QuadValue(low))
  }

  predicate UnitsOk(units: seq<Unit>) {
    forall i :: 0 <= i < |units| ==> UnitOk(units[i])
  }

  function WriteUnit(unit: Unit): bytes {
    match unit
    case Raw(b) => [b]
    case Short(letter) => [BACKSLASH, letter]
    case Escape(quad) => [BACKSLASH, LETTER_U] + quad
    case SurrogatePair(high, low) => [BACKSLASH, LETTER_U] + high + [BACKSLASH, LETTER_U] + low
  }

  function WriteUnits(units: seq<Unit>): bytes {
    if units == [] then [] else WriteUnit(units[0]) + WriteUnits(units[1..])
  }

  /** The code point an escape stands for. */
  function Scalar(unit: Unit): (c: nat)
    requires UnitOk(unit) && (unit.Escape? || unit.SurrogatePair?)
    ensures c < 0x110000 && !IsHigh(c) && !IsLow(c)
  {
    if unit.Escape? then QuadValue(unit.quad) else Combine(QuadValue(unit.high), QuadValue(unit.low))
  }

  function DenoteUnit(unit: Unit): bytes
    requires UnitOk(unit)
  {
    match unit
    case Raw(b) => [b]
    case Short(letter) => [ShortEscape(letter)]
    case _ => PushedBytes(Scalar(unit))
  }

  function DenoteUnits(units: seq<Unit>): bytes
    requires UnitsOk(units)
  {
    if units == [] then [] else DenoteUnit(units[0]) + DenoteUnits(units[1..])
  }

  predicate ItemOk(item: Item)
    decreases item
  {
    AllSpace(item.before) && SyntaxOk(item.syn) && AllSpace(item.after)
  }

  predicate PairOk(pair: Pair)
    decreases pair
  {
    AllSpace(pair.beforeKey) && UnitsOk(pair.key) && AllSpace(pair.beforeColon) && ItemOk(pair.item)
  }

  predicate SyntaxOk(syn: Syntax)
    decreases syn
  {
    match syn
    case Number(token) =>
      && token != [] && (IsDigit(token[0]) || token[0] == MINUS)
      && (forall i :: 0 <= i < |token| ==> IsNumberByte(token[i]))
      && NumberValue(token).Some?
    case Text(units) => UnitsOk(units)
    case Array(inner, items) => AllSpace(inner) && forall i :: 0 <= i < |items| ==> ItemOk(items[i])
    case Object(inner, pairs) => AllSpace(inner) && forall i :: 0 <= i < |pairs| ==> PairOk(pairs[i])
    case _ => true
  }

  function WriteItem(item: Item): bytes
    decreases item
  {
    item.before + Write(item.syn) + item.after
  }

  function WriteItems(items: seq<Item>): bytes
    decreases items
  {
    if items == [] then []
    else if |items| == 1 then WriteItem(items[0])
    else WriteItem(items[0]) + [COMMA] + WriteItems(items[1..])
  }

  function WriteKey(pair: Pair): bytes {
    pair.beforeKey + [QUOTE] + WriteUnits(pair.key) + [QUOTE] + pair.beforeColon + [COLON]
  }

  function WritePairs(pairs: seq<Pair>): bytes
    decreases pairs
  {
    if pairs == [] then []
    else if |pairs| == 1 then WriteKey(pairs[0]) + WriteItem(pairs[0].item)
    else WriteKey(pairs[0]) + WriteItem(pairs[0].item) + [COMMA] + WritePairs(pairs[1..])
  }

  /** The text of a tree. The spaces `inner` stand inside brackets that hold nothing else. */
  function Write(syn: Syntax): bytes
    decreases syn
  {
    match syn
    case NullWord => [LETTER_N] + ULL
    case FalseWord => [LETTER_F] + ALSE
    case TrueWord => [LETTER_T] + RUE
    case Number(token) => token
    case Text(units) => [QUOTE] + WriteUnits(units) + [QUOTE]
    case Array(inner, items) =>
      [OPEN_ARRAY] + (if items == [] then inner else WriteItems(items)) + [CLOSE_ARRAY]
    case Object(inner, pairs) =>
      [OPEN_OBJECT] + (if pairs == [] then inner else WritePairs(pairs)) + [CLOSE_OBJECT]
  }

  function DenoteItems(items: seq<Item>): seq<Value>
    requires forall i :: 0 <= i < |items| ==> ItemOk(items[i])
    decreases items
  {
    if items == [] then [] else assert ItemOk(items[0]); [Denote(items[0].syn)] + DenoteItems(items[1..])
  }

  /** Assigns the pairs into `members` from left to right, so the last value of a key stays. */
  function Assign(members: seq<Member>, pairs: seq<Pair>): seq<Member>
    requires forall i :: 0 <= i < |pairs| ==> PairOk(pairs[i])
    decreases pairs
  {
    if pairs == [] then members
    else
      assert PairOk(pairs[0]) && ItemOk(pairs[0].item);
      Assign(Put(members, DenoteUnits(pairs[0].key), Denote(pairs[0].item.syn)), pairs[1..])
  }

  function Denote(syn: Syntax): Value
    requires SyntaxOk(syn)
    decreases syn
  {
    match syn
    case NullWord => Null
    case FalseWord => Bool(false)
    case TrueWord => Bool(true)
    case Number(token) => NumberValue(token).value
    case Text(units) => Str(DenoteUnits(units))
    case Array(_, items) => Arr(DenoteItems(items))
    case Object(_, pairs) => Obj(Assign([], pairs))
  }

  /** A number is maximal: what comes after it is no number byte. */
  predicate Follows(syn: Syntax, rest: bytes) {
    syn.Number? && rest != [] ==> !IsNumberByte(rest[0])
  }

  /** The tape after reading `syn`: only a number looks at the byte behind it. */
  function EndTape(syn: Syntax, rest: bytes): Tape {
    if syn.Number? then Peeked(rest) else Tape(rest, Taken)
  }

  // ---------- Every text of the grammar is accepted ----------

  lemma {:induction false} SkipsSpaces(ws: bytes, rest: bytes)
    requires AllSpace(ws)
    requires rest != [] ==> !IsSpace(rest[0])
    ensures SkipSpace(ws + rest) == rest
  {
    if ws == [] {
      assert ws + rest == rest;
    } else {
      assert (ws + rest)[1..] == ws[1..] + rest;
      SkipsSpaces(ws[1..], rest);
    }
  }

  lemma ExpectsByte(c: byte, ws: bytes, b: byte, rest: bytes)
    requires AllSpace(ws) && !IsSpace(b)
    ensures Expect(c, ws + [b] + rest)
         == if b == c then (true, Tape(rest, Taken)) else (false, Tape([b] + rest, PushedBack))
  {
    assert ws + [b] + rest == ws + ([b] + rest);
    SkipsSpaces(ws, [b] + rest);
  }

  /** Every text starts with a byte that is neither a space nor a closing bracket. */
  lemma FirstByte(syn: Syntax)
    requires SyntaxOk(syn)
    ensures Write(syn) != [] && !IsSpace(Write(syn)[0])
    ensures Write(syn)[0] != CLOSE_ARRAY && Write(syn)[0] != CLOSE_OBJECT
  {
  }

  lemma ReadsQuad(q: bytes, rest: bytes)
    requires IsQuad(q)
    ensures Quad(q + rest) == Done(QuadValue(q), Tape(rest, Taken))
  {
    var u := q + rest;
    assert u[1..][1..] == u[2..] && u[2..][1..] == u[3..] && u[3..][1..] == u[4..] && u[4..] == rest;
    var a := HexValue(q[0]);
    var b := 16 * a + HexValue(q[1]);
    var c := 16 * b + HexValue(q[2]);
    assert QuadHex(u, 4, 0) == QuadHex(u[1..], 3, a);
    assert QuadHex(u[1..], 3, a) == QuadHex(u[2..], 2, b);
    assert QuadHex(u[2..], 2, b) == QuadHex(u[3..], 1, c);
    assert QuadHex(u[3..], 1, c) == QuadHex(rest, 0, 16 * c + HexValue(q[3]));
  }

  /**
   * Where an escape with a surrogate stops: behind a low one; behind a high one at the end, at a
   * byte that does not continue a pair, or where the second quad stops or ends.
   */
  lemma SurrogateStops(q: bytes, x: bytes)
    requires IsQuad(q)
    ensures IsLow(QuadValue(q)) ==> CodePoint(q + x) == Stop(Tape(x, Taken))
    ensures IsHigh(QuadValue(q)) ==>
              && (x == [] || x == ['\\' as int] ==> CodePoint(q + x) == Stop(Tape([], Nothing)))
              && (x != [] && x[0] != '\\' as int ==> CodePoint(q + x) == Stop(Tape(x, PushedBack)))
              && (|x| >= 2 && x[0] == '\\' as int && x[1] != 'u' as int ==>
                   CodePoint(q + x) == Stop(Tape(x[1..], PushedBack)))
              && (|x| >= 2 && x[0] == '\\' as int && x[1] == 'u' as int &&
                  (Quad(x[2..]).Stop? || !IsLow(Quad(x[2..]).out)) ==>
                   CodePoint(q + x) == Stop(Quad(x[2..]).tape))
  {
    hide Quad, QuadValue, PushedBytes;
    ReadsQuad(q, x);
  }

  lemma ReadsCodePoint(unit: Unit, rest: bytes)
    requires UnitOk(unit) && (unit.Escape? || unit.SurrogatePair?)
    ensures CodePoint(WriteUnit(unit)[2..] + rest) == Done(PushedBytes(Scalar(unit)), Tape(rest, Taken))
  {
    hide Quad, PushedBytes;
    if unit.Escape? {
      assert WriteUnit(unit)[2..] == unit.quad;
      ReadsQuad(unit.quad, rest);
    } else {
      var second := [BACKSLASH, LETTER_U] + unit.low + rest;
      assert WriteUnit(unit)[2..] + rest == unit.high + second;
      ReadsQuad(unit.high, second);
      assert second[2..] == unit.low + rest;
      ReadsQuad(unit.low, rest);
    }
  }

  lemma ReadsEscape(unit: Unit, rest: bytes, sofar: bytes)
    requires UnitOk(unit) && (unit.Escape? || unit.SurrogatePair?)
    ensures StringBody(WriteUnit(unit) + rest, sofar) == StringBody(rest, sofar + PushedBytes(Scalar(unit)))
  {
    hide CodePoint, PushedBytes;
    var u := WriteUnit(unit) + rest;
    assert u[2..] == WriteUnit(unit)[2..] + rest;
    ReadsCodePoint(unit, rest);
    hide WriteUnit, Scalar, UnitOk;
    assert u[0] == BACKSLASH && u[1] == LETTER_U && u[1..] != [];
  }

  lemma ReadsUnit(unit: Unit, rest: bytes, sofar: bytes)
    requires UnitOk(unit)
    ensures StringBody(WriteUnit(unit) + rest, sofar) == StringBody(rest, sofar + DenoteUnit(unit))
  {
    hide CodePoint, PushedBytes, Scalar;
    match unit
    case Raw(b) =>
      assert ([b] + rest)[1..] == rest;
    case Short(letter) =>
      assert ([BACKSLASH, letter] + rest)[2..] == rest;
    case _ =>
      hide StringBody;
      ReadsEscape(unit, rest, sofar);
  }

  /** A well-formed string body is read to its closing quote and yields what its units denote. */
  lemma {:induction false} ReadsUnits(units: seq<Unit>, rest: bytes, sofar: bytes)
    requires UnitsOk(units)
    ensures StringBody(WriteUnits(units) + [QUOTE] + rest, sofar) == Done(sofar + DenoteUnits(units), Tape(rest, Taken))
  {
    hide WriteUnit, DenoteUnit, CodePoint;
    var u := WriteUnits(units) + [QUOTE] + rest;
    if units == [] {
      assert u[1..] == rest;
      assert sofar + [] == sofar;
    } else {
      var more := WriteUnits(units[1..]) + [QUOTE] + rest;
      assert u == WriteUnit(units[0]) + more;
      ReadsUnit(units[0], more, sofar);
      ReadsUnits(units[1..], rest, sofar + DenoteUnit(units[0]));
      assert sofar + DenoteUnit(units[0]) + DenoteUnits(units[1..]) == sofar + DenoteUnits(units);
    }
  }

  lemma {:induction false} ReadsToken(token: bytes, rest: bytes)
    requires forall i :: 0 <= i < |token| ==> IsNumberByte(token[i])
    requires rest != [] ==> !IsNumberByte(rest[0])
    ensures NumberToken(token + rest) == token
  {
    if token == [] {
      assert token + rest == rest;
    } else {
      assert (token + rest)[1..] == token[1..] + rest;
      ReadsToken(token[1..], rest);
      assert token == [token[0]] + token[1..];
    }
  }

  lemma ReadsWord(pattern: bytes, v: Value, rest: bytes)
    ensures ReadWord(pattern, v, pattern + rest) == Done(v, Tape(rest, Taken))
  {
    MatchIsPrefix(pattern, pattern + rest);
  }

  lemma ReadsNumber(token: bytes, rest: bytes)
    requires SyntaxOk(Number(token)) && Follows(Number(token), rest)
    ensures ReadNumber(token + rest) == Done(NumberValue(token).value, Peeked(rest))
  {
    hide NumberValue;
    ReadsToken(token, rest);
    assert (token + rest)[|token|..] == rest;
  }

  lemma ReadsText(units: seq<Unit>, rest: bytes)
    requires UnitsOk(units)
    ensures ReadString(WriteUnits(units) + [QUOTE] + rest) == Done(Str(DenoteUnits(units)), Tape(rest, Taken))
  {
    hide StringBody, DenoteUnits, WriteUnits;
    ReadsUnits(units, rest, []);
    assert [] + DenoteUnits(units) == DenoteUnits(units);
  }

  lemma SpacesBefore(ws: bytes, t: bytes)
    requires AllSpace(ws) && t != [] && !IsSpace(t[0])
    ensures ReadValue(ws + t) == ReadValue(t) && SkipSpace(t) == t
  {
    SkipsSpaces(ws, t);
  }

  lemma ReadsAtom(syn: Syntax, rest: bytes)
    requires SyntaxOk(syn) && Follows(syn, rest) && !syn.Array? && !syn.Object?
    ensures ReadValue(Write(syn) + rest) == Done(Denote(syn), EndTape(syn, rest))
  {
    hide NumberValue, DenoteUnits, ReadWord, ReadNumber, ReadString, ReadArray, ReadObject, WriteUnits, UnitsOk;
    var t := Write(syn) + rest;
    FirstByte(syn);
    SpacesBefore([], t);
    match syn
    case NullWord =>
      assert t[1..] == ULL + rest;
      ReadsWord(ULL, Null, rest);
    case FalseWord =>
      assert t[1..] == ALSE + rest;
      ReadsWord(ALSE, Bool(false), rest);
    case TrueWord =>
      assert t[1..] == RUE + rest;
      ReadsWord(RUE, Bool(true), rest);
    case Number(token) =>
      ReadsNumber(token, rest);
    case Text(units) =>
      assert t[1..] == WriteUnits(units) + [QUOTE] + rest;
      ReadsText(units, rest);
  }

  lemma {:induction false} ReadsBracketed(syn: Syntax, rest: bytes)
    requires SyntaxOk(syn) && (syn.Array? || syn.Object?)
    ensures ReadValue(Write(syn) + rest) == Done(Denote(syn), Tape(rest, Taken))
    decreases syn, 0
  {
    hide Assign, DenoteItems, ReadArray, ReadObject, WriteItems, WritePairs, ItemOk, PairOk, AllSpace;
    var t := Write(syn) + rest;
    match syn
    case Array(inner, items) =>
      ReadsArray(inner, items, rest);
      assert t[1..] == (if items == [] then inner else WriteItems(items)) + [CLOSE_ARRAY] + rest;
      assert SkipSpace(t) == t && t[0] == OPEN_ARRAY;
    case Object(inner, pairs) =>
      ReadsObject(inner, pairs, rest);
      assert t[1..] == (if pairs == [] then inner else WritePairs(pairs)) + [CLOSE_OBJECT] + rest;
      assert SkipSpace(t) == t && t[0] == OPEN_OBJECT;
  }

  /** Every text of the grammar is read whole, whatever follows it, and yields what it denotes. */
  lemma {:induction false} ReadsSyntax(ws: bytes, syn: Syntax, rest: bytes)
    requires AllSpace(ws) && SyntaxOk(syn) && Follows(syn, rest)
    ensures ReadValue(ws + Write(syn) + rest) == Done(Denote(syn), EndTape(syn, rest))
    decreases syn, 1
  {
    hide ReadValue, Denote, Write, SyntaxOk, AllSpace;
    assert ws + Write(syn) + rest == ws + (Write(syn) + rest);
    FirstByte(syn);
    SpacesBefore(ws, Write(syn) + rest);
    if syn.Array? || syn.Object? {
      ReadsBracketed(syn, rest);
    } else {
      ReadsAtom(syn, rest);
    }
  }

  /** An item is read up to the spaces behind it, if a byte that ends it comes next. */
  lemma {:induction false} ReadsItem(item: Item, b: byte, rest: bytes)
    requires ItemOk(item) && !IsSpace(b) && !IsNumberByte(b)
    ensures ReadValue(WriteItem(item) + [b] + rest).Done?
    ensures ReadValue(WriteItem(item) + [b] + rest).out == Denote(item.syn)
    ensures ReadValue(WriteItem(item) + [b] + rest).tape.rest == item.after + [b] + rest
    decreases item
  {
    hide ReadValue, Denote, Write;
    var behind := item.after + [b] + rest;
    assert Follows(item.syn, behind) by {
      assert behind[0] == if item.after == [] then b else item.after[0];
    }
    ReadsSyntax(item.before, item.syn, behind);
    assert WriteItem(item) + [b] + rest == item.before + Write(item.syn) + behind;
  }

  lemma SpacesBeforeItems(u: bytes, sofar: seq<Value>)
    ensures ReadItems(SkipSpace(u), sofar) == ReadItems(u, sofar)
  {
    hide Expect;
    SkipsSpaces([], SkipSpace(u));
    assert [] + SkipSpace(u) == SkipSpace(u);
    assert ReadValue(SkipSpace(u)) == ReadValue(u);
  }

  lemma SpacesBeforeMembers(u: bytes, sofar: seq<Member>)
    ensures ReadMembers(SkipSpace(u), sofar) == ReadMembers(u, sofar)
  {
  }

  lemma {:induction false} ReadsItems(items: seq<Item>, rest: bytes, sofar: seq<Value>)
    requires items != [] && forall i :: 0 <= i < |items| ==> ItemOk(items[i])
    ensures ReadItems(WriteItems(items) + [CLOSE_ARRAY] + rest, sofar)
         == Done(Arr(sofar + DenoteItems(items)), Tape(rest, Taken))
    decreases items, 0
  {
    hide ReadValue, Denote, WriteItem, Expect;
    var item, u := items[0], WriteItems(items) + [CLOSE_ARRAY] + rest;
    if |items| == 1 {
      ReadsItem(item, CLOSE_ARRAY, rest);
      ExpectsByte(COMMA, item.after, CLOSE_ARRAY, rest);
      assert [] + [CLOSE_ARRAY] + rest == [CLOSE_ARRAY] + rest;
      ExpectsByte(CLOSE_ARRAY, [], CLOSE_ARRAY, rest);
      assert DenoteItems(items) == [Denote(item.syn)];
    } else {
      var more := WriteItems(items[1..]) + [CLOSE_ARRAY] + rest;
      assert u == WriteItem(item) + [COMMA] + more;
      ReadsItem(item, COMMA, more);
      ExpectsByte(COMMA, item.after, COMMA, more);
      ReadsItems(items[1..], rest, sofar + [Denote(item.syn)]);
      assert sofar + [Denote(item.syn)] + DenoteItems(items[1..]) == sofar + DenoteItems(items);
    }
  }

  lemma {:induction false} ReadsArray(inner: bytes, items: seq<Item>, rest: bytes)
    requires AllSpace(inner) && forall i :: 0 <= i < |items| ==> ItemOk(items[i])
    ensures ReadArray((if items == [] then inner else WriteItems(items)) + [CLOSE_ARRAY] + rest)
         == Done(Arr(DenoteItems(items)), Tape(rest, Taken))
    decreases items, 1
  {
    hide ReadItems, Write, WriteItems, ItemOk, SkipSpace;
    if items == [] {
      ExpectsByte(CLOSE_ARRAY, inner, CLOSE_ARRAY, rest);
    } else {
      hide DenoteItems;
      var u := WriteItems(items) + [CLOSE_ARRAY] + rest;
      var b, more := FirstItem(items);
      assert u == items[0].before + [b] + (more + [CLOSE_ARRAY] + rest);
      ExpectsByte(CLOSE_ARRAY, items[0].before, b, more + [CLOSE_ARRAY] + rest);
      ExpectMisses(CLOSE_ARRAY, u);
      SpacesBeforeItems(u, []);
      ReadsItems(items, rest, []);
      assert [] + DenoteItems(items) == DenoteItems(items);
    }
  }

  lemma FirstItem(items: seq<Item>) returns (b: byte, more: bytes)
    requires items != [] && ItemOk(items[0])
    ensures AllSpace(items[0].before) && !IsSpace(b) && b != CLOSE_ARRAY
    ensures WriteItems(items) == items[0].before + [b] + more
  {
    hide Write, SyntaxOk, AllSpace;
    var item := items[0];
    FirstByte(item.syn);
    b := Write(item.syn)[0];
    assert |item.before| + 1 <= |WriteItem(item)| <= |WriteItems(items)|;
    more := WriteItems(items)[|item.before| + 1..];
    assert WriteItem(item)[..|item.before| + 1] == item.before + [b];
    assert WriteItems(items)[..|WriteItem(item)|] == WriteItem(item);
  }

  lemma ReadsKey(pair: Pair, rest: bytes)
    requires PairOk(pair)
    ensures ReadKey(WriteKey(pair) + rest) == Done(DenoteUnits(pair.key), Tape(rest, Taken))
  {
    hide StringBody, Expect, SyntaxOk;
    var afterKey := pair.beforeColon + [COLON] + rest;
    var body := WriteUnits(pair.key) + [QUOTE] + afterKey;
    assert WriteKey(pair) + rest == pair.beforeKey + [QUOTE] + body;
    ExpectsByte(QUOTE, pair.beforeKey, QUOTE, body);
    ReadsUnits(pair.key, afterKey, []);
    assert [] + DenoteUnits(pair.key) == DenoteUnits(pair.key);
    ExpectsByte(COLON, pair.beforeColon, COLON, rest);
  }

  /** A pair is read up to the byte `b` that ends it, which is then looked at. */
  lemma {:induction false} ReadsPair(pair: Pair, b: byte, rest: bytes)
    requires PairOk(pair) && !IsSpace(b) && !IsNumberByte(b)
    ensures UnitsOk(pair.key) && SyntaxOk(pair.item.syn)
    ensures var w := WriteItem(pair.item) + [b] + rest;
            && ReadKey(WriteKey(pair) + w) == Done(DenoteUnits(pair.key), Tape(w, Taken))
            && ReadValue(w).Done? && ReadValue(w).out == Denote(pair.item.syn)
            && Expect(COMMA, ReadValue(w).tape.rest)
            == if b == COMMA then (true, Tape(rest, Taken)) else (false, Tape([b] + rest, PushedBack))
    decreases pair
  {
    hide ReadValue, ReadKey, Denote, WriteItem, WriteKey, Expect, DenoteUnits;
    assert ItemOk(pair.item);
    ReadsItem(pair.item, b, rest);
    ReadsKey(pair, WriteItem(pair.item) + [b] + rest);
    ExpectsByte(COMMA, pair.item.after, b, rest);
  }

  lemma {:induction false} ReadsPairs(pairs: seq<Pair>, rest: bytes, sofar: seq<Member>)
    requires pairs != [] && forall i :: 0 <= i < |pairs| ==> PairOk(pairs[i])
    ensures ReadMembers(WritePairs(pairs) + [CLOSE_OBJECT] + rest, sofar)
         == Done(Obj(Assign(sofar, pairs)), Tape(rest, Taken))
    decreases pairs, 0
  {
    hide ReadValue, ReadKey, Denote, WriteItem, WriteKey, Expect, Put, DenoteUnits, PairOk, UnitsOk, SyntaxOk;
    var pair := pairs[0];
    if |pairs| == 1 {
      ReadsPair(pair, CLOSE_OBJECT, rest);
      assert [] + [CLOSE_OBJECT] + rest == [CLOSE_OBJECT] + rest;
      ExpectsByte(CLOSE_OBJECT, [], CLOSE_OBJECT, rest);
      assert WritePairs(pairs) + [CLOSE_OBJECT] + rest
          == WriteKey(pair) + (WriteItem(pair.item) + [CLOSE_OBJECT] + rest);
    } else {
      var more := WritePairs(pairs[1..]) + [CLOSE_OBJECT] + rest;
      ReadsPair(pair, COMMA, more);
      ReadsPairs(pairs[1..], rest, Put(sofar, DenoteUnits(pair.key), Denote(pair.item.syn)));
      assert WritePairs(pairs) + [CLOSE_OBJECT] + rest == WriteKey(pair) + (WriteItem(pair.item) + [COMMA] + more);
    }
  }

  lemma {:induction false} ReadsObject(inner: bytes, pairs: seq<Pair>, rest: bytes)
    requires AllSpace(inner) && forall i :: 0 <= i < |pairs| ==> PairOk(pairs[i])
    ensures ReadObject((if pairs == [] then inner else WritePairs(pairs)) + [CLOSE_OBJECT] + rest)
         == Done(Obj(Assign([], pairs)), Tape(rest, Taken))
    decreases pairs, 1
  {
    hide ReadMembers, Denote, WritePairs, PairOk, SkipSpace;
    if pairs == [] {
      ExpectsByte(CLOSE_OBJECT, inner, CLOSE_OBJECT, rest);
    } else {
      hide Assign;
      var u := WritePairs(pairs) + [CLOSE_OBJECT] + rest;
      var more := FirstKey(pairs);
      assert u == pairs[0].beforeKey + [QUOTE] + (more + [CLOSE_OBJECT] + rest);
      ExpectsByte(CLOSE_OBJECT, pairs[0].beforeKey, QUOTE, more + [CLOSE_OBJECT] + rest);
      ExpectMisses(CLOSE_OBJECT, u);
      SpacesBeforeMembers(u, []);
      ReadsPairs(pairs, rest, []);
    }
  }

  lemma FirstKey(pairs: seq<Pair>) returns (more: bytes)
    requires pairs != [] && PairOk(pairs[0])
    ensures AllSpace(pairs[0].beforeKey) && WritePairs(pairs) == pairs[0].beforeKey + [QUOTE] + more
  {
    hide WriteUnits, WriteItem, AllSpace, UnitsOk;
    var pair := pairs[0];
    more := WritePairs(pairs)[|pair.beforeKey| + 1..];
    assert WriteKey(pair)[..|pair.beforeKey| + 1] == pair.beforeKey + [QUOTE];
    assert WritePairs(pairs)[..|WriteKey(pair)|] == WriteKey(pair);
  }

  /** A missed byte leaves what is there once spaces are skipped. */
  lemma ExpectMisses(c: byte, u: bytes)
    requires !Expect(c, u).0
    ensures Expect(c, u).1.rest == SkipSpace(u)
  {
  }
}
