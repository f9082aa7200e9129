/**
 * Printing and parsing undo each other. The printed text of a value is the text of a syntax tree
 * without spaces that denotes the value, so the grammar results carry over.
 */
module JsonRoundTrip {
  import opened Wrappers
  import opened Bytes
  import opened JsonValue
  import opened JsonInput
  import opened JsonStrings
  import opened JsonNumbers
  import opened JsonParser
  import opened JsonGrammar
  import opened JsonSerializer

  function SpellByte(b: byte): Unit {
    match b
    case 0x22 => Short(QUOTE)
    case 0x5C => Short(BACKSLASH)
    case 0x2F => Short(0x2F)
    case 0x08 => Short(0x62)
    case 0x0C => Short(0x66)
    case 0x0A => Short(0x6E)
    case 0x0D => Short(0x72)
    case 0x09 => Short(0x74)
    case _ => if IsControl(b) then Escape([ZERO, ZERO, HexDigit(b / 16), HexDigit(b % 16)]) else Raw(b)
  }

  function SpellBytes(s: bytes): seq<Unit> {
    seq(|s|, i requires 0 <= i < |s| => SpellByte(s[i]))
  }

  function Bare(syn: Syntax): Item {
    Item([], syn, [])
  }

  function SpellItems(items: seq<Value>): seq<Item>
    requires forall i :: 0 <= i < |items| ==> Integral(items[i])
    decreases items
  {
    if items == [] then [] else SpellItems(items[..|items| - 1]) + [Bare(Spell(items[|items| - 1]))]
  }

  function SpellMembers(members: seq<Member>): seq<Pair>
    requires forall i :: 0 <= i < |members| ==> Integral(members[i].value)
    decreases members
  {
    if members == [] then []
    else
      var last := members[|members| - 1];
      SpellMembers(members[..|members| - 1]) + [Pair([], SpellBytes(last.key), [], Bare(Spell(last.value)))]
  }

  /** The tree whose text the printer writes. */
  function Spell(v: Value): Syntax
    requires Integral(v)
    decreases v
  {
    match v
    case Null => NullWord
    case Bool(b) => if b then TrueWord else FalseWord
    case Num(negative, magnitude) => Number(PrintNumber(negative, magnitude))
    case Float(_) => assert false; NullWord
    case Str(s) => Text(SpellBytes(s))
    case Arr(items) => Array([], SpellItems(items))
    case Obj(members) => Object([], SpellMembers(members))
  }

  lemma SpellByteOk(b: byte)
    ensures UnitOk(SpellByte(b)) && WriteUnit(SpellByte(b)) == PrintByte(b) && DenoteUnit(SpellByte(b)) == [b]
  {
  }

  lemma {:induction false} WriteUnitsAppend(units: seq<Unit>, last: Unit)
    requires UnitsOk(units) && UnitOk(last)
    ensures WriteUnits(units + [last]) == WriteUnits(units) + WriteUnit(last)
    ensures UnitsOk(units + [last])
    ensures DenoteUnits(units + [last]) == DenoteUnits(units) + DenoteUnit(last)
  {
    hide WriteUnit, DenoteUnit, UnitOk;
    if units == [] {
      assert [] + [last] == [last];
      assert WriteUnits([last][1..]) == [] && DenoteUnits([last][1..]) == [];
    } else {
      assert (units + [last])[1..] == units[1..] + [last];
      WriteUnitsAppend(units[1..], last);
    }
  }

  lemma {:induction false} SpellBytesOk(s: bytes)
    ensures UnitsOk(SpellBytes(s))
    ensures WriteUnits(SpellBytes(s)) == PrintBytes(s) && DenoteUnits(SpellBytes(s)) == s
  {
    hide WriteUnit, DenoteUnit, UnitOk, SpellByte, PrintByte;
    if s != [] {
      var front, b := s[..|s| - 1], s[|s| - 1];
      SpellBytesOk(front);
      SpellByteOk(b);
      WriteUnitsAppend(SpellBytes(front), SpellByte(b));
      assert SpellBytes(s) == SpellBytes(front) + [SpellByte(b)];
      assert s == front + [b];
    }
  }

  lemma SpellNumberOk(negative: bool, magnitude: nat)
    requires magnitude < EXACT_LIMIT
    ensures SyntaxOk(Number(PrintNumber(negative, magnitude)))
    ensures NumberValue(PrintNumber(negative, magnitude)) == Some(Num(negative, magnitude))
  {
    hide NumberValue, Magnitude, Decimal;
    var digits := Decimal(magnitude);
    MagnitudeOfDecimal(magnitude);
    DigitsAreRead(negative, digits);
  }

  lemma {:induction false} WriteItemsAppend(items: seq<Item>, last: Item)
    ensures WriteItems(items + [last])
         == WriteItems(items) + (if items == [] then [] else [COMMA]) + WriteItem(last)
  {
    hide WriteItem;
    if items == [] {
      assert [] + [last] == [last];
    } else {
      var more := items[1..];
      assert (items + [last])[1..] == more + [last];
      WriteItemsAppend(more, last);
      assert WriteItems(items + [last]) == WriteItem(items[0]) + [COMMA] + WriteItems(more + [last]);
    }
  }

  lemma {:induction false} DenoteItemsAppend(items: seq<Item>, last: Item)
    requires ItemOk(last) && forall i :: 0 <= i < |items| ==> ItemOk(items[i])
    ensures SyntaxOk(last.syn)
    ensures DenoteItems(items + [last]) == DenoteItems(items) + [Denote(last.syn)]
  {
    hide Denote, SyntaxOk;
    assert ItemOk(last);
    if items == [] {
      assert [] + [last] == [last];
    } else {
      assert (items + [last])[1..] == items[1..] + [last];
      DenoteItemsAppend(items[1..], last);
    }
  }

  lemma {:induction false} WritePairsAppend(pairs: seq<Pair>, last: Pair)
    ensures WritePairs(pairs + [last])
         == WritePairs(pairs) + (if pairs == [] then [] else [COMMA]) + (WriteKey(last) + WriteItem(last.item))
  {
    hide WriteItem, WriteKey;
    if pairs == [] {
      assert [] + [last] == [last];
    } else {
      var more := pairs[1..];
      var head, end := WriteKey(pairs[0]) + WriteItem(pairs[0].item), WriteKey(last) + WriteItem(last.item);
      assert (pairs + [last])[1..] == more + [last];
      WritePairsAppend(more, last);
      assert WritePairs(pairs + [last]) == head + [COMMA] + WritePairs(more + [last]);
      if more == [] {
        assert WritePairs(pairs) == head && WritePairs(more + [last]) == end;
      } else {
        assert WritePairs(pairs) == head + [COMMA] + WritePairs(more);
      }
    }
  }

  lemma {:induction false} AssignAppend(members: seq<Member>, pairs: seq<Pair>, last: Pair)
    requires PairOk(last) && forall i :: 0 <= i < |pairs| ==> PairOk(pairs[i])
    ensures UnitsOk(last.key) && SyntaxOk(last.item.syn)
    ensures Assign(members, pairs + [last])
         == Put(Assign(members, pairs), DenoteUnits(last.key), Denote(last.item.syn))
    decreases pairs
  {
    hide Denote, DenoteUnits, UnitsOk, SyntaxOk, Put;
    assert PairOk(last) && ItemOk(last.item);
    if pairs == [] {
      assert [] + [last] == [last];
    } else {
      assert (pairs + [last])[1..] == pairs[1..] + [last];
      assert PairOk(pairs[0]) && ItemOk(pairs[0].item);
      AssignAppend(Put(members, DenoteUnits(pairs[0].key), Denote(pairs[0].item.syn)), pairs[1..], last);
    }
  }

  /** A key above all others goes to the end. */
  lemma {:induction false} PutAtEnd(members: seq<Member>, key: bytes, v: Value)
    requires forall i :: 0 <= i < |members| ==> Less(members[i].key, key)
    ensures Put(members, key, v) == members + [Member(key, v)]
  {
    if members != [] {
      LessIsTotal(members[0].key, key);
      PutAtEnd(members[1..], key, v);
    }
  }

  /** The spelling of `v` is well-formed, is written as `v` is printed, and denotes `v`. */
  predicate Spelled(g: RealText, v: Value)
    requires Integral(v)
  {
    SyntaxOk(Spell(v)) && Write(Spell(v)) == Print(g, v) && Denote(Spell(v)) == v
  }

  lemma {:induction false} SpellItemsOk(g: RealText, items: seq<Value>)
    requires forall i :: 0 <= i < |items| ==> Integral(items[i]) && Spelled(g, items[i])
    ensures |SpellItems(items)| == |items|
    ensures forall i :: 0 <= i < |items| ==> ItemOk(SpellItems(items)[i])
    ensures WriteItems(SpellItems(items)) == PrintItems(g, items) && DenoteItems(SpellItems(items)) == items
  {
    hide Spell, Spelled, Print, Denote, SyntaxOk, Integral, ItemOk, WriteItem;
    if items != [] {
      hide SpellItems, PrintItems, WriteItems, DenoteItems;
      var front, last := items[..|items| - 1], items[|items| - 1];
      SpellItemsOk(g, front);
      LastItem(g, items);
      SpellItemOk(g, last);
      WriteItemsAppend(SpellItems(front), Bare(Spell(last)));
      DenoteItemsAppend(SpellItems(front), Bare(Spell(last)));
      assert items == front + [last];
    }
  }

  /** The last item's part of the spelling and of the text. */
  lemma LastItem(g: RealText, items: seq<Value>)
    requires items != [] && forall i :: 0 <= i < |items| ==> Integral(items[i])
    ensures Integral(items[|items| - 1])
    ensures var front, last := items[..|items| - 1], items[|items| - 1];
            && SpellItems(items) == SpellItems(front) + [Bare(Spell(last))]
            && PrintItems(g, items) == PrintItems(g, front) + (if front == [] then [] else [COMMA]) + Print(g, last)
  {
    hide Spell, Print, Integral;
  }

  lemma SpellItemOk(g: RealText, v: Value)
    requires Integral(v) && Spelled(g, v)
    ensures ItemOk(Bare(Spell(v))) && WriteItem(Bare(Spell(v))) == Print(g, v)
    ensures SyntaxOk(Spell(v)) && Denote(Spell(v)) == v
  {
    hide Spell, Print, Write, Denote, SyntaxOk;
  }

  /** The last member's part of the spelling and of the text. */
  lemma LastMember(g: RealText, members: seq<Member>)
    requires members != [] && forall i :: 0 <= i < |members| ==> Integral(members[i].value)
    ensures Integral(members[|members| - 1].value)
    ensures var front, last := members[..|members| - 1], members[|members| - 1];
            && SpellMembers(members)
            == SpellMembers(front) + [Pair([], SpellBytes(last.key), [], Bare(Spell(last.value)))]
            && PrintMembers(g, members) == PrintMembers(g, front) + (if front == [] then [] else [COMMA]) +
                                        (PrintString(last.key) + [COLON] + Print(g, last.value))
  {
    hide Spell, Print, SpellBytes, PrintString, Integral;
  }

  predicate Means(pair: Pair, m: Member) {
    && PairOk(pair) && UnitsOk(pair.key) && SyntaxOk(pair.item.syn)
    && m == Member(DenoteUnits(pair.key), Denote(pair.item.syn))
  }

  lemma {:induction false} SpellMembersOk(g: RealText, members: seq<Member>)
    requires forall i :: 0 <= i < |members| ==> Integral(members[i].value) && Spelled(g, members[i].value)
    ensures |SpellMembers(members)| == |members|
    ensures forall i :: 0 <= i < |members| ==> Means(SpellMembers(members)[i], members[i])
    ensures WritePairs(SpellMembers(members)) == PrintMembers(g, members)
  {
    hide Spell, Spelled, Print, Integral, SpellBytes, WriteItem, WriteKey, PrintString, Means;
    if members != [] {
      hide SpellMembers, PrintMembers, WritePairs;
      var front, last := members[..|members| - 1], members[|members| - 1];
      SpellMembersOk(g, front);
      LastMember(g, members);
      var pair := Pair([], SpellBytes(last.key), [], Bare(Spell(last.value)));
      SpellPairOk(g, last, pair);
      WritePairsAppend(SpellMembers(front), pair);
    }
  }

  lemma SpellPairOk(g: RealText, m: Member, pair: Pair)
    requires Integral(m.value) && Spelled(g, m.value)
    requires pair == Pair([], SpellBytes(m.key), [], Bare(Spell(m.value)))
    ensures Means(pair, m)
    ensures WriteItem(pair.item) == Print(g, m.value) && WriteKey(pair) == PrintString(m.key) + [COLON]
  {
    hide Spell, Print, Write, Denote, SyntaxOk, SpellBytes, UnitsOk, DenoteUnits, WriteUnits, PrintBytes;
    SpellBytesOk(m.key);
    assert ItemOk(pair.item);
  }

  /** Pairs whose keys increase are assigned as they stand. */
  lemma {:induction false} AssignInOrder(members: seq<Member>, pairs: seq<Pair>)
    requires |pairs| == |members| && forall i :: 0 <= i < |pairs| ==> Means(pairs[i], members[i])
    requires KeysIncrease(members)
    ensures forall i :: 0 <= i < |pairs| ==> PairOk(pairs[i])
    ensures Assign([], pairs) == members
  {
    hide Denote, SyntaxOk, UnitsOk, DenoteUnits, PairOk, Put;
    if members != [] {
      hide Assign;
      var n := |members| - 1;
      var front, last := members[..n], members[n];
      AssignInOrder(front, pairs[..n]);
      AssignAppend([], pairs[..n], pairs[n]);
      PutAtEnd(front, last.key, last.value);
      assert pairs == pairs[..n] + [pairs[n]] && members == front + [last];
    }
  }

  /** An array's tree of items without spaces. */
  lemma ItemsInBrackets(items: seq<Item>)
    requires forall i :: 0 <= i < |items| ==> ItemOk(items[i])
    ensures SyntaxOk(Array([], items)) && Denote(Array([], items)) == Arr(DenoteItems(items))
    ensures Write(Array([], items)) == [OPEN_ARRAY] + WriteItems(items) + [CLOSE_ARRAY]
  {
    hide ItemOk, DenoteItems;
    assert WriteItems([]) == [];
  }

  lemma SpellArrayOk(g: RealText, items: seq<Value>)
    requires forall i :: 0 <= i < |items| ==> Integral(items[i]) && Spelled(g, items[i])
    ensures Spelled(g, Arr(items))
  {
    assert Spell(Arr(items)) == Array([], SpellItems(items));
    assert Print(g, Arr(items)) == [OPEN_ARRAY] + PrintItems(g, items) + [CLOSE_ARRAY];
    hide SpellItems, WriteItems, PrintItems, DenoteItems, ItemOk, Spell, Print, Write, Denote, SyntaxOk;
    SpellItemsOk(g, items);
    ItemsInBrackets(SpellItems(items));
  }

  /** An object's tree of pairs without spaces. */
  lemma PairsInBraces(pairs: seq<Pair>)
    requires forall i :: 0 <= i < |pairs| ==> PairOk(pairs[i])
    ensures SyntaxOk(Object([], pairs)) && Denote(Object([], pairs)) == Obj(Assign([], pairs))
    ensures Write(Object([], pairs)) == [OPEN_OBJECT] + WritePairs(pairs) + [CLOSE_OBJECT]
  {
    hide PairOk, Assign;
    assert WritePairs([]) == [];
  }

  lemma SpellObjectOk(g: RealText, members: seq<Member>)
    requires forall i :: 0 <= i < |members| ==> Integral(members[i].value) && Spelled(g, members[i].value)
    requires KeysIncrease(members)
    ensures Spelled(g, Obj(members))
  {
    assert Spell(Obj(members)) == Object([], SpellMembers(members));
    assert Print(g, Obj(members)) == [OPEN_OBJECT] + PrintMembers(g, members) + [CLOSE_OBJECT];
    hide Means, PairOk, KeysIncrease, SpellMembers, WritePairs, PrintMembers, Assign, Spell, Print, Write, Denote,
      SyntaxOk;
    SpellMembersOk(g, members);
    AssignInOrder(members, SpellMembers(members));
    PairsInBraces(SpellMembers(members));
  }

  /** The printed text is the text of a well-formed tree that denotes the printed value. */
  lemma {:induction false} SpellOk(g: RealText, v: Value)
    requires Printable(v)
    ensures Spelled(g, v)
    decreases v
  {
    hide SpellBytes, PrintBytes, PrintNumber, NumberValue;
    match v
    case Num(negative, magnitude) => SpellNumberOk(negative, magnitude);
    case Str(s) => SpellBytesOk(s);
    case Arr(items) =>
      hide Spelled;
      forall i | 0 <= i < |items| ensures Spelled(g, items[i]) {
        SpellOk(g, items[i]);
      }
      SpellArrayOk(g, items);
    case Obj(members) =>
      hide Spelled;
      forall i | 0 <= i < |members| ensures Spelled(g, members[i].value) {
        SpellOk(g, members[i].value);
      }
      SpellObjectOk(g, members);
    case _ =>
  }

  /**
   * Parsing what was printed gives the value back and leaves exactly what followed it unread, if
   * and only if no number runs on into what follows.
   */
  lemma PrintThenParse(g: RealText, v: Value, rest: bytes)
    requires Printable(v)
    ensures v.Num? && rest != [] && IsNumberByte(rest[0]) <==>
            !(ReadValue(Print(g, v) + rest).Done? && ReadValue(Print(g, v) + rest).out == v &&
              ReadValue(Print(g, v) + rest).tape.rest == rest)
    ensures !v.Num? ==> ReadValue(Print(g, v) + rest) == Done(v, Tape(rest, Taken))
  {
    hide ReadValue, Print, Spell, Denote, Write, SyntaxOk;
    SpellOk(g, v);
    assert Spell(v).Number? == v.Num? by {
      SpellKind(v);
    }
    assert [] + Print(g, v) == Print(g, v);
    if !v.Num? || rest == [] || !IsNumberByte(rest[0]) {
      ReadsSyntax([], Spell(v), rest);
    } else {
      NumberRunsOn(g, v, rest);
    }
  }

  lemma SpellKind(v: Value)
    requires Integral(v)
    ensures Spell(v).Number? == v.Num?
  {
  }

  lemma NumberRunsOn(g: RealText, v: Value, rest: bytes)
    requires Integral(v) && v.Num? && rest != [] && IsNumberByte(rest[0])
    ensures ReadValue(Print(g, v) + rest).tape.rest != rest
  {
    hide NumberValue, Decimal;
    var u := Print(g, v) + rest;
    var first := u[0];
    assert IsDigit(first) || first == MINUS by {
      assert Decimal(v.magnitude) != [] && IsDigit(Decimal(v.magnitude)[0]);
    }
    assert SkipSpace(u) == u;
    NumberTokenIsMaximal(u);
    var n := |NumberToken(u)|;
    assert ReadValue(u).tape.rest == u[n..];
    assert n < |u| ==> !IsNumberByte(u[n..][0]);
  }

  /** Different trees print differently. */
  lemma PrintIsInjective(g: RealText, x: Value, y: Value)
    requires Printable(x) && Printable(y) && Print(g, x) == Print(g, y)
    ensures x == y
  {
    hide ReadValue, Print, Printable;
    PrintThenParse(g, x, []);
    PrintThenParse(g, y, []);
  }
}
