/**
 * Canonical form: what parsing forgets (spaces, repeated keys), that its results are maps, and when
 * equality of values is equality of their texts.
 */
module JsonCanonical {
  import opened Bytes
  import opened JsonValue
  import opened JsonParser
  import opened JsonGrammar
  import opened JsonAcceptance
  import opened JsonSerializer
  import opened JsonRoundTrip

  // ---------- Spaces ----------

  function SqueezeItem(item: Item): Item
    decreases item
  {
    Item([], Squeeze(item.syn), [])
  }

  function SqueezeItems(items: seq<Item>): (r: seq<Item>)
    ensures |r| == |items|
    decreases items
  {
    if items == [] then [] else [SqueezeItem(items[0])] + SqueezeItems(items[1..])
  }

  function SqueezePairs(pairs: seq<Pair>): (r: seq<Pair>)
    ensures |r| == |pairs|
    decreases pairs
  {
    if pairs == [] then [] else [Pair([], pairs[0].key, [], SqueezeItem(pairs[0].item))] + SqueezePairs(pairs[1..])
  }

  /** The same tokens without any spaces between them. */
  function Squeeze(syn: Syntax): Syntax
    decreases syn
  {
    match syn
    case Array(_, items) => Array([], SqueezeItems(items))
    case Object(_, pairs) => Object([], SqueezePairs(pairs))
    case _ => syn
  }

  lemma {:induction false} SqueezeItemsKeep(items: seq<Item>)
    requires forall i :: 0 <= i < |items| ==> ItemOk(items[i])
    ensures forall i :: 0 <= i < |items| ==> ItemOk(SqueezeItems(items)[i])
    ensures DenoteItems(SqueezeItems(items)) == DenoteItems(items)
    decreases items
  {
    hide Denote, SyntaxOk;
    if items != [] {
      assert ItemOk(items[0]);
      SqueezeKeeps(items[0].syn);
      assert ItemOk(SqueezeItem(items[0]));
      SqueezeItemsKeep(items[1..]);
      assert SqueezeItems(items)[1..] == SqueezeItems(items[1..]);
    }
  }

  lemma {:induction false} SqueezePairsKeep(pairs: seq<Pair>, members: seq<Member>)
    requires forall i :: 0 <= i < |pairs| ==> PairOk(pairs[i])
    ensures forall i :: 0 <= i < |pairs| ==> PairOk(SqueezePairs(pairs)[i])
    ensures Assign(members, SqueezePairs(pairs)) == Assign(members, pairs)
    decreases pairs
  {
    hide Denote, SyntaxOk, Put, DenoteUnits, UnitsOk;
    if pairs != [] {
      assert PairOk(pairs[0]) && ItemOk(pairs[0].item);
      SqueezeKeeps(pairs[0].item.syn);
      assert ItemOk(SqueezeItem(pairs[0].item)) && PairOk(SqueezePairs(pairs)[0]);
      SqueezePairsKeep(pairs[1..], Put(members, DenoteUnits(pairs[0].key), Denote(pairs[0].item.syn)));
      assert SqueezePairs(pairs)[1..] == SqueezePairs(pairs[1..]);
    }
  }

  lemma {:induction false} SqueezeKeeps(syn: Syntax)
    requires SyntaxOk(syn)
    ensures SyntaxOk(Squeeze(syn)) && Denote(Squeeze(syn)) == Denote(syn)
    decreases syn
  {
    match syn
    case Array(_, items) => SqueezeItemsKeep(items);
    case Object(_, pairs) => SqueezePairsKeep(pairs, []);
    case _ =>
  }

  /** Texts with the same tokens parse alike, whatever spaces stand before and between them. */
  lemma SpacesDoNotMatter(ws1: bytes, syn1: Syntax, ws2: bytes, syn2: Syntax, rest: bytes)
    requires AllSpace(ws1) && SyntaxOk(syn1) && Follows(syn1, rest)
    requires AllSpace(ws2) && SyntaxOk(syn2) && Squeeze(syn1) == Squeeze(syn2)
    ensures ReadValue(ws1 + Write(syn1) + rest).Done?
    ensures ReadValue(ws1 + Write(syn1) + rest) == ReadValue(ws2 + Write(syn2) + rest)
  {
    hide ReadValue, Write, Denote, SyntaxOk;
    assert Squeeze(syn1).Number? == syn1.Number? && Squeeze(syn2).Number? == syn2.Number?;
    SqueezeKeeps(syn1);
    SqueezeKeeps(syn2);
    ReadsSyntax(ws1, syn1, rest);
    ReadsSyntax(ws2, syn2, rest);
  }

  // ---------- Objects ----------

  lemma {:induction false} AssignKeepsOrder(members: seq<Member>, pairs: seq<Pair>)
    requires forall i :: 0 <= i < |pairs| ==> PairOk(pairs[i])
    requires KeysIncrease(members) && forall m :: m in members ==> Sorted(m.value)
    ensures KeysIncrease(Assign(members, pairs)) && forall m :: m in Assign(members, pairs) ==> Sorted(m.value)
    decreases pairs
  {
    hide Denote, SyntaxOk, DenoteUnits, UnitsOk, Sorted, KeysIncrease, Put;
    if pairs != [] {
      assert PairOk(pairs[0]) && ItemOk(pairs[0].item);
      var key, v := DenoteUnits(pairs[0].key), Denote(pairs[0].item.syn);
      DenotesSorted(pairs[0].item.syn);
      PutKeepsOrder(members, key, v);
      AssignKeepsOrder(Put(members, key, v), pairs[1..]);
    }
  }

  lemma {:induction false} ItemsDenoteSorted(items: seq<Item>)
    requires forall i :: 0 <= i < |items| ==> ItemOk(items[i])
    ensures forall i :: 0 <= i < |DenoteItems(items)| ==> Sorted(DenoteItems(items)[i])
    decreases items
  {
    hide Denote, SyntaxOk, Sorted;
    if items != [] {
      assert ItemOk(items[0]);
      DenotesSorted(items[0].syn);
      ItemsDenoteSorted(items[1..]);
    }
  }

  lemma {:induction false} DenotesSorted(syn: Syntax)
    requires SyntaxOk(syn)
    ensures Sorted(Denote(syn))
    decreases syn
  {
    match syn
    case Array(_, items) => ItemsDenoteSorted(items);
    case Object(_, pairs) =>
      AssignKeepsOrder([], pairs);
      assert forall i :: 0 <= i < |Assign([], pairs)| ==> Assign([], pairs)[i] in Assign([], pairs);
    case _ =>
  }

  /** Whatever is parsed, every object in it has distinct keys in order. */
  lemma ParsedObjectsAreMaps(u: bytes)
    requires ReadValue(u).Done?
    ensures Sorted(ReadValue(u).out)
  {
    hide ReadValue, Denote, Sorted, Write, SyntaxOk;
    var ws, syn := SplitValue(u);
    DenotesSorted(syn);
  }

  /** An object holds the keys of its pairs and of `members`, and no others. */
  lemma {:induction false} AssignedKeys(members: seq<Member>, pairs: seq<Pair>, key: bytes)
    requires KeysIncrease(members) && forall i :: 0 <= i < |pairs| ==> PairOk(pairs[i])
    ensures HasKey(Assign(members, pairs), key)
       <==> HasKey(members, key) ||
            exists i :: 0 <= i < |pairs| && UnitsOk(pairs[i].key) && DenoteUnits(pairs[i].key) == key
    ensures KeysIncrease(Assign(members, pairs))
    decreases pairs
  {
    hide Denote, SyntaxOk, DenoteUnits, UnitsOk, KeysIncrease, Put, HasKey;
    if pairs != [] {
      assert PairOk(pairs[0]) && ItemOk(pairs[0].item);
      var k, v := DenoteUnits(pairs[0].key), Denote(pairs[0].item.syn);
      PutKeepsOrder(members, k, v);
      AssignedKeys(Put(members, k, v), pairs[1..], key);
      assert forall i :: 0 < i < |pairs| ==> pairs[i] == pairs[1..][i - 1];
    }
  }

  /** The value of a key is that of the last pair with it. */
  lemma {:induction false} LastValueStays(members: seq<Member>, pairs: seq<Pair>, i: nat)
    requires KeysIncrease(members) && forall j :: 0 <= j < |pairs| ==> PairOk(pairs[j])
    requires i < |pairs| && UnitsOk(pairs[i].key) && SyntaxOk(pairs[i].item.syn)
    requires forall j :: i < j < |pairs| ==>
               UnitsOk(pairs[j].key) && DenoteUnits(pairs[j].key) != DenoteUnits(pairs[i].key)
    ensures HasKey(Assign(members, pairs), DenoteUnits(pairs[i].key))
    ensures Lookup(Assign(members, pairs), DenoteUnits(pairs[i].key)) == Denote(pairs[i].item.syn)
    decreases pairs
  {
    hide Denote, SyntaxOk, DenoteUnits, UnitsOk, KeysIncrease, Put, HasKey, Lookup;
    assert PairOk(pairs[0]) && ItemOk(pairs[0].item);
    var key, v := DenoteUnits(pairs[0].key), Denote(pairs[0].item.syn);
    PutKeepsOrder(members, key, v);
    var rest := pairs[1..];
    if i > 0 {
      assert rest[i - 1] == pairs[i] && forall j :: i - 1 < j < |rest| ==> rest[j] == pairs[j + 1];
      LastValueStays(Put(members, key, v), rest, i - 1);
    } else {
      assert forall j :: 0 <= j < |rest| ==> rest[j] == pairs[j + 1];
      LookupAfterPut(members, key, v, key);
      OthersStay(Put(members, key, v), rest, key);
    }
  }

  lemma {:induction false} OthersStay(members: seq<Member>, pairs: seq<Pair>, key: bytes)
    requires KeysIncrease(members) && HasKey(members, key) && forall j :: 0 <= j < |pairs| ==> PairOk(pairs[j])
    requires forall j :: 0 <= j < |pairs| ==> UnitsOk(pairs[j].key) && DenoteUnits(pairs[j].key) != key
    ensures HasKey(Assign(members, pairs), key)
    ensures Lookup(Assign(members, pairs), key) == Lookup(members, key)
    decreases pairs
  {
    hide Denote, SyntaxOk, DenoteUnits, UnitsOk, KeysIncrease, Put, HasKey, Lookup;
    if pairs != [] {
      assert PairOk(pairs[0]) && ItemOk(pairs[0].item);
      var k, v := DenoteUnits(pairs[0].key), Denote(pairs[0].item.syn);
      PutKeepsOrder(members, k, v);
      LookupAfterPut(members, k, v, key);
      OthersStay(Put(members, k, v), pairs[1..], key);
    }
  }

  // ---------- Equality ----------

  function Signed(negative: bool, magnitude: nat): int {
    if negative then 0 - magnitude else magnitude as int
  }

  predicate EqualItems(xs: seq<Value>, ys: seq<Value>)
    requires forall i :: 0 <= i < |xs| ==> Integral(xs[i])
    requires forall i :: 0 <= i < |ys| ==> Integral(ys[i])
    decreases xs
  {
    |xs| == |ys| && forall i :: 0 <= i < |xs| ==> Equal(xs[i], ys[i])
  }

  predicate EqualMembers(xs: seq<Member>, ys: seq<Member>)
    requires forall i :: 0 <= i < |xs| ==> Integral(xs[i].value)
    requires forall i :: 0 <= i < |ys| ==> Integral(ys[i].value)
    decreases xs
  {
    |xs| == |ys| && forall i :: 0 <= i < |xs| ==> xs[i].key == ys[i].key && Equal(xs[i].value, ys[i].value)
  }

  /** operator==: numbers compare as doubles, so 0 equals -0. */
  predicate Equal(x: Value, y: Value)
    requires Integral(x) && Integral(y)
    decreases x
  {
    match (x, y)
    case (Null, Null) => true
    case (Bool(a), Bool(b)) => a == b
    case (Num(s, m), Num(t, n)) => Signed(s, m) == Signed(t, n)
    case (Str(a), Str(b)) => a == b
    case (Arr(xs), Arr(ys)) => EqualItems(xs, ys)
    case (Obj(xs), Obj(ys)) => EqualMembers(xs, ys)
    case _ => false
  }

  /** No number in the tree is zero. */
  predicate ZeroFree(v: Value)
    decreases v
  {
    match v
    case Num(_, m) => m != 0
    case Arr(items) => forall i :: 0 <= i < |items| ==> ZeroFree(items[i])
    case Obj(members) => forall i :: 0 <= i < |members| ==> ZeroFree(members[i].value)
    case _ => true
  }

  /** No number in the tree is -0. */
  predicate NoNegativeZero(v: Value)
    decreases v
  {
    match v
    case Num(s, m) => !(s && m == 0)
    case Arr(items) => forall i :: 0 <= i < |items| ==> NoNegativeZero(items[i])
    case Obj(members) => forall i :: 0 <= i < |members| ==> NoNegativeZero(members[i].value)
    case _ => true
  }

  /** The same tree with the sign of every zero turned over. */
  function FlipZeros(v: Value): Value
    decreases v
  {
    match v
    case Num(s, m) => if m == 0 then Num(!s, m) else v
    case Arr(items) => Arr(seq(|items|, i requires 0 <= i < |items| => FlipZeros(items[i])))
    case Obj(members) =>
      Obj(seq(|members|, i requires 0 <= i < |members| => Member(members[i].key, FlipZeros(members[i].value))))
    case _ => v
  }

  lemma {:induction false} EqualIsReflexive(v: Value)
    requires Integral(v)
    ensures Equal(v, v)
    decreases v
  {
    match v
    case Arr(items) =>
      forall i | 0 <= i < |items| ensures Equal(items[i], items[i]) { EqualIsReflexive(items[i]); }
    case Obj(members) =>
      forall i | 0 <= i < |members| ensures Equal(members[i].value, members[i].value) {
        EqualIsReflexive(members[i].value);
      }
    case _ =>
  }

  /** Equal trees are the same tree if zeros cannot differ in sign. */
  lemma {:induction false} EqualMeansSame(x: Value, y: Value)
    requires Integral(x) && Integral(y) && Equal(x, y)
    requires ZeroFree(x) || (NoNegativeZero(x) && NoNegativeZero(y))
    ensures x == y
    decreases x
  {
    match (x, y)
    case (Arr(xs), Arr(ys)) =>
      forall i | 0 <= i < |xs| ensures xs[i] == ys[i] { EqualMeansSame(xs[i], ys[i]); }
    case (Obj(xs), Obj(ys)) =>
      forall i | 0 <= i < |xs| ensures xs[i] == ys[i] { EqualMeansSame(xs[i].value, ys[i].value); }
    case _ =>
  }

  lemma {:induction false} FlipKeeps(v: Value)
    requires Printable(v)
    ensures Printable(FlipZeros(v)) && Equal(v, FlipZeros(v))
    ensures FlipZeros(v) == v <==> ZeroFree(v)
    decreases v
  {
    match v
    case Arr(items) =>
      forall i | 0 <= i < |items|
        ensures Printable(FlipZeros(items[i])) && Equal(items[i], FlipZeros(items[i]))
        ensures FlipZeros(items[i]) == items[i] <==> ZeroFree(items[i])
      {
        FlipKeeps(items[i]);
      }
      var flipped := FlipZeros(v).items;
      assert forall i :: 0 <= i < |items| ==> flipped[i] == FlipZeros(items[i]);
      assert FlipZeros(v) == v <==> forall i :: 0 <= i < |items| ==> flipped[i] == items[i];
    case Obj(members) =>
      forall i | 0 <= i < |members|
        ensures Printable(FlipZeros(members[i].value)) && Equal(members[i].value, FlipZeros(members[i].value))
        ensures FlipZeros(members[i].value) == members[i].value <==> ZeroFree(members[i].value)
      {
        FlipKeeps(members[i].value);
      }
      var flipped := FlipZeros(v).members;
      assert forall i :: 0 <= i < |members| ==> flipped[i] == Member(members[i].key, FlipZeros(members[i].value));
      assert FlipZeros(v) == v <==> forall i :: 0 <= i < |members| ==> flipped[i] == members[i];
    case _ =>
  }

  /** Equal values print alike, and only they do, as long as no number is -0. */
  lemma EqualIffPrintedAlike(g: RealText, x: Value, y: Value)
    requires Printable(x) && Printable(y) && NoNegativeZero(x) && NoNegativeZero(y)
    ensures Equal(x, y) <==> Print(g, x) == Print(g, y)
  {
    hide Print, Equal;
    if Equal(x, y) {
      EqualMeansSame(x, y);
    }
    if Print(g, x) == Print(g, y) {
      PrintIsInjective(g, x, y);
      EqualIsReflexive(x);
    }
  }

  /** 0 and -0 are equal and print differently. */
  lemma ZerosPrintApart(g: RealText)
    ensures Equal(Num(false, 0), Num(true, 0)) && Print(g, Num(false, 0)) != Print(g, Num(true, 0))
  {
  }

  /** For which `x` the texts decide equality with every value: exactly those without a zero. */
  lemma TextDecidesEqualityIffZeroFree(g: RealText, x: Value)
    requires Printable(x)
    ensures (forall y | Printable(y) :: Equal(x, y) <==> Print(g, x) == Print(g, y)) <==> ZeroFree(x)
  {
    hide Print, Equal, Sorted, Integral;
    if ZeroFree(x) {
      forall y | Printable(y) ensures Equal(x, y) <==> Print(g, x) == Print(g, y) {
        if Equal(x, y) {
          EqualMeansSame(x, y);
        }
        if Print(g, x) == Print(g, y) {
          PrintIsInjective(g, x, y);
          EqualIsReflexive(x);
        }
      }
    } else {
      var y := FlipZeros(x);
      FlipKeeps(x);
      if Print(g, x) == Print(g, y) {
        PrintIsInjective(g, x, y);
      }
    }
  }

  /** The same tree with every -0 made 0. */
  function PlainZeros(v: Value): Value
    decreases v
  {
    match v
    case Num(s, m) => if m == 0 then Num(false, m) else v
    case Arr(items) => Arr(seq(|items|, i requires 0 <= i < |items| => PlainZeros(items[i])))
    case Obj(members) =>
      Obj(seq(|members|, i requires 0 <= i < |members| => Member(members[i].key, PlainZeros(members[i].value))))
    case _ => v
  }

  lemma {:induction false} PlainZerosKeep(v: Value)
    requires Printable(v)
    ensures Printable(PlainZeros(v))
    decreases v
  {
    match v
    case Arr(items) =>
      forall i | 0 <= i < |items| ensures Printable(PlainZeros(items[i])) { PlainZerosKeep(items[i]); }
    case Obj(members) =>
      forall i | 0 <= i < |members| ensures Printable(PlainZeros(members[i].value)) {
        PlainZerosKeep(members[i].value);
      }
    case _ =>
  }

  lemma {:induction false} EqualIffSamePlain(x: Value, y: Value)
    requires Integral(x) && Integral(y)
    ensures Equal(x, y) <==> PlainZeros(x) == PlainZeros(y)
    decreases x
  {
    match (x, y)
    case (Arr(xs), Arr(ys)) =>
      assert |PlainZeros(x).items| == |xs| && |PlainZeros(y).items| == |ys|;
      if |xs| == |ys| {
        forall i | 0 <= i < |xs| ensures Equal(xs[i], ys[i]) <==> PlainZeros(xs[i]) == PlainZeros(ys[i]) {
          EqualIffSamePlain(xs[i], ys[i]);
        }
        PlainItems(xs, ys);
      }
    case (Obj(xs), Obj(ys)) =>
      assert |PlainZeros(x).members| == |xs| && |PlainZeros(y).members| == |ys|;
      if |xs| == |ys| {
        forall i | 0 <= i < |xs|
          ensures Equal(xs[i].value, ys[i].value) <==> PlainZeros(xs[i].value) == PlainZeros(ys[i].value)
        {
          EqualIffSamePlain(xs[i].value, ys[i].value);
        }
        PlainMembers(xs, ys);
      }
    case _ =>
  }

  lemma PlainItems(xs: seq<Value>, ys: seq<Value>)
    requires |xs| == |ys|
    ensures PlainZeros(Arr(xs)) == PlainZeros(Arr(ys)) <==>
            forall i :: 0 <= i < |xs| ==> PlainZeros(xs[i]) == PlainZeros(ys[i])
  {
    var us, vs := PlainZeros(Arr(xs)).items, PlainZeros(Arr(ys)).items;
    assert forall i :: 0 <= i < |xs| ==> us[i] == PlainZeros(xs[i]) && vs[i] == PlainZeros(ys[i]);
  }

  lemma PlainMembers(xs: seq<Member>, ys: seq<Member>)
    requires |xs| == |ys|
    ensures PlainZeros(Obj(xs)) == PlainZeros(Obj(ys)) <==>
            forall i :: 0 <= i < |xs| ==> xs[i].key == ys[i].key && PlainZeros(xs[i].value) == PlainZeros(ys[i].value)
  {
    var us, vs := PlainZeros(Obj(xs)).members, PlainZeros(Obj(ys)).members;
    assert forall i :: 0 <= i < |xs| ==>
             us[i] == Member(xs[i].key, PlainZeros(xs[i].value)) && vs[i] == Member(ys[i].key, PlainZeros(ys[i].value));
  }

  /** For all trees: two values are equal exactly if they print alike once every -0 is made 0. */
  lemma EqualIffPlainPrintedAlike(g: RealText, x: Value, y: Value)
    requires Printable(x) && Printable(y)
    ensures Equal(x, y) <==> Print(g, PlainZeros(x)) == Print(g, PlainZeros(y))
  {
    hide Print, Equal, PlainZeros, Sorted, Integral;
    EqualIffSamePlain(x, y);
    PlainZerosKeep(x);
    PlainZerosKeep(y);
    if Print(g, PlainZeros(x)) == Print(g, PlainZeros(y)) {
      PrintIsInjective(g, PlainZeros(x), PlainZeros(y));
    }
  }

  /** Printing what was parsed, and parsing and printing that again, changes nothing more. */
  lemma SecondPassChangesNothing(g: RealText, u: bytes)
    requires ReadValue(u).Done? && Integral(ReadValue(u).out)
    ensures ReadValue(Print(g, ReadValue(u).out)).Done?
    ensures ReadValue(Print(g, ReadValue(u).out)).out == ReadValue(u).out
    ensures ReadValue(Print(g, ReadValue(u).out)).tape.rest == []
  {
    hide ReadValue, Print, Sorted, Integral;
    ParsedObjectsAreMaps(u);
    PrintThenParse(g, ReadValue(u).out, []);
    assert Print(g, ReadValue(u).out) + [] == Print(g, ReadValue(u).out);
  }
}
