/**
 * The value tree of picojson. A std::map keyed by std::string is the sequence of its entries in
 * strictly increasing key order, where keys compare as strings of unsigned bytes.
 */
module JsonValue {
  import opened Bytes

  /** Integers of smaller magnitude are doubles that print with "%.f". */
  const EXACT_LIMIT: nat := 0x20_0000_0000_0000

  type exact = n: nat | n < EXACT_LIMIT

  datatype Value =
    | Null
    | Bool(b: bool)
    | Num(negative: bool, magnitude: exact)
      // an integer; its sign bit is kept, so -0 is not 0
    | Float(token: bytes)
      // a double read from any other numeral, known only by that text
    | Str(s: bytes)
    | Arr(items: seq<Value>)
    | Obj(members: seq<Member>)

  datatype Member = Member(key: bytes, value: Value)

  /** std::string's operator<. */
  predicate Less(a: bytes, b: bytes) {
    b != [] && (a == [] || a[0] < b[0] || (a[0] == b[0] && Less(a[1..], b[1..])))
  }

  lemma {:induction false} LessIsTransitive(a: bytes, b: bytes, c: bytes)
    requires Less(a, b) && Less(b, c)
    ensures Less(a, c)
  {
    if a != [] && a[0] == b[0] && b[0] == c[0] {
      LessIsTransitive(a[1..], b[1..], c[1..]);
    }
  }

  lemma {:induction false} LessIsTotal(a: bytes, b: bytes)
    ensures Less(a, b) || Less(b, a) || a == b
    ensures !(Less(a, b) && Less(b, a))
    ensures Less(a, b) ==> a != b
  {
    if a != [] && b != [] && a[0] == b[0] {
      LessIsTotal(a[1..], b[1..]);
      assert a == [a[0]] + a[1..] && b == [b[0]] + b[1..];
    }
  }

  /** The strings agree up to place `i`, and there `a` has the smaller byte. */
  predicate SmallerAt(a: bytes, b: bytes, i: nat) {
    i < |a| && i < |b| && a[..i] == b[..i] && a[i] < b[i]
  }

  lemma SmallerFurtherOn(a: bytes, b: bytes, i: nat)
    requires 0 < i < |a| && i < |b|
    ensures SmallerAt(a, b, i) <==> a[0] == b[0] && SmallerAt(a[1..], b[1..], i - 1)
  {
    assert a[..i] == [a[0]] + a[1..][..i - 1] && b[..i] == [b[0]] + b[1..][..i - 1];
  }

  /** The first byte in which two strings differ decides, and a proper prefix comes first. */
  lemma {:induction false} LessIsLexicographic(a: bytes, b: bytes)
    ensures Less(a, b) <==> (a != b && a <= b) || exists i :: 0 <= i < |a| && SmallerAt(a, b, i)
  {
    if a != [] && b != [] {
      assert a == [a[0]] + a[1..] && b == [b[0]] + b[1..];
      forall i | 0 < i < |a| && i < |b|
        ensures SmallerAt(a, b, i) <==> a[0] == b[0] && SmallerAt(a[1..], b[1..], i - 1)
      {
        SmallerFurtherOn(a, b, i);
      }
      assert SmallerAt(a, b, 0) <==> a[0] < b[0];
      if a[0] == b[0] {
        LessIsLexicographic(a[1..], b[1..]);
        if i :| 0 <= i < |a[1..]| && SmallerAt(a[1..], b[1..], i) {
          assert SmallerAt(a, b, i + 1);
        }
      }
    }
  }

  predicate KeysIncrease(members: seq<Member>) {
    forall i, j :: 0 <= i < j < |members| ==> Less(members[i].key, members[j].key)
  }

  /** Every object in the tree is a map: its keys are distinct and in order. */
  predicate Sorted(v: Value)
    decreases v
  {
    match v
    case Arr(items) => forall i :: 0 <= i < |items| ==> Sorted(items[i])
    case Obj(members) =>
      KeysIncrease(members) && forall i :: 0 <= i < |members| ==> Sorted(members[i].value)
    case _ => true
  }

  /** Every number in the tree is an integer of magnitude below EXACT_LIMIT. */
  predicate Integral(v: Value)
    decreases v
  {
    match v
    case Float(_) => false
    case Arr(items) => forall i :: 0 <= i < |items| ==> Integral(items[i])
    case Obj(members) => forall i :: 0 <= i < |members| ==> Integral(members[i].value)
    case _ => true
  }

  predicate Printable(v: Value) {
    Sorted(v) && Integral(v)
  }

  /** What `o[key] = v` leaves in the map. */
  function Put(members: seq<Member>, key: bytes, v: Value): seq<Member> {
    if members == [] || Less(key, members[0].key) then [Member(key, v)] + members
    else if members[0].key == key then [Member(key, v)] + members[1..]
    else [members[0]] + Put(members[1..], key, v)
  }

  predicate HasKey(members: seq<Member>, key: bytes) {
    exists i :: 0 <= i < |members| && members[i].key == key
  }

  /** What std::map::find yields, for a key that is present. */
  function Lookup(members: seq<Member>, key: bytes): Value
    requires HasKey(members, key)
  {
    if members[0].key == key then members[0].value else Lookup(members[1..], key)
  }

  lemma HasKeyCons(m: Member, rest: seq<Member>, k: bytes)
    ensures HasKey([m] + rest, k) <==> m.key == k || HasKey(rest, k)
  {
    var all := [m] + rest;
    assert all[0] == m && forall i :: 0 <= i < |rest| ==> all[i + 1] == rest[i];
    if HasKey(rest, k) {
      var i :| 0 <= i < |rest| && rest[i].key == k;
      assert all[i + 1].key == k;
    }
  }

  lemma {:induction false} PutKeys(members: seq<Member>, key: bytes, v: Value, k: bytes)
    ensures HasKey(Put(members, key, v), k) <==> k == key || HasKey(members, k)
  {
    hide HasKey;
    if members == [] || Less(key, members[0].key) {
      HasKeyCons(Member(key, v), members, k);
    } else {
      var rest := members[1..];
      assert members == [members[0]] + rest;
      HasKeyCons(members[0], rest, k);
      if members[0].key == key {
        HasKeyCons(Member(key, v), rest, k);
      } else {
        PutKeys(rest, key, v, k);
        HasKeyCons(members[0], Put(rest, key, v), k);
      }
    }
  }

  /** A member in front of larger keys keeps the order. */
  lemma OrderCons(m: Member, rest: seq<Member>)
    requires KeysIncrease(rest) && forall k :: HasKey(rest, k) ==> Less(m.key, k)
    ensures KeysIncrease([m] + rest)
  {
  }

  lemma OrderTail(members: seq<Member>)
    requires members != [] && KeysIncrease(members)
    ensures KeysIncrease(members[1..])
    ensures forall k :: HasKey(members[1..], k) ==> Less(members[0].key, k)
  {
  }

  lemma {:induction false} PutOrder(members: seq<Member>, key: bytes, v: Value)
    requires KeysIncrease(members)
    ensures KeysIncrease(Put(members, key, v))
  {
    hide KeysIncrease, HasKey;
    if members == [] {
      SingletonOrder(Member(key, v));
      assert Put(members, key, v) == [Member(key, v)];
    } else {
      var first, rest := members[0], members[1..];
      assert members == [first] + rest;
      OrderTail(members);
      if Less(key, first.key) {
        forall k | HasKey(members, k) ensures Less(key, k) {
          HasKeyCons(first, rest, k);
          if k != first.key {
            LessIsTransitive(key, first.key, k);
          }
        }
        OrderCons(Member(key, v), members);
      } else if first.key == key {
        OrderCons(Member(key, v), rest);
      } else {
        LessIsTotal(key, first.key);
        PutOrder(rest, key, v);
        forall k | HasKey(Put(rest, key, v), k) ensures Less(first.key, k) {
          PutKeys(rest, key, v, k);
        }
        OrderCons(first, Put(rest, key, v));
      }
    }
  }

  lemma SingletonOrder(m: Member)
    ensures KeysIncrease([m])
  {
  }

  /** Assignment keeps a map a map, and adds no key but its own. */
  lemma {:induction false} PutKeepsOrder(members: seq<Member>, key: bytes, v: Value)
    requires KeysIncrease(members)
    ensures KeysIncrease(Put(members, key, v))
    ensures forall k :: HasKey(Put(members, key, v), k) <==> k == key || HasKey(members, k)
    ensures forall m :: m in Put(members, key, v) ==> m == Member(key, v) || m in members
  {
    hide KeysIncrease, HasKey;
    PutOrder(members, key, v);
    forall k ensures HasKey(Put(members, key, v), k) <==> k == key || HasKey(members, k) {
      PutKeys(members, key, v, k);
    }
    PutMembers(members, key, v);
  }

  lemma {:induction false} PutMembers(members: seq<Member>, key: bytes, v: Value)
    ensures forall m :: m in Put(members, key, v) ==> m == Member(key, v) || m in members
  {
    if members != [] && !Less(key, members[0].key) && members[0].key != key {
      PutMembers(members[1..], key, v);
    }
  }

  /** Assigning a key sets that key and no other. */
  lemma {:induction false} LookupAfterPut(members: seq<Member>, key: bytes, v: Value, k: bytes)
    requires KeysIncrease(members)
    requires k == key || HasKey(members, k)
    ensures HasKey(Put(members, key, v), k)
    ensures Lookup(Put(members, key, v), k) == if k == key then v else Lookup(members, k)
  {
    PutKeepsOrder(members, key, v);
    if members != [] && !Less(key, members[0].key) && members[0].key != key {
      assert KeysIncrease(members[1..]);
      assert Put(members, key, v)[1..] == Put(members[1..], key, v);
      if k != members[0].key {
        if k != key {
          var j :| 0 <= j < |members| && members[j].key == k;
          assert members[1..][j - 1].key == k;
        }
        LookupAfterPut(members[1..], key, v, k);
      }
    } else if members == [] || Less(key, members[0].key) {
      assert Put(members, key, v)[1..] == members;
      LessIsTotal(key, if members == [] then key else members[0].key);
    } else {
      assert Put(members, key, v)[1..] == members[1..];
    }
  }
}
