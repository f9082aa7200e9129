/**
 * Parameter names collected by Prepare, and the binding of arguments to parameter slots.
 *
 * A statement has `nv` slots, numbered from 1; sqlite3_bind_* writes one slot or reports a range
 * error. A value is None when it is NULL.
 */
module Binding {
  import opened Wrappers
  import opened Bytes

  const DOLLAR: byte := 0x24
  const MAX_INT64: nat := 0x7FFF_FFFF_FFFF_FFFF

  /** The names Prepare keeps: a dollar sign and a digit, then anything. */
  predicate IsNumbered(name: bytes) {
    |name| > 1 && name[0] == DOLLAR && IsDigit(name[1])
  }

  function Numbered(names: seq<bytes>): (nn: seq<bytes>)
    ensures |nn| <= |names|
    ensures forall i :: 0 <= i < |nn| ==> IsNumbered(nn[i])
  {
    if names == [] then []
    else
      var front, last := Numbered(names[..|names| - 1]), names[|names| - 1];
      if IsNumbered(last) then front + [last] else front
  }

  /** Names are kept or not one by one, in their order. */
  lemma {:induction false} NumberedBoth(x: seq<bytes>, y: seq<bytes>)
    ensures Numbered(x + y) == Numbered(x) + Numbered(y)
    decreases |y|
  {
    hide IsNumbered;
    if y == [] {
      assert x + y == x;
    } else {
      var front := y[..|y| - 1];
      assert (x + y)[..|x + y| - 1] == x + front;
      NumberedBoth(x, front);
    }
  }

  /** A name is kept exactly if it starts with a dollar sign and a digit. */
  lemma NumberedOne(name: bytes)
    ensures Numbered([name])
         == if |name| >= 2 && name[0] == '$' as int && '0' as int <= name[1] <= '9' as int then [name] else []
  {
    assert [name][..0] == [] && Numbered([]) == [];
  }

  /** The loop of Prepare over the parameter names; a parameter without a name has the empty one. */
  method CollectNames(names: seq<bytes>) returns (nn: seq<bytes>)
    ensures nn == Numbered(names)
  {
    nn := [];
    for i := 0 to |names|
      invariant nn == Numbered(names[..i])
    {
      var pn := names[i];
      if |pn| > 1 && pn[0] == DOLLAR && 48 <= pn[1] <= 57 {
        nn := nn + [pn];
      }
      assert names[..i + 1][..i] == names[..i];
    }
    assert names[..|names|] == names;
  }

  /** strconv.Atoi on text that starts with a digit. */
  function Atoi(s: bytes): Option<int> {
    if s != [] && AllDigits(s) && Magnitude(s) <= MAX_INT64 then Some(Magnitude(s)) else None
  }

  /** Conversion of a Go int to a 32-bit C int. */
  function CInt(n: int): (c: int)
    ensures -0x8000_0000 <= c < 0x8000_0000
    ensures -0x8000_0000 <= n < 0x8000_0000 ==> c == n
    ensures (c - n) % 0x1_0000_0000 == 0
  {
    (n + 0x8000_0000) % 0x1_0000_0000 - 0x8000_0000
  }

  /** A number is read exactly if it is all decimal digits and fits a signed 64-bit integer. */
  lemma AtoiReads(s: bytes, n: int)
    ensures Atoi(s) == Some(n) <==>
            s != [] && (forall i :: 0 <= i < |s| ==> '0' as int <= s[i] <= '9' as int) &&
            AllDigits(s) && n == Magnitude(s) <= 9223372036854775807
  {
    hide Magnitude;
  }

  datatype BindArg<V> = BindArg(n: int, v: Option<V>)

  /** The entry for argument `i`; an unreadable or missing number leaves the zero entry. */
  function Entry<V>(nn: seq<bytes>, args: seq<Option<V>>, i: nat): BindArg<V>
    requires i < |args| && forall k :: 0 <= k < |nn| ==> IsNumbered(nn[k])
  {
    assert i < |nn| ==> IsNumbered(nn[i]);
    if nn == [] then BindArg(i + 1, args[i])
    else if i < |nn| && Atoi(nn[i][1..]).Some? then BindArg(Atoi(nn[i][1..]).value, args[i])
    else BindArg(0, None)
  }

  function Entries<V>(nn: seq<bytes>, args: seq<Option<V>>): (entries: seq<BindArg<V>>)
    requires forall k :: 0 <= k < |nn| ==> IsNumbered(nn[k])
    ensures |entries| == |args|
  {
    seq(|args|, i requires 0 <= i < |args| => Entry(nn, args, i))
  }

  predicate InRange(slots: nat, n: int) {
    1 <= CInt(n) <= slots
  }

  /** Writes the entries in order, up to the first that is out of range. */
  function BindAll<V>(slots: seq<Option<V>>, entries: seq<BindArg<V>>): (r: (bool, seq<Option<V>>))
    ensures |r.1| == |slots|
    decreases |entries|
  {
    if entries == [] then (true, slots)
    else if !InRange(|slots|, entries[0].n) then (false, slots)
    else BindAll(slots[CInt(entries[0].n) - 1 := entries[0].v], entries[1..])
  }

  /** One prepared statement: the names Prepare kept and the slots SQLite holds. */
  class Stmt<V> {
    const nn: seq<bytes>
    const slots: array<Option<V>>

    ghost predicate Valid() {
      |nn| <= slots.Length && forall k :: 0 <= k < |nn| ==> IsNumbered(nn[k])
    }

    constructor (names: seq<bytes>)
      ensures Valid() && nn == Numbered(names) && slots[..] == seq(|names|, i => None) && fresh(slots)
    {
      var kept := CollectNames(names);
      nn := kept;
      slots := new Option<V>[|names|](i => None);
    }

    /** `resetOk` is what sqlite3_reset reports. Both callers pass one argument for each slot. */
    method Bind(args: seq<Option<V>>, resetOk: bool) returns (ok: bool)
      requires Valid() && |args| == slots.Length
      modifies slots
      ensures !resetOk ==> !ok && slots[..] == old(slots[..])
      ensures resetOk ==> (ok, slots[..]) == BindAll(old(slots[..]), Entries(nn, args))
    {
      hide Atoi, CInt;
      if !resetOk {
        return false;
      }
      var vargs := new BindArg<V>[|args|](i => BindArg(0, None));
      if |nn| > 0 {
        for i := 0 to |nn|
          invariant forall k :: 0 <= k < i ==> vargs[k] == Entry(nn, args, k)
          invariant forall k :: i <= k < |args| ==> vargs[k] == BindArg(0, None)
          invariant slots[..] == old(slots[..])
        {
          var pi := Atoi(nn[i][1..]);
          if pi.Some? {
            vargs[i] := BindArg(pi.value, args[i]);
          }
        }
      } else {
        for i := 0 to |args|
          invariant forall k :: 0 <= k < i ==> vargs[k] == Entry(nn, args, k)
          invariant slots[..] == old(slots[..])
        {
          vargs[i] := BindArg(i + 1, args[i]);
        }
      }
      assert vargs[..] == Entries(nn, args);
      for i := 0 to vargs.Length
        invariant vargs[..] == Entries(nn, args)
        invariant BindAll(slots[..], vargs[i..]) == BindAll(old(slots[..]), vargs[..])
      {
        var n := CInt(vargs[i].n);
        if !(1 <= n <= slots.Length) {
          return false;
        }
        ghost var before := slots[..];
        slots[n - 1] := vargs[i].v;
        assert slots[..] == before[n - 1 := vargs[i].v];
        assert vargs[i..][1..] == vargs[i + 1..];
      }
      return true;
    }
  }

  // ---------- When and where arguments are bound ----------

  lemma {:induction false} BindAllSucceeds<V>(slots: seq<Option<V>>, entries: seq<BindArg<V>>)
    ensures BindAll(slots, entries).0 <==> forall i :: 0 <= i < |entries| ==> InRange(|slots|, entries[i].n)
    decreases |entries|
  {
    if entries != [] && InRange(|slots|, entries[0].n) {
      BindAllSucceeds(slots[CInt(entries[0].n) - 1 := entries[0].v], entries[1..]);
      assert forall i :: 0 < i < |entries| ==> entries[i] == entries[1..][i - 1];
    }
  }

  predicate NumberInRange(nv: nat, name: bytes) {
    |name| > 1 && Atoi(name[1..]).Some? && InRange(nv, Atoi(name[1..]).value)
  }

  /**
   * Binding succeeds exactly if no parameter is numbered by name, or all of them are, with numbers
   * that a C int keeps among the slots.
   */
  lemma BindSucceedsIff<V>(nn: seq<bytes>, args: seq<Option<V>>, slots: seq<Option<V>>)
    requires forall k :: 0 <= k < |nn| ==> IsNumbered(nn[k])
    requires |nn| <= |args| == |slots| < 0x8000_0000
    ensures BindAll(slots, Entries(nn, args)).0 <==>
            nn == [] || (|nn| == |args| && forall i :: 0 <= i < |nn| ==> NumberInRange(|slots|, nn[i]))
  {
    var entries := Entries(nn, args);
    BindAllSucceeds(slots, entries);
    if nn == [] {
      assert forall i :: 0 <= i < |entries| ==> entries[i].n == i + 1;
    } else {
      if |nn| < |args| {
        assert entries[|nn|].n == 0 && !InRange(|slots|, 0);
      }
      forall i | 0 <= i < |nn| ensures InRange(|slots|, entries[i].n) <==> NumberInRange(|slots|, nn[i]) {
        assert entries[i] == Entry(nn, args, i);
        assert !InRange(|slots|, 0);
      }
    }
  }

  predicate Distinct(p: seq<int>) {
    forall i, j :: 0 <= i < j < |p| ==> p[i] != p[j]
  }

  /** `p` lists each of 1..|p| once. */
  predicate IsPermutation(p: seq<int>) {
    Distinct(p) && forall i :: 0 <= i < |p| ==> 1 <= p[i] <= |p|
  }

  /** Entries whose numbers are distinct and in range each reach their own slot. */
  lemma BindFirst<V>(slots: seq<Option<V>>, entries: seq<BindArg<V>>)
    requires entries != [] && |slots| < 0x8000_0000 && 1 <= entries[0].n <= |slots|
    ensures BindAll(slots, entries) == BindAll(slots[entries[0].n - 1 := entries[0].v], entries[1..])
  {
  }

  lemma {:induction false} DistinctEntriesLand<V>(slots: seq<Option<V>>, entries: seq<BindArg<V>>, p: seq<int>)
    requires |entries| == |p| && Distinct(p) && |slots| < 0x8000_0000
    requires forall i :: 0 <= i < |p| ==> 1 <= p[i] <= |slots| && entries[i].n == p[i]
    ensures BindAll(slots, entries).0
    ensures forall i :: 0 <= i < |p| ==> BindAll(slots, entries).1[p[i] - 1] == entries[i].v
    ensures forall k :: 0 <= k < |slots| && k + 1 !in p ==> BindAll(slots, entries).1[k] == slots[k]
    decreases |entries|
  {
    if entries != [] {
      var written, rest := slots[p[0] - 1 := entries[0].v], p[1..];
      assert forall i :: 0 <= i < |rest| ==> rest[i] == p[i + 1] && entries[1..][i] == entries[i + 1];
      hide BindAll;
      BindFirst(slots, entries);
      DistinctEntriesLand(written, entries[1..], rest);
      assert p[0] !in rest;
      var after := BindAll(slots, entries).1;
      assert after[p[0] - 1] == written[p[0] - 1];
      forall i | 0 <= i < |p| ensures after[p[i] - 1] == entries[i].v {
        if i > 0 {
          assert rest[i - 1] == p[i];
        }
      }
      forall k | 0 <= k < |slots| && k + 1 !in p ensures after[k] == slots[k] {
        assert k + 1 != p[0] && k + 1 !in rest;
      }
    }
  }

  /** The first `k` entries are in range, and the next one, if there is one, is not. */
  predicate Reaches<V>(slots: nat, entries: seq<BindArg<V>>, k: nat) {
    && k <= |entries| && (forall i :: 0 <= i < k ==> InRange(slots, entries[i].n))
    && (k < |entries| ==> !InRange(slots, entries[k].n))
  }

  lemma ReachesFromNext<V>(slots: seq<Option<V>>, entries: seq<BindArg<V>>, k: nat)
    requires 0 < k && Reaches(|slots|, entries, k)
    ensures Reaches(|slots|, entries[1..], k - 1) && InRange(|slots|, entries[0].n)
    ensures BindAll(slots, entries) == BindAll(slots[CInt(entries[0].n) - 1 := entries[0].v], entries[1..])
  {
    hide CInt;
    assert forall i :: 0 <= i < |entries| - 1 ==> entries[1..][i] == entries[i + 1];
  }

  /** A slot to which no entry goes before the first one out of range is as it was. */
  lemma {:induction false} UnwrittenStays<V>(slots: seq<Option<V>>, entries: seq<BindArg<V>>, k: nat, j: nat)
    requires Reaches(|slots|, entries, k) && j < |slots|
    requires forall i :: 0 <= i < k ==> CInt(entries[i].n) != j + 1
    ensures BindAll(slots, entries).1[j] == slots[j]
    decreases |entries|
  {
    if k > 0 {
      hide CInt, BindAll;
      ReachesFromNext(slots, entries, k);
      assert forall i :: 0 <= i < |entries| - 1 ==> entries[1..][i] == entries[i + 1];
      UnwrittenStays(slots[CInt(entries[0].n) - 1 := entries[0].v], entries[1..], k - 1, j);
    }
  }

  /** And one to which some go holds the value of the last of these. */
  lemma {:induction false} LastWriteStays<V>(slots: seq<Option<V>>, entries: seq<BindArg<V>>, k: nat, j: nat, i: nat)
    requires Reaches(|slots|, entries, k) && j < |slots| && i < k
    requires CInt(entries[i].n) == j + 1 && forall h :: i < h < k ==> CInt(entries[h].n) != j + 1
    ensures BindAll(slots, entries).1[j] == entries[i].v
    decreases |entries|
  {
    hide CInt, BindAll;
    ReachesFromNext(slots, entries, k);
    assert forall h :: 0 <= h < |entries| - 1 ==> entries[1..][h] == entries[h + 1];
    var written := slots[CInt(entries[0].n) - 1 := entries[0].v];
    if i == 0 {
      UnwrittenStays(written, entries[1..], k - 1, j);
    } else {
      LastWriteStays(written, entries[1..], k - 1, j, i - 1);
    }
  }

  /** Without numbered names the arguments are bound in order. */
  lemma PositionalArgumentsInOrder<V>(args: seq<Option<V>>, slots: seq<Option<V>>)
    requires |args| == |slots| < 0x8000_0000
    ensures BindAll(slots, Entries([], args)) == (true, args)
  {
    hide BindAll, Entries;
    var p, entries := seq(|args|, i => i + 1), Entries([], args);
    PositionalEntries(args);
    DistinctEntriesLand(slots, entries, p);
    var after := BindAll(slots, entries).1;
    forall k | 0 <= k < |args| ensures after[k] == args[k] {
      assert p[k] == k + 1;
    }
    assert after == args;
  }

  lemma PositionalEntries<V>(args: seq<Option<V>>)
    ensures forall i :: 0 <= i < |args| ==> Entries([], args)[i] == BindArg(i + 1, args[i])
  {
  }

  /** The names `$p[0]`, `$p[1]`, ... of parameters 1, 2, ..., each at its first occurrence. */
  function DollarNames(p: seq<int>): (nn: seq<bytes>)
    requires forall i :: 0 <= i < |p| ==> 0 <= p[i]
    ensures |nn| == |p| && forall i :: 0 <= i < |nn| ==> IsNumbered(nn[i])
  {
    seq(|p|, i requires 0 <= i < |p| => [DOLLAR] + Decimal(p[i]))
  }

  lemma DollarEntries<V>(p: seq<int>, args: seq<Option<V>>)
    requires |args| == |p| < 0x8000_0000 && IsPermutation(p)
    ensures forall i :: 0 <= i < |p| ==> Entries(DollarNames(p), args)[i] == BindArg(p[i], args[i])
  {
    forall i | 0 <= i < |p| ensures Entries(DollarNames(p), args)[i] == BindArg(p[i], args[i]) {
      var name := DollarNames(p)[i];
      assert name[1..] == Decimal(p[i]);
      MagnitudeOfDecimal(p[i]);
    }
  }

  /** All of these names are kept. */
  lemma {:induction false} DollarNamesAreNumbered(p: seq<int>)
    requires forall i :: 0 <= i < |p| ==> 0 <= p[i]
    ensures Numbered(DollarNames(p)) == DollarNames(p)
  {
    if p != [] {
      var n := |p| - 1;
      assert DollarNames(p) == DollarNames(p[..n]) + [DollarNames(p)[n]];
      DollarNamesAreNumbered(p[..n]);
      NumberedBoth(DollarNames(p[..n]), [DollarNames(p)[n]]);
      NumberedOne(DollarNames(p)[n]);
    }
  }

  /** What a statement with these parameter names binds. */
  function BindNamed<V>(names: seq<bytes>, args: seq<Option<V>>, slots: seq<Option<V>>): (r: (bool, seq<Option<V>>))
    ensures |r.1| == |slots|
  {
    BindAll(slots, Entries(Numbered(names), args))
  }

  /** Every argument is bound, each in exactly one slot: argument `i` in slot `p[i]`. */
  lemma NumberedArgumentsLand<V>(p: seq<int>, args: seq<Option<V>>, slots: seq<Option<V>>)
    requires |args| == |slots| == |p| < 0x8000_0000 && IsPermutation(p)
    ensures BindNamed(DollarNames(p), args, slots).0
    ensures forall i :: 0 <= i < |p| ==> BindNamed(DollarNames(p), args, slots).1[p[i] - 1] == args[i]
  {
    DollarNamesAreNumbered(p);
    DollarEntries(p, args);
    DistinctEntriesLand(slots, Entries(DollarNames(p), args), p);
  }

  /** Following the names twice from slot `i` leads back to it. */
  predicate ReturnsAfterTwo(p: seq<int>, i: nat)
    requires IsPermutation(p) && i < |p|
  {
    p[p[i] - 1] == i + 1
  }

  /** `p` is its own inverse. */
  predicate IsInvolution(p: seq<int>)
    requires IsPermutation(p)
  {
    forall i :: 0 <= i < |p| ==> ReturnsAfterTwo(p, i)
  }

  /** Slot `i`, whose name is `$p[i]`, holds the argument of that number. */
  predicate GetsItsOwn<V(==)>(p: seq<int>, args: seq<Option<V>>, bound: seq<Option<V>>, i: nat)
    requires IsPermutation(p) && |args| == |bound| == |p| && i < |p|
  {
    bound[i] == args[p[i] - 1]
  }

  predicate EachGetsItsOwn<V(==)>(p: seq<int>, args: seq<Option<V>>, bound: seq<Option<V>>)
    requires IsPermutation(p) && |args| == |bound| == |p|
  {
    forall i :: 0 <= i < |p| ==> GetsItsOwn(p, args, bound, i)
  }

  function Bound<V>(p: seq<int>, args: seq<Option<V>>): (r: seq<Option<V>>)
    requires |args| == |p| && IsPermutation(p)
    ensures |r| == |p|
  {
    BindNamed(DollarNames(p), args, seq(|p|, i => None)).1
  }

  lemma BoundLands(p: seq<int>, args: seq<Option<int>>, i: nat)
    requires |args| == |p| < 0x8000_0000 && IsPermutation(p) && i < |p|
    ensures Bound(p, args)[p[i] - 1] == args[i]
  {
    NumberedArgumentsLand(p, args, seq(|p|, k => None));
  }

  lemma InvolutionServesAll(p: seq<int>, args: seq<Option<int>>)
    requires |args| == |p| < 0x8000_0000 && IsPermutation(p) && IsInvolution(p)
    ensures EachGetsItsOwn(p, args, Bound(p, args))
  {
    hide Bound;
    forall i | 0 <= i < |p| ensures GetsItsOwn(p, args, Bound(p, args), i) {
      assert ReturnsAfterTwo(p, i);
      BoundLands(p, args, p[i] - 1);
    }
  }

  lemma SomeArgumentsGoAstray(p: seq<int>, i: nat)
    requires |p| < 0x8000_0000 && IsPermutation(p) && i < |p| && !ReturnsAfterTwo(p, i)
    ensures var args := seq(|p|, k => Some(k)); !EachGetsItsOwn(p, args, Bound(p, args))
  {
    hide Bound;
    var args := seq(|p|, k => Some(k));
    var j := p[i] - 1;
    BoundLands(p, args, i);
    assert Bound(p, args)[j] == Some(i) && args[p[j] - 1] == Some(p[j] - 1);
    assert !GetsItsOwn(p, args, Bound(p, args), j);
  }

  /** `$k` receives the k-th argument, for every k and all arguments, iff `p` is its own inverse. */
  lemma NamesMeanNumbersIffInvolution(p: seq<int>)
    requires IsPermutation(p) && |p| < 0x8000_0000
    ensures (forall args: seq<Option<int>> | |args| == |p| :: EachGetsItsOwn(p, args, Bound(p, args))) <==>
            IsInvolution(p)
  {
    hide Bound, EachGetsItsOwn, ReturnsAfterTwo, IsPermutation;
    if IsInvolution(p) {
      forall args: seq<Option<int>> | |args| == |p| ensures EachGetsItsOwn(p, args, Bound(p, args)) {
        InvolutionServesAll(p, args);
      }
    } else {
      var i :| 0 <= i < |p| && !ReturnsAfterTwo(p, i);
      SomeArgumentsGoAstray(p, i);
      var args := seq(|p|, k => Some(k));
      assert !EachGetsItsOwn(p, args, Bound(p, args));
    }
  }
}
