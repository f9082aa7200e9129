/**
 * Conversions between Go values and SQL values at the border of user-defined functions, on a
 * platform where int and uint have 64 bits. Floating-point kinds are not part of this model.
 */
module Conversions {
  import opened Wrappers
  import opened Bytes

  datatype Kind = Int | Int8 | Int16 | Int32 | Int64 | Uint | Uint8 | Uint16 | Uint32 | Uint64

  datatype GoType = Integer(kind: Kind) | Boolean | Text | Slice(elem: GoType) | Interface(methods: nat) | Other

  datatype GoValue = IntValue(kind: Kind, n: int) | BoolValue(b: bool) | TextValue(s: bytes) | BytesValue(s: bytes)

  datatype SqlValue = INTEGER(n: int) | TEXT(s: bytes) | BLOB(s: bytes) | NULL

  datatype Error = TooFewArguments(wanted: nat) | NotAnInteger | NotBlobOrText | Unsupported | CannotConvert

  /** The number of values of a kind. */
  function Span(kind: Kind): (n: int)
    ensures n > 0
  {
    match kind
    case Int8 | Uint8 => 0x100
    case Int16 | Uint16 => 0x1_0000
    case Int32 | Uint32 => 0x1_0000_0000
    case _ => 0x1_0000_0000_0000_0000
  }

  /** The least value of a kind. */
  function Least(kind: Kind): int {
    match kind
    case Int | Int8 | Int16 | Int32 | Int64 => -(Span(kind) / 2)
    case _ => 0
  }

  predicate InKind(kind: Kind, n: int) {
    Least(kind) <= n < Least(kind) + Span(kind)
  }

  /** Go's conversion between integer kinds keeps the low bits. */
  function Wrap(kind: Kind, n: int): (m: int)
    ensures InKind(kind, m)
  {
    (n - Least(kind)) % Span(kind) + Least(kind)
  }

  /** The values of each kind. */
  lemma KindRanges(n: int)
    ensures InKind(Int8, n) <==> -128 <= n <= 127
    ensures InKind(Int16, n) <==> -32768 <= n <= 32767
    ensures InKind(Int32, n) <==> -2147483648 <= n <= 2147483647
    ensures InKind(Int64, n) <==> -9223372036854775808 <= n <= 9223372036854775807
    ensures InKind(Int, n) <==> InKind(Int64, n)
    ensures InKind(Uint8, n) <==> 0 <= n <= 255
    ensures InKind(Uint16, n) <==> 0 <= n <= 65535
    ensures InKind(Uint32, n) <==> 0 <= n <= 4294967295
    ensures InKind(Uint64, n) <==> 0 <= n <= 18446744073709551615
    ensures InKind(Uint, n) <==> InKind(Uint64, n)
  {
  }

  /** A conversion keeps the number modulo the count of values of the kind. */
  lemma WrapIsCongruent(kind: Kind, n: int)
    ensures (Wrap(kind, n) - n) % Span(kind) == 0
  {
    var m := n - Least(kind);
    assert Wrap(kind, n) - n == m % Span(kind) - m;
    NegatedMultiple(m, Span(kind));
  }

  lemma NegatedMultiple(m: int, d: int)
    requires d > 0
    ensures (m % d - m) % d == 0
  {
    var q := m / d;
    assert m == q * d + m % d;
    MultipleHasNoRemainder(0 - q, d);
    assert (0 - q) * d == m % d - m;
  }

  lemma MultipleHasNoRemainder(q: int, d: int)
    requires d > 0
    ensures q * d % d == 0
  {
    var s, r := q * d / d, q * d % d;
    assert (q - s) * d == r;
    assert q - s >= 1 ==> (q - s) * d >= d;
    assert q < s ==> (q - s) * d < 0;
  }

  predicate HasType(v: GoValue, typ: GoType) {
    match v
    case IntValue(kind, n) => typ == Integer(kind) && InKind(kind, n)
    case BoolValue(_) => typ == Boolean
    case TextValue(_) => typ == Text
    case BytesValue(_) => typ == Slice(Integer(Uint8))
  }

  // ---------- From SQL to Go ----------

  datatype Converter = ArgGeneric | ArgBytes | ArgString | ArgBool | ArgInt64 | Cast(f: Converter, kind: Kind)

  function CallbackArg(typ: GoType): Result<Converter, Error> {
    match typ
    case Interface(methods) => if methods != 0 then Err(Unsupported) else Ok(ArgGeneric)
    case Slice(elem) => if elem != Integer(Uint8) then Err(Unsupported) else Ok(ArgBytes)
    case Text => Ok(ArgString)
    case Boolean => Ok(ArgBool)
    case Integer(kind) => if kind == Int64 then Ok(ArgInt64) else Ok(Cast(ArgInt64, kind))
    case Other => Err(Unsupported)
  }

  /** What a C string pointer to `s` reads as: up to the first zero byte. */
  function CString(s: bytes): bytes {
    if s == [] || s[0] == 0 then [] else [s[0]] + CString(s[1..])
  }

  /** A C string ends before its first zero byte, if it has one. */
  lemma {:induction false} CStringEnds(s: bytes, rest: bytes)
    requires 0 !in s
    ensures CString(s) == s && CString(s + [0] + rest) == s
  {
    if s == [] {
      assert [] + [0] + rest == [0] + rest;
    } else {
      assert (s + [0] + rest)[1..] == s[1..] + [0] + rest;
      CStringEnds(s[1..], rest);
    }
  }

  /** The argument types that have a converter. */
  lemma SupportedTypes(typ: GoType)
    ensures CallbackArg(typ).Ok? <==>
            typ.Integer? || typ == Boolean || typ == Text || typ == Slice(Integer(Uint8)) || typ == Interface(0)
  {
  }

  function Convert(f: Converter, v: SqlValue): Result<GoValue, Error>
    decreases f
  {
    match f
    case ArgInt64 => if v.INTEGER? then Ok(IntValue(Int64, v.n)) else Err(NotAnInteger)
    case ArgBool => if v.INTEGER? then Ok(BoolValue(v.n != 0)) else Err(NotAnInteger)
    case ArgBytes => if v.BLOB? || v.TEXT? then Ok(BytesValue(v.s)) else Err(NotBlobOrText)
    case ArgString =>
      if v.BLOB? then Ok(TextValue(v.s)) else if v.TEXT? then Ok(TextValue(CString(v.s))) else Err(NotBlobOrText)
    case ArgGeneric =>
      (match v
       case INTEGER(n) => Ok(IntValue(Int64, n))
       case TEXT(s) => Ok(TextValue(CString(s)))
       case BLOB(s) => Ok(BytesValue(s))
       case NULL => Ok(BytesValue([])))
    case Cast(g, kind) =>
      (match Convert(g, v)
       case Err(e) => Err(e)
       case Ok(IntValue(_, n)) => Ok(IntValue(kind, Wrap(kind, n)))
       case Ok(_) => Err(CannotConvert))
  }

  /** What each converter makes of each SQL value, as the type it was chosen for. */
  lemma WhatConverts(typ: GoType, v: SqlValue)
    requires CallbackArg(typ).Ok?
    ensures var r := Convert(CallbackArg(typ).value, v);
            && (typ == Boolean ==> r == if v.INTEGER? then Ok(BoolValue(v.n != 0)) else Err(NotAnInteger))
            && (typ.Integer? && !v.INTEGER? ==> r == Err(NotAnInteger))
            && (typ.Integer? && v.INTEGER? && InKind(Int64, v.n) ==>
                 r.Ok? && r.value.IntValue? && r.value.kind == typ.kind && InKind(typ.kind, r.value.n) &&
                 (InKind(typ.kind, v.n) ==> r.value.n == v.n))
            && (typ == Slice(Integer(Uint8)) ==>
                 r == match v case BLOB(s) => Ok(BytesValue(s)) case TEXT(s) => Ok(BytesValue(s))
                              case _ => Err(NotBlobOrText))
            && (typ == Text ==>
                 r == match v case BLOB(s) => Ok(TextValue(s)) case TEXT(s) => Ok(TextValue(CString(s)))
                              case _ => Err(NotBlobOrText))
            && (typ == Interface(0) ==>
                 r == match v case INTEGER(n) => Ok(IntValue(Int64, n)) case TEXT(s) => Ok(TextValue(CString(s)))
                              case BLOB(s) => Ok(BytesValue(s)) case NULL => Ok(BytesValue([])))
  {
    if typ.Integer? && v.INTEGER? && InKind(typ.kind, v.n) {
      WrapKeeps(typ.kind, v.n);
    }
  }

  /** The first error, or all results in order. */
  function ConvertEach(fs: seq<Converter>, argv: seq<SqlValue>): Result<seq<GoValue>, Error>
    requires |fs| == |argv|
  {
    if fs == [] then Ok([])
    else
      var front := ConvertEach(fs[..|fs| - 1], argv[..|fs| - 1]);
      if front.Err? then front
      else
        match Convert(fs[|fs| - 1], argv[|fs| - 1])
        case Err(e) => Err(e)
        case Ok(v) => Ok(front.value + [v])
  }

  /** The converter of every argument that is converted; without a variadic one the others are dropped. */
  function ConvertersFor(n: nat, converters: seq<Converter>, variadic: Option<Converter>): (fs: seq<Converter>)
    requires |converters| <= n
    ensures |fs| == if variadic.None? then |converters| else n
  {
    if variadic.None? then converters else converters + seq(n - |converters|, _ => variadic.value)
  }

  function ConvertArgs(argv: seq<SqlValue>, converters: seq<Converter>, variadic: Option<Converter>):
    Result<seq<GoValue>, Error>
  {
    if |argv| < |converters| then Err(TooFewArguments(|converters|))
    else
      var fs := ConvertersFor(|argv|, converters, variadic);
      ConvertEach(fs, argv[..|fs|])
  }

  method CallbackConvertArgs(argv: seq<SqlValue>, converters: seq<Converter>, variadic: Option<Converter>)
    returns (r: Result<seq<GoValue>, Error>)
    ensures r == ConvertArgs(argv, converters, variadic)
  {
    hide Convert, ConvertEach;
    var args: seq<GoValue> := [];
    if |argv| < |converters| {
      return Err(TooFewArguments(|converters|));
    }
    ghost var fs := ConvertersFor(|argv|, converters, variadic);
    NothingToConvert();
    for i := 0 to |converters|
      invariant ConvertEach(fs[..i], argv[..i]) == Ok(args)
    {
      OneMoreArgument(fs, argv, i);
      var v := Convert(converters[i], argv[i]);
      if v.Err? {
        return Err(v.error);
      }
      args := args + [v.value];
    }
    if variadic.Some? {
      for i := |converters| to |argv|
        invariant ConvertEach(fs[..i], argv[..i]) == Ok(args)
      {
        OneMoreArgument(fs, argv, i);
        var v := Convert(variadic.value, argv[i]);
        if v.Err? {
          return Err(v.error);
        }
        args := args + [v.value];
      }
    }
    assert fs[..|fs|] == fs;
    return Ok(args);
  }

  lemma NothingToConvert()
    ensures ConvertEach([], []) == Ok([])
  {
  }

  /** Converting argument `i` after the first `i`: its error is the result of the whole. */
  lemma OneMoreArgument(fs: seq<Converter>, argv: seq<SqlValue>, i: nat)
    requires i < |fs| <= |argv| && ConvertEach(fs[..i], argv[..i]).Ok?
    ensures var v := Convert(fs[i], argv[i]);
            if v.Err? then ConvertEach(fs, argv[..|fs|]) == Err(v.error)
            else ConvertEach(fs[..i + 1], argv[..i + 1]) == Ok(ConvertEach(fs[..i], argv[..i]).value + [v.value])
  {
    hide Convert;
    assert fs[..i + 1][..i] == fs[..i] && argv[..i + 1][..i] == argv[..i];
    if Convert(fs[i], argv[i]).Err? {
      ErrorStays(fs, argv, i + 1);
    }
  }

  lemma {:induction false} ErrorStays(fs: seq<Converter>, argv: seq<SqlValue>, i: nat)
    requires i <= |fs| <= |argv| && ConvertEach(fs[..i], argv[..i]).Err?
    ensures ConvertEach(fs, argv[..|fs|]) == ConvertEach(fs[..i], argv[..i])
    decreases |fs|
  {
    hide Convert;
    if i < |fs| {
      var n := |fs| - 1;
      assert fs[..n][..i] == fs[..i] && argv[..|fs|][..n] == argv[..n];
      ErrorStays(fs[..n], argv, i);
    } else {
      assert fs[..i] == fs;
    }
  }

  // ---------- From Go to SQL ----------

  /** The result slot of one function call. */
  class Context {
    var result: Option<SqlValue>

    constructor ()
      ensures result == None
    {
      result := None;
    }
  }

  function Send(v: GoValue): SqlValue {
    match v
    case IntValue(_, n) => INTEGER(Wrap(Int64, n))
    case BoolValue(b) => INTEGER(if b then 1 else 0)
    case TextValue(s) => TEXT(CString(s))
    case BytesValue(s) => if s == [] then NULL else BLOB(s)
  }

  /** What a value is sent as: integers from 2^63 up as the negative number of the same 64 bits. */
  lemma WhatIsSent(v: GoValue)
    ensures v.IntValue? && InKind(v.kind, v.n) ==>
              Send(v) == INTEGER(if v.n > 9223372036854775807 then v.n - 18446744073709551616 else v.n)
    ensures v.BoolValue? ==> Send(v) == INTEGER(if v.b then 1 else 0)
    ensures v.TextValue? && 0 !in v.s ==> Send(v) == TEXT(v.s)
    ensures v.BytesValue? ==> Send(v) == if v.s == [] then NULL else BLOB(v.s)
  {
    if v.TextValue? && 0 !in v.s {
      CStringEnds(v.s, []);
    }
  }

  method CallbackRetInteger(ctx: Context, value: GoValue) returns (err: Option<Error>)
    modifies ctx
    ensures value.IntValue? || value.BoolValue? ==> err == None && ctx.result == Some(Send(value))
    ensures value.IntValue? && InKind(Int64, value.n) ==> ctx.result == Some(INTEGER(value.n))
    ensures value.BoolValue? ==> ctx.result == Some(INTEGER(if value.b then 1 else 0))
    ensures !(value.IntValue? || value.BoolValue?) ==> err == Some(CannotConvert) && ctx.result == old(ctx.result)
  {
    var v: int;
    match value {
      case IntValue(kind, n) =>
        v := Wrap(Int64, n);
      case BoolValue(b) =>
        if b {
          v := 1;
        } else {
          v := 0;
        }
      case _ => return Some(CannotConvert);
    }
    ctx.result := Some(INTEGER(v));
    return None;
  }

  method CallbackRetBlob(ctx: Context, value: GoValue) returns (err: Option<Error>)
    modifies ctx
    ensures value.BytesValue? ==> err == None && ctx.result == Some(Send(value))
    ensures value.BytesValue? ==> ctx.result == Some(if value.s == [] then NULL else BLOB(value.s))
    ensures !value.BytesValue? ==> err == Some(CannotConvert) && ctx.result == old(ctx.result)
  {
    if !value.BytesValue? {
      return Some(CannotConvert);
    }
    if |value.s| == 0 {
      ctx.result := Some(NULL);
    } else {
      ctx.result := Some(BLOB(value.s));
    }
    return None;
  }

  /** The string is handed over as a C string: SQLite looks for its end. */
  method CallbackRetText(ctx: Context, value: GoValue) returns (err: Option<Error>)
    modifies ctx
    ensures value.TextValue? ==> err == None && ctx.result == Some(Send(value))
    ensures value.TextValue? ==> ctx.result == Some(TEXT(CString(value.s)))
    ensures !value.TextValue? ==> err == Some(CannotConvert) && ctx.result == old(ctx.result)
  {
    if !value.TextValue? {
      return Some(CannotConvert);
    }
    ctx.result := Some(TEXT(CString(value.s)));
    return None;
  }

  datatype RetConverter = RetInteger | RetBlob | RetText

  /** The converter for a result type, without the floating-point ones. */
  function CallbackRet(typ: GoType): Result<RetConverter, Error> {
    match typ
    case Slice(elem) => if elem != Integer(Uint8) then Err(Unsupported) else Ok(RetBlob)
    case Text => Ok(RetText)
    case Boolean => Ok(RetInteger)
    case Integer(_) => Ok(RetInteger)
    case Interface(_) => Err(Unsupported)
    case Other => Err(Unsupported)
  }

  /** The result types that have a converter. */
  lemma SupportedResults(typ: GoType)
    ensures CallbackRet(typ).Ok? <==> typ.Integer? || typ == Boolean || typ == Text || typ == Slice(Integer(Uint8))
  {
  }

  /** The converter chosen for its type never refuses a value, and writes what Send says. */
  method Return(ctx: Context, typ: GoType, value: GoValue) returns (err: Option<Error>)
    requires HasType(value, typ)
    modifies ctx
    ensures CallbackRet(typ).Ok?
    ensures err == None && ctx.result == Some(Send(value))
  {
    match CallbackRet(typ).value
    case RetInteger => err := CallbackRetInteger(ctx, value);
    case RetBlob => err := CallbackRetBlob(ctx, value);
    case RetText => err := CallbackRetText(ctx, value);
  }

  // ---------- Round trips ----------

  lemma WrapKeeps(kind: Kind, n: int)
    requires InKind(kind, n)
    ensures Wrap(kind, n) == n
  {
  }

  /** Passing through 64 signed bits loses nothing that a kind can hold, uint64 from 2^63 up included. */
  lemma ThroughInt64(kind: Kind, n: int)
    requires InKind(kind, n)
    ensures Wrap(kind, Wrap(Int64, n)) == n
  {
    var m := Wrap(Int64, n);
    if InKind(Int64, n) {
      WrapKeeps(Int64, n);
      WrapKeeps(kind, n);
    } else {
      assert n >= 0x8000_0000_0000_0000 && m == n - 0x1_0000_0000_0000_0000;
      assert (m - Least(kind)) % Span(kind) == n;
    }
  }

  lemma {:induction false} CStringKeeps(s: bytes)
    ensures CString(s) == s <==> 0 !in s
    ensures 0 !in CString(s)
  {
    if s != [] && s[0] != 0 {
      CStringKeeps(s[1..]);
      assert s == [s[0]] + s[1..];
    }
  }

  /** What survives the border: all integers and booleans, text without zero bytes, nonempty slices. */
  predicate Survives(v: GoValue) {
    match v
    case TextValue(s) => 0 !in s
    case BytesValue(s) => s != []
    case _ => true
  }

  /** Sent out and converted back by the converter for its type, a value returns iff it survives. */
  lemma ReturnsIffSurvives(v: GoValue, typ: GoType)
    requires HasType(v, typ)
    ensures CallbackArg(typ).Ok?
    ensures Convert(CallbackArg(typ).value, Send(v)) == Ok(v) <==> Survives(v)
  {
    match v
    case IntValue(kind, n) =>
      ThroughInt64(kind, n);
      WrapKeeps(kind, n);
    case TextValue(s) =>
      CStringKeeps(s);
      CStringKeeps(CString(s));
    case _ =>
  }

  function ConvertersOf(types: seq<GoType>): (fs: seq<Converter>)
    requires forall i :: 0 <= i < |types| ==> CallbackArg(types[i]).Ok?
    ensures |fs| == |types|
  {
    seq(|types|, i requires 0 <= i < |types| => CallbackArg(types[i]).value)
  }

  function SendAll(vs: seq<GoValue>): (argv: seq<SqlValue>)
    ensures |argv| == |vs|
  {
    seq(|vs|, i requires 0 <= i < |vs| => Send(vs[i]))
  }

  lemma {:induction false} EachReturns(fs: seq<Converter>, argv: seq<SqlValue>, vs: seq<GoValue>)
    requires |fs| == |argv| == |vs|
    ensures ConvertEach(fs, argv) == Ok(vs) <==> forall i :: 0 <= i < |vs| ==> Convert(fs[i], argv[i]) == Ok(vs[i])
  {
    hide Convert;
    if vs != [] {
      var n := |vs| - 1;
      EachReturns(fs[..n], argv[..n], vs[..n]);
      assert vs == vs[..n] + [vs[n]];
      if ConvertEach(fs, argv) == Ok(vs) {
        var front := ConvertEach(fs[..n], argv[..n]);
        assert front.value == vs[..n];
      }
    }
  }

  /** The converter for argument `i`: its own or the variadic one. */
  function ConverterAt(converters: seq<Converter>, variadic: Option<Converter>, i: nat): Converter
    requires i < |converters| || variadic.Some?
  {
    if i < |converters| then converters[i] else variadic.value
  }

  /** How many of `n` arguments are converted. */
  function Converted(n: nat, converters: seq<Converter>, variadic: Option<Converter>): nat {
    if variadic.Some? then n else |converters|
  }

  /** A list is converted exactly if there are enough arguments and each one is. */
  lemma ConvertsIffEachDoes(argv: seq<SqlValue>, converters: seq<Converter>, variadic: Option<Converter>,
                            vs: seq<GoValue>)
    ensures ConvertArgs(argv, converters, variadic) == Ok(vs) <==>
            && |converters| <= |argv| && |vs| == Converted(|argv|, converters, variadic)
            && forall i :: 0 <= i < |vs| ==> Convert(ConverterAt(converters, variadic, i), argv[i]) == Ok(vs[i])
  {
    hide Convert;
    if |converters| <= |argv| {
      var fs := ConvertersFor(|argv|, converters, variadic);
      EachLength(fs, argv[..|fs|]);
      if |vs| == |fs| {
        EachReturns(fs, argv[..|fs|], vs);
        assert forall i :: 0 <= i < |fs| ==> fs[i] == ConverterAt(converters, variadic, i);
      }
    }
  }

  lemma {:induction false} EachLength(fs: seq<Converter>, argv: seq<SqlValue>)
    requires |fs| == |argv|
    ensures ConvertEach(fs, argv).Ok? ==> |ConvertEach(fs, argv).value| == |fs|
  {
    hide Convert;
    if fs != [] {
      EachLength(fs[..|fs| - 1], argv[..|fs| - 1]);
    }
  }

  /** Otherwise the error is that there are too few, or that of the first argument that fails. */
  lemma FirstErrorIsReturned(argv: seq<SqlValue>, converters: seq<Converter>, variadic: Option<Converter>, i: nat)
    requires |argv| < |converters| || i < Converted(|argv|, converters, variadic)
    requires |converters| <= |argv| ==>
               && Convert(ConverterAt(converters, variadic, i), argv[i]).Err?
               && forall j :: 0 <= j < i ==> Convert(ConverterAt(converters, variadic, j), argv[j]).Ok?
    ensures ConvertArgs(argv, converters, variadic)
         == if |argv| < |converters| then Err(TooFewArguments(|converters|))
            else Err(Convert(ConverterAt(converters, variadic, i), argv[i]).error)
  {
    hide Convert;
    if |converters| <= |argv| {
      var fs := ConvertersFor(|argv|, converters, variadic);
      assert forall j :: 0 <= j < |fs| ==> fs[j] == ConverterAt(converters, variadic, j);
      FirstErrs(fs, argv, i);
    }
  }

  lemma {:induction false} FirstErrs(fs: seq<Converter>, argv: seq<SqlValue>, i: nat)
    requires i < |fs| <= |argv| && Convert(fs[i], argv[i]).Err?
    requires forall j :: 0 <= j < i ==> Convert(fs[j], argv[j]).Ok?
    ensures ConvertEach(fs, argv[..|fs|]) == Err(Convert(fs[i], argv[i]).error)
  {
    hide Convert;
    AllBeforeConvert(fs, argv, i);
    OneMoreArgument(fs, argv, i);
  }

  lemma {:induction false} AllBeforeConvert(fs: seq<Converter>, argv: seq<SqlValue>, i: nat)
    requires i <= |fs| <= |argv| && forall j :: 0 <= j < i ==> Convert(fs[j], argv[j]).Ok?
    ensures ConvertEach(fs[..i], argv[..i]).Ok?
  {
    hide Convert;
    if i > 0 {
      AllBeforeConvert(fs, argv, i - 1);
      OneMoreArgument(fs, argv, i - 1);
    }
  }

  /**
   * An argument list comes back whole, of any arity and with a variadic tail of one type, iff
   * every value in it survives; integers and booleans always do.
   */
  lemma ArgumentListsReturn(vs: seq<GoValue>, types: seq<GoType>, rest: Option<GoType>)
    requires |types| <= |vs| && (rest.None? ==> |types| == |vs|)
    requires rest.Some? ==> CallbackArg(rest.value).Ok?
    requires forall i :: 0 <= i < |vs| ==> HasType(vs[i], if i < |types| then types[i] else rest.value)
    ensures forall i :: 0 <= i < |types| ==> CallbackArg(types[i]).Ok?
    ensures var variadic := if rest.Some? then Some(CallbackArg(rest.value).value) else None;
            ConvertArgs(SendAll(vs), ConvertersOf(types), variadic) == Ok(vs) <==>
            forall i :: 0 <= i < |vs| ==> Survives(vs[i])
  {
    hide Convert, Send, CallbackArg;
    forall i | 0 <= i < |vs|
      ensures CallbackArg(if i < |types| then types[i] else rest.value).Ok?
      ensures Convert(CallbackArg(if i < |types| then types[i] else rest.value).value, Send(vs[i])) == Ok(vs[i]) <==>
              Survives(vs[i])
    {
      ReturnsIffSurvives(vs[i], if i < |types| then types[i] else rest.value);
    }
    var variadic := if rest.Some? then Some(CallbackArg(rest.value).value) else None;
    var fs := ConvertersFor(|vs|, ConvertersOf(types), variadic);
    assert SendAll(vs)[..|vs|] == SendAll(vs);
    EachReturns(fs, SendAll(vs), vs);
  }
}
