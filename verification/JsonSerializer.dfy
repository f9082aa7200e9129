/** picojson's printer: string escapes, decimal numbers, and the recursive serializer. */
module JsonSerializer {
  import opened Bytes
  import opened JsonValue
  import opened JsonStrings
  import opened JsonParser

  const TRUE: bytes := [0x74, 0x72, 0x75, 0x65]
  const FALSE: bytes := [0x66, 0x61, 0x6C, 0x73, 0x65]
  const NULL: bytes := [0x6E, 0x75, 0x6C, 0x6C]

  predicate IsControl(b: byte) {
    b < 0x20 || b == 0x7F
  }

  /** "%x" of a number below 16. */
  function HexDigit(n: nat): byte
    requires n < 16
  {
    if n < 10 then 0x30 + n else 0x57 + n
  }

  function PrintByte(b: byte): bytes {
    match b
    case 0x22 => [BACKSLASH, QUOTE]
    case 0x5C => [BACKSLASH, BACKSLASH]
    case 0x2F => [BACKSLASH, 0x2F]
    case 0x08 => [BACKSLASH, 0x62]
    case 0x0C => [BACKSLASH, 0x66]
    case 0x0A => [BACKSLASH, 0x6E]
    case 0x0D => [BACKSLASH, 0x72]
    case 0x09 => [BACKSLASH, 0x74]
    case _ =>
      if IsControl(b) then [BACKSLASH, LETTER_U, ZERO, ZERO, HexDigit(b / 16), HexDigit(b % 16)] else [b]
  }

  function PrintBytes(s: bytes): bytes {
    if s == [] then [] else PrintBytes(s[..|s| - 1]) + PrintByte(s[|s| - 1])
  }

  function PrintString(s: bytes): bytes {
    [QUOTE] + PrintBytes(s) + [QUOTE]
  }

  predicate PrintsPlain(b: byte) {
    0x20 <= b && b != 0x22 && b != 0x5C && b != 0x2F && b != 0x7F
  }

  /** Which bytes are written as they are, which behind a backslash, and which as two hex digits. */
  lemma BytesPrinted(b: byte)
    ensures PrintsPlain(b) ==> PrintByte(b) == [b]
    ensures b == 0x22 || b == 0x5C || b == 0x2F ==> PrintByte(b) == [0x5C, b]
    ensures b == 0x08 ==> PrintByte(b) == [0x5C, 'b' as int]
    ensures b == 0x0C ==> PrintByte(b) == [0x5C, 'f' as int]
    ensures b == 0x0A ==> PrintByte(b) == [0x5C, 'n' as int]
    ensures b == 0x0D ==> PrintByte(b) == [0x5C, 'r' as int]
    ensures b == 0x09 ==> PrintByte(b) == [0x5C, 't' as int]
    ensures (b < 0x20 && b !in {0x08, 0x0C, 0x0A, 0x0D, 0x09}) || b == 0x7F ==>
              && |PrintByte(b)| == 6 && PrintByte(b)[..4] == [0x5C, 'u' as int, '0' as int, '0' as int]
              && PrintByte(b)[4] == LOWER_HEX[b / 16] as int && PrintByte(b)[5] == LOWER_HEX[b % 16] as int
  {
  }

  lemma {:induction false} PrintsEachByte(a: bytes, b: bytes)
    ensures PrintBytes(a + b) == PrintBytes(a) + PrintBytes(b)
    decreases |b|
  {
    hide PrintByte;
    if b == [] {
      assert a + b == a;
    } else {
      var front, last := b[..|b| - 1], b[|b| - 1];
      assert (a + b)[..|a + b| - 1] == a + front;
      PrintsEachByte(a, front);
    }
  }

  lemma PrintsOneByte(b: byte)
    ensures PrintBytes([b]) == PrintByte(b)
  {
    hide PrintByte;
    assert [b][..0] == [] && PrintBytes([]) == [];
  }

  lemma {:induction false} PrintingLengthens(s: bytes)
    ensures |PrintBytes(s)| >= |s|
    ensures |PrintBytes(s)| == |s| ==> forall i :: 0 <= i < |s| ==> PrintsPlain(s[i])
  {
    if s != [] {
      hide PrintByte;
      var n := |s| - 1;
      PrintingLengthens(s[..n]);
      ByteLengthens(s[n]);
      assert forall i :: 0 <= i < n ==> s[i] == s[..n][i];
    }
  }

  lemma ByteLengthens(b: byte)
    ensures |PrintByte(b)| >= 1 && (|PrintByte(b)| == 1 ==> PrintsPlain(b))
  {
  }

  /** A string is written as it is exactly if each of its bytes is. */
  lemma {:induction false} PrintedAsItIsIff(s: bytes)
    ensures PrintBytes(s) == s <==> forall i :: 0 <= i < |s| ==> PrintsPlain(s[i])
  {
    hide PrintByte;
    PrintingLengthens(s);
    if s != [] && forall i :: 0 <= i < |s| ==> PrintsPlain(s[i]) {
      var n := |s| - 1;
      PrintedAsItIsIff(s[..n]);
      BytesPrinted(s[n]);
      assert s == s[..n] + [s[n]];
    }
  }

  /** "%.f" of an integral double. */
  function PrintNumber(negative: bool, magnitude: nat): bytes {
    (if negative then [MINUS] else []) + Decimal(magnitude)
  }

  /** What "%.17g" or "%.f" makes of the double that a token is read as. */
  type RealText = bytes -> bytes

  function PrintItems(g: RealText, items: seq<Value>): bytes
    decreases items
  {
    if items == [] then []
    else PrintItems(g, items[..|items| - 1]) + (if |items| == 1 then [] else [COMMA]) + Print(g, items[|items| - 1])
  }

  function PrintMembers(g: RealText, members: seq<Member>): bytes
    decreases members
  {
    if members == [] then []
    else
      var last := members[|members| - 1];
      PrintMembers(g, members[..|members| - 1]) + (if |members| == 1 then [] else [COMMA]) +
      PrintString(last.key) + [COLON] + Print(g, last.value)
  }

  /** The text of a tree. */
  function Print(g: RealText, v: Value): bytes
    decreases v
  {
    match v
    case Null => NULL
    case Bool(b) => if b then TRUE else FALSE
    case Num(negative, magnitude) => PrintNumber(negative, magnitude)
    case Float(token) => g(token)
    case Str(s) => PrintString(s)
    case Arr(items) => [OPEN_ARRAY] + PrintItems(g, items) + [CLOSE_ARRAY]
    case Obj(members) => [OPEN_OBJECT] + PrintMembers(g, members) + [CLOSE_OBJECT]
  }

  /** ASCII text as bytes. */
  function Ascii(s: string): bytes
    requires forall i :: 0 <= i < |s| ==> s[i] < 128 as char
  {
    seq(|s|, i requires 0 <= i < |s| => s[i] as int)
  }

  /** Texts with a comma between any two. */
  function Listed(texts: seq<bytes>): bytes {
    if texts == [] then []
    else if |texts| == 1 then texts[0]
    else texts[0] + Ascii(",") + Listed(texts[1..])
  }

  lemma {:induction false} ListedMore(texts: seq<bytes>, last: bytes)
    ensures Listed(texts + [last]) == Listed(texts) + (if texts == [] then [] else Ascii(",")) + last
  {
    if texts == [] {
      assert [] + [last] == [last];
    } else {
      assert (texts + [last])[1..] == texts[1..] + [last];
      ListedMore(texts[1..], last);
    }
  }

  function ItemTexts(g: RealText, items: seq<Value>): seq<bytes> {
    seq(|items|, i requires 0 <= i < |items| => Print(g, items[i]))
  }

  function MemberText(g: RealText, m: Member): bytes {
    Ascii("\"") + PrintBytes(m.key) + Ascii("\":") + Print(g, m.value)
  }

  function MemberTexts(g: RealText, members: seq<Member>): seq<bytes> {
    seq(|members|, i requires 0 <= i < |members| => MemberText(g, members[i]))
  }

  lemma {:induction false} ItemsAreListed(g: RealText, items: seq<Value>)
    ensures PrintItems(g, items) == Listed(ItemTexts(g, items))
  {
    hide Print;
    if items != [] {
      var n := |items| - 1;
      ItemsAreListed(g, items[..n]);
      assert ItemTexts(g, items) == ItemTexts(g, items[..n]) + [Print(g, items[n])];
      ListedMore(ItemTexts(g, items[..n]), Print(g, items[n]));
    }
  }

  lemma QuotedThenColon(key: bytes, text: bytes)
    ensures Ascii("\"") + key + Ascii("\":") + text == [QUOTE] + key + [QUOTE] + [COLON] + text
  {
    assert Ascii("\":") == [QUOTE] + [COLON] && Ascii("\"") == [QUOTE];
  }

  lemma Grouped(a: bytes, b: bytes, c: bytes, d: bytes, e: bytes)
    ensures a + b + c + d + e == a + b + (c + d + e)
  {
  }

  lemma MembersUnfold(g: RealText, members: seq<Member>)
    requires members != []
    ensures var front, last := members[..|members| - 1], members[|members| - 1];
            PrintMembers(g, members) == PrintMembers(g, front) + (if |members| == 1 then [] else [COMMA]) +
                                        PrintString(last.key) + [COLON] + Print(g, last.value)
  {
    hide Print, PrintString;
  }

  lemma OneMoreMember(g: RealText, members: seq<Member>)
    requires members != []
    ensures PrintMembers(g, members)
         == PrintMembers(g, members[..|members| - 1]) + (if |members| == 1 then [] else Ascii(",")) +
            MemberText(g, members[|members| - 1])
  {
    hide Print, PrintBytes;
    var last := members[|members| - 1];
    MembersUnfold(g, members);
    hide PrintMembers;
    var front, comma := PrintMembers(g, members[..|members| - 1]), if |members| == 1 then [] else Ascii(",");
    assert Ascii(",") == [COMMA];
    QuotedThenColon(PrintBytes(last.key), Print(g, last.value));
    hide Ascii;
    Grouped(front, comma, PrintString(last.key), [COLON], Print(g, last.value));
  }

  lemma {:induction false} MembersAreListed(g: RealText, members: seq<Member>)
    ensures PrintMembers(g, members) == Listed(MemberTexts(g, members))
  {
    hide MemberText, PrintString, Print;
    if members != [] {
      hide PrintMembers;
      var n := |members| - 1;
      MembersAreListed(g, members[..n]);
      OneMoreMember(g, members);
      assert MemberTexts(g, members) == MemberTexts(g, members[..n]) + [MemberText(g, members[n])];
      ListedMore(MemberTexts(g, members[..n]), MemberText(g, members[n]));
    }
  }

  /** What each kind of value is written as, in characters. */
  lemma PrintedText(g: RealText, v: Value)
    ensures v.Null? ==> Print(g, v) == Ascii("null")
    ensures v.Bool? ==> Print(g, v) == if v.b then Ascii("true") else Ascii("false")
    ensures v.Num? ==> Print(g, v) == (if v.negative then Ascii("-") else []) + Decimal(v.magnitude)
    ensures v.Float? ==> Print(g, v) == g(v.token)
    ensures v.Str? ==> Print(g, v) == Ascii("\"") + PrintBytes(v.s) + Ascii("\"")
    ensures v.Arr? ==> Print(g, v) == Ascii("[") + Listed(ItemTexts(g, v.items)) + Ascii("]")
    ensures v.Obj? ==> Print(g, v) == Ascii("{") + Listed(MemberTexts(g, v.members)) + Ascii("}")
  {
    hide Listed, ItemTexts, MemberTexts, PrintItems, PrintMembers, PrintBytes, Decimal;
    if v.Arr? {
      ItemsAreListed(g, v.items);
    }
    if v.Obj? {
      MembersAreListed(g, v.members);
    }
  }

  /** The output iterator: a string that grows at its end. */
  class Output {
    var text: bytes

    constructor ()
      ensures text == []
    {
      text := [];
    }

    method Append(s: bytes)
      modifies this
      ensures text == old(text) + s
    {
      text := text + s;
    }
  }

  method SerializeStr(s: bytes, oi: Output)
    modifies oi
    ensures oi.text == old(oi.text) + PrintString(s)
  {
    hide PrintByte;
    oi.Append([QUOTE]);
    for i := 0 to |s|
      invariant oi.text == old(oi.text) + ([QUOTE] + PrintBytes(s[..i]))
    {
      oi.Append(PrintByte(s[i]));
      assert s[..i + 1][..i] == s[..i];
    }
    assert s[..|s|] == s;
    oi.Append([QUOTE]);
  }

  method SerializeArray(g: RealText, items: seq<Value>, oi: Output)
    modifies oi
    ensures oi.text == old(oi.text) + ([OPEN_ARRAY] + PrintItems(g, items) + [CLOSE_ARRAY])
    decreases items, 0
  {
    hide Print;
    oi.Append([OPEN_ARRAY]);
    for i := 0 to |items|
      invariant oi.text == old(oi.text) + ([OPEN_ARRAY] + PrintItems(g, items[..i]))
    {
      if i != 0 {
        oi.Append([COMMA]);
      }
      Serialize(g, items[i], oi);
      assert items[..i + 1][..i] == items[..i];
    }
    assert items[..|items|] == items;
    oi.Append([CLOSE_ARRAY]);
  }

  method SerializeObject(g: RealText, members: seq<Member>, oi: Output)
    modifies oi
    ensures oi.text == old(oi.text) + ([OPEN_OBJECT] + PrintMembers(g, members) + [CLOSE_OBJECT])
    decreases members, 0
  {
    hide Print, PrintString;
    oi.Append([OPEN_OBJECT]);
    for i := 0 to |members|
      invariant oi.text == old(oi.text) + ([OPEN_OBJECT] + PrintMembers(g, members[..i]))
    {
      if i != 0 {
        oi.Append([COMMA]);
      }
      SerializeStr(members[i].key, oi);
      oi.Append([COLON]);
      Serialize(g, members[i].value, oi);
      assert members[..i + 1][..i] == members[..i];
    }
    assert members[..|members|] == members;
    oi.Append([CLOSE_OBJECT]);
  }

  /** The source's one switch; its two loops are SerializeArray and SerializeObject. */
  method Serialize(g: RealText, v: Value, oi: Output)
    modifies oi
    ensures oi.text == old(oi.text) + Print(g, v)
    decreases v, 1
  {
    hide PrintString, PrintNumber, PrintItems, PrintMembers;
    match v
    case Str(s) => SerializeStr(s, oi);
    case Arr(items) => SerializeArray(g, items, oi);
    case Obj(members) => SerializeObject(g, members, oi);
    case Null => oi.Append(NULL);
    case Bool(b) => oi.Append(if b then TRUE else FALSE);
    case Num(negative, magnitude) => oi.Append(PrintNumber(negative, magnitude));
    case Float(token) => oi.Append(g(token));
  }
}
