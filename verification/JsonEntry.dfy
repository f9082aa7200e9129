/** The entry points over an iterator range: a fresh stream, one value, and an error report. */
module JsonEntry {
  import opened Wrappers
  import opened Bytes
  import opened JsonValue
  import opened JsonInput
  import opened JsonStrings
  import opened JsonParser
  import opened JsonGrammar
  import JsonNullContext

  /** "syntax error at line `line` near: `near`". */
  datatype SyntaxError = SyntaxError(line: int, near: bytes)

  /** The rest of the line, without bytes below a space. */
  function Near(u: bytes): bytes {
    if u == [] || u[0] == NEWLINE then []
    else (if u[0] >= 0x20 then [u[0]] else []) + Near(u[1..])
  }

  /** What is unread after the rest of the line and its newline. */
  function NextLine(u: bytes): bytes {
    if u == [] then [] else if u[0] == NEWLINE then u[1..] else NextLine(u[1..])
  }

  predicate OnOneLine(s: bytes) {
    forall i :: 0 <= i < |s| ==> s[i] != 0x0A
  }

  /** Up to the newline everything from a space up is near, and the rest begins behind the newline. */
  lemma {:induction false} NearIsTheLine(line: bytes, rest: bytes)
    requires OnOneLine(line) && (rest == [] || rest[0] == 0x0A)
    ensures (forall i :: 0 <= i < |line| ==> line[i] >= 0x20) ==> Near(line + rest) == line
    ensures NextLine(line + rest) == if rest == [] then [] else rest[1..]
  {
    if line == [] {
      assert line + rest == rest;
    } else {
      assert (line + rest)[1..] == line[1..] + rest;
      NearIsTheLine(line[1..], rest);
    }
  }

  /** A byte below a space leaves no trace. */
  lemma {:induction false} ControlsAreNotNear(front: bytes, c: byte, rest: bytes)
    requires OnOneLine(front) && c < 0x20 && c != 0x0A
    ensures Near(front + [c] + rest) == Near(front + rest)
  {
    if front == [] {
      assert [] + [c] + rest == [c] + rest && [] + rest == rest;
      assert ([c] + rest)[1..] == rest;
    } else {
      assert (front + [c] + rest)[1..] == front[1..] + [c] + rest && (front + rest)[1..] == front[1..] + rest;
      ControlsAreNotNear(front[1..], c, rest);
    }
  }

  /** The report for a parse of `data` that ended so. */
  function Report<T>(data: bytes, r: Outcome<T>): Option<SyntaxError>
    requires 0 <= Cursor(data, r.tape) <= |data|
  {
    if r.Done? then None else Some(SyntaxError(LineAt(data, r.tape), Near(r.tape.rest)))
  }

  lemma NearFromNextByte(near: bytes, u: bytes)
    ensures u == [] || u[0] == NEWLINE ==> near + Near(u) == near
    ensures u != [] && u[0] != NEWLINE && u[0] >= 0x20 ==> near + Near(u) == near + [u[0]] + Near(u[1..])
    ensures u != [] && u[0] != NEWLINE && u[0] < 0x20 ==> Near(u) == Near(u[1..])
  {
    hide NextLine;
  }

  lemma NextLineFromNextByte(u: bytes)
    ensures u == [] || u[0] == NEWLINE ==> NextLine(u) == u[if u == [] then 0 else 1..]
    ensures u != [] && u[0] != NEWLINE ==> NextLine(u) == NextLine(u[1..])
  {
    hide Near;
  }

  method ReadNear(inp: Input) returns (near: bytes)
    requires inp.Valid()
    modifies inp
    ensures inp.Valid()
    ensures near == Near(old(inp.Unread()))
    ensures inp.cur == |inp.data| - |NextLine(old(inp.Unread()))|
  {
    hide Input.Valid, Input.Unread, Near, NextLine;
    near := [];
    while true
      invariant inp.Valid()
      invariant near + Near(inp.Unread()) == Near(old(inp.Unread()))
      invariant NextLine(inp.Unread()) == NextLine(old(inp.Unread()))
      decreases |inp.Unread()|
    {
      NearFromNextByte(near, inp.Unread());
      NextLineFromNextByte(inp.Unread());
      var ch := inp.GetC();
      if ch == -1 || ch == NEWLINE {
        break;
      } else if ch >= 0x20 {
        near := near + [ch];
      }
    }
    TapeFixesState(inp);
  }

  /** On success the iterator returned is past any byte that was pushed back. */
  method Parse(data: bytes) returns (v: Value, err: Option<SyntaxError>, cur: nat)
    ensures 0 <= Cursor(data, ReadValue(data).tape) <= |data|
    ensures err == Report(data, ReadValue(data))
    ensures err.None? <==> ReadValue(data).Done?
    ensures err.Some? ==> err.value == SyntaxError(LineAt(data, ReadValue(data).tape), Near(ReadValue(data).tape.rest))
    ensures err.None? ==> v == ReadValue(data).out && cur == Cursor(data, ReadValue(data).tape)
    ensures err.Some? ==> cur == |data| - |NextLine(ReadValue(data).tape.rest)|
  {
    hide ReadValue, Input.Valid, Input.Unread, LineAt, Near, NextLine;
    var inp := new Input(data);
    var ok: bool;
    ok, v := ParseValue(inp);
    TapeFixesState(inp);
    err := None;
    if !ok {
      var line := inp.line;
      var near := ReadNear(inp);
      err := Some(SyntaxError(line, near));
    }
    cur := inp.cur;
  }

  /**
   * The iterator Parse returns stands right behind the text it read, except that behind a number
   * with more to come it has passed one byte of what follows.
   */
  lemma ReturnedCursor(ws: bytes, syn: Syntax, rest: bytes)
    requires AllSpace(ws) && SyntaxOk(syn) && Follows(syn, rest)
    ensures var data := ws + Write(syn) + rest;
            && ReadValue(data).Done?
            && (Cursor(data, ReadValue(data).tape) == |ws + Write(syn)| <==> !(syn.Number? && rest != []))
            && (syn.Number? && rest != [] ==> Cursor(data, ReadValue(data).tape) == |ws + Write(syn)| + 1)
  {
    hide ReadValue, Write, SyntaxOk;
    ReadsSyntax(ws, syn, rest);
  }

  /** Checking without building reports the same error at the same place. */
  method Check(data: bytes) returns (err: Option<SyntaxError>, cur: nat)
    ensures 0 <= Cursor(data, ReadValue(data).tape) <= |data|
    ensures err == Report(data, ReadValue(data))
    ensures err.None? <==> ReadValue(data).Done?
    ensures err.Some? ==> err.value == SyntaxError(LineAt(data, ReadValue(data).tape), Near(ReadValue(data).tape.rest))
    ensures err.None? ==> cur == Cursor(data, ReadValue(data).tape)
    ensures err.Some? ==> cur == |data| - |NextLine(ReadValue(data).tape.rest)|
  {
    hide ReadValue, JsonNullContext.ScanValue, Input.Valid, Input.Unread, LineAt, Near, NextLine;
    JsonNullContext.ContextsAgree(data);
    var inp := new Input(data);
    var ok := JsonNullContext.ParseValue(inp);
    TapeFixesState(inp);
    err := None;
    if !ok {
      var line := inp.line;
      var near := ReadNear(inp);
      err := Some(SyntaxError(line, near));
    }
    cur := inp.cur;
  }
}
