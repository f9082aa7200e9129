/**
 * A small engine that meets all that Scripts assumes of SQLite: statements end at semicolons,
 * question marks are parameters, white space means nothing, and tails are trimmed.
 */
module SemicolonScripts {
  import opened Wrappers
  import opened Scripts

  predicate IsSpace(c: char) {
    c == ' ' || c == '\n'
  }

  function Strip(q: string): string {
    if q == "" then "" else (if IsSpace(q[0]) then "" else [q[0]]) + Strip(q[1..])
  }

  function Trim(q: string): (t: string)
    ensures |t| <= |q|
  {
    if q == "" then ""
    else if IsSpace(q[0]) then Trim(q[1..])
    else if IsSpace(q[|q| - 1]) then Trim(q[..|q| - 1])
    else q
  }

  function Holes(statement: string): nat {
    if statement == "" then 0 else Holes(statement[1..]) + if statement[0] == '?' then 1 else 0
  }

  function First(q: string): string {
    if q == "" || q[0] == ';' then "" else [q[0]] + First(q[1..])
  }

  function Rest(q: string): (r: string)
    ensures q != "" ==> |r| < |q|
  {
    if q == "" then "" else if q[0] == ';' then q[1..] else Rest(q[1..])
  }

  function SplitAtSemicolon(q: string): (p: Prepared<string, int>)
    ensures p.Good?
  {
    var statement := Strip(First(q));
    Good(if statement == "" then None else Some(statement), Holes(statement), Trim(Rest(q)))
  }

  /** The database is the list of the statements that ran. */
  function AllRun(db: seq<string>, q: string): seq<string>
    decreases |q|
  {
    var p := SplitAtSemicolon(q);
    var after := if p.stmt.None? then db else db + [p.stmt.value];
    if p.tail == "" then after else AllRun(after, p.tail)
  }

  function SemicolonEngine(): Engine<seq<string>, string, int, nat, int> {
    Engine(
      (db, q) => SplitAtSemicolon(q),
      (s, args) => None,
      (db, s, args) => (db + [s], Ok(|db|)),
      (db, q) => (AllRun(db, q), Ok(|db|)))
  }

  predicate EndsWithSemicolon(q: string) {
    Strip(q) != "" && Strip(q)[|Strip(q)| - 1] == ';'
  }

  predicate SameButSpace(x: string, y: string) {
    Strip(x) == Strip(y)
  }

  lemma {:induction false} AllRunIsTheLoop(db: seq<string>, q: string)
    requires Shrinks(SemicolonEngine())
    ensures ScriptLoop(SemicolonEngine(), db, q) == (AllRun(db, q), None)
    decreases |q|
  {
    var p := SplitAtSemicolon(q);
    if p.tail != "" {
      AllRunIsTheLoop(if p.stmt.None? then db else db + [p.stmt.value], p.tail);
    }
  }

  // ---------- White space ----------

  lemma {:induction false} StripBoth(a: string, b: string)
    ensures Strip(a + b) == Strip(a) + Strip(b)
  {
    if a == "" {
      assert a + b == b;
    } else {
      assert (a + b)[1..] == a[1..] + b;
      StripBoth(a[1..], b);
    }
  }

  lemma {:induction false} TrimStrips(q: string)
    ensures Strip(Trim(q)) == Strip(q)
    ensures Trim(q) == "" <==> Strip(q) == ""
  {
    if q != "" {
      if IsSpace(q[0]) {
        TrimStrips(q[1..]);
      } else if IsSpace(q[|q| - 1]) {
        var n := |q| - 1;
        TrimStrips(q[..n]);
        StripBoth(q[..n], q[n..]);
        assert q == q[..n] + q[n..] && q[n..][1..] == "";
      }
    }
  }

  /** Cutting off the first statement and stripping may be done in either order. */
  lemma {:induction false} StripThenSplit(q: string)
    ensures Strip(First(q)) == First(Strip(q)) && Strip(Rest(q)) == Rest(Strip(q))
  {
    if q != "" {
      if IsSpace(q[0]) {
        assert Strip(q) == Strip(q[1..]);
      } else {
        assert Strip(q)[1..] == Strip(q[1..]);
      }
      if q[0] != ';' {
        StripThenSplit(q[1..]);
      }
    }
  }

  /** What is prepared depends on the stripped text alone. */
  lemma PreparedWithoutSpace(q: string)
    ensures var p, u := SplitAtSemicolon(q), Strip(q);
            && p.stmt == (if First(u) == "" then None else Some(First(u))) && p.inputs == Holes(First(u))
            && Strip(p.tail) == Rest(u) && (p.tail == "" <==> Rest(u) == "")
  {
    hide Strip, First, Holes, Rest, Trim;
    StripThenSplit(q);
    TrimStrips(Rest(q));
  }

  lemma {:induction false} SemicolonStays(u: string, v: string)
    requires u != "" && u[|u| - 1] == ';'
    ensures First(u + v) == First(u) && Rest(u + v) == Rest(u) + v
    ensures Rest(u) != "" ==> Rest(u)[|Rest(u)| - 1] == ';'
  {
    assert (u + v)[1..] == u[1..] + v;
    if u[0] != ';' {
      SemicolonStays(u[1..], v);
    }
  }

  lemma SplitsAlike(x: string, y: string)
    requires SameButSpace(x, y)
    ensures SamePrepared(SameButSpace, SplitAtSemicolon(x), SplitAtSemicolon(y))
  {
    hide Strip, SplitAtSemicolon, First, Rest;
    PreparedWithoutSpace(x);
    PreparedWithoutSpace(y);
  }

  lemma SplitsJoined(q: string, q2: string)
    requires EndsWithSemicolon(q)
    ensures var p, joined := SplitAtSemicolon(q), SplitAtSemicolon(q + q2);
            && (p.tail != "" ==> EndsWithSemicolon(p.tail))
            && joined.stmt == p.stmt && joined.inputs == p.inputs
            && if joined.tail == "" then p.tail == "" && Strip(q2) == ""
               else SameButSpace(joined.tail, if p.tail == "" then q2 else p.tail + q2)
  {
    hide Strip, SplitAtSemicolon, First, Rest;
    var u, v := Strip(q), Strip(q2);
    var p := SplitAtSemicolon(q);
    StripBoth(q, q2);
    SemicolonStays(u, v);
    PreparedWithoutSpace(q);
    PreparedWithoutSpace(q + q2);
    StripBoth(p.tail, q2);
    assert "" + v == v;
  }

  lemma SpaceIsBlank(q: string)
    requires Strip(q) == ""
    ensures SplitAtSemicolon(q) == Good(None, 0, "")
  {
    hide SplitAtSemicolon;
    PreparedWithoutSpace(q);
  }

  /** The assumptions on engines can be met, with any second script. */
  lemma SemicolonEngineJoins(q2: string)
    ensures Shrinks(SemicolonEngine()) && RunsScripts(SemicolonEngine())
    ensures Joins(SemicolonEngine(), EndsWithSemicolon, SameButSpace, q2)
  {
    forall db, q ensures ScriptLoop(SemicolonEngine(), db, q) == (AllRun(db, q), None) {
      AllRunIsTheLoop(db, q);
    }
    hide Strip, Trim, SplitAtSemicolon, SameButSpace, EndsWithSemicolon, SamePrepared;
    forall x, y | SameButSpace(x, y)
      ensures SamePrepared(SameButSpace, SplitAtSemicolon(x), SplitAtSemicolon(y))
    {
      SplitsAlike(x, y);
    }
    if Strip(q2) == "" {
      SpaceIsBlank(q2);
      assert Blank(SemicolonEngine(), q2);
    }
    forall q | EndsWithSemicolon(q)
      ensures var p, joined := SplitAtSemicolon(q), SplitAtSemicolon(q + q2);
              && (p.tail != "" ==> EndsWithSemicolon(p.tail))
              && joined.stmt == p.stmt && joined.inputs == p.inputs
              && if joined.tail == "" then p.tail == "" && Blank(SemicolonEngine(), q2)
                 else SameButSpace(joined.tail, if p.tail == "" then q2 else p.tail + q2)
    {
      SplitsJoined(q, q2);
    }
  }
}
