/**
 * The path part of xurls' URL grammar. The regular expression pathCont denotes exactly the strings
 * a one-pass automaton accepts: brackets of one kind nest to depth two, and the string ends outside
 * brackets on an end character or a closing bracket.
 */
module PathGrammar {
  import opened Regex

  /** The Unicode classes the character sets draw on: letters, numbers, currency, other symbols. */
  datatype Tables = Tables(
    letter: char -> bool, number: char -> bool, currency: char -> bool, otherSymbol: char -> bool)

  predicate IsBracket(c: char) {
    c == '(' || c == ')' || c == '[' || c == ']'
  }

  /** No bracket is a letter, a number, a currency sign or another symbol. */
  ghost predicate Sound(t: Tables) {
    forall c :: IsBracket(c) ==> !t.letter(c) && !t.number(c) && !t.currency(c) && !t.otherSymbol(c)
  }

  predicate IsEnd(t: Tables, c: char) {
    t.letter(c) || t.number(c) || c in "/-+_&~*%=#" || t.currency(c)
  }

  predicate IsMid(t: Tables, c: char) {
    IsEnd(t, c) || c in "@.,:;'?!|" || t.otherSymbol(c)
  }

  function End(t: Tables): Re { Class(c => IsEnd(t, c)) }

  function Mid(t: Tables): Re { Class(c => IsMid(t, c)) }

  /** An inner bracket pair and the text behind it. */
  function Inner(t: Tables, open: char, close: char): Re {
    Cat(Just(open), Cat(Star(Mid(t)), Cat(Just(close), Star(Mid(t)))))
  }

  /** What follows the opening bracket. */
  function Body(t: Tables, open: char, close: char): Re {
    Cat(Star(Mid(t)), Cat(Star(Inner(t, open, close)), Just(close)))
  }

  /** wellParen and wellBrack. */
  function Well(t: Tables, open: char, close: char): Re {
    Cat(Just(open), Body(t, open, close))
  }

  function WellAll(t: Tables): Re {
    Alt(Well(t, '(', ')'), Well(t, '[', ']'))
  }

  /** An end: a bracket group or an end character. */
  function Stop(t: Tables): Re {
    Alt(WellAll(t), End(t))
  }

  function Group(t: Tables): Re {
    Cat(Star(Mid(t)), Plus(Stop(t)))
  }

  function PathCont(t: Tables): Re {
    Plus(Group(t))
  }

  // ---------- The automaton ----------

  /** Outside brackets (at an accepting place or not), at depth 1 or 2 of one kind, or nowhere. */
  datatype Place = Outside(accepting: bool) | Depth1(open: char) | Depth2(open: char) | Dead

  function CloseOf(open: char): char {
    if open == '(' then ')' else ']'
  }

  function Next(t: Tables, p: Place, c: char): Place {
    match p
    case Dead => Dead
    case Outside(_) =>
      if c == '(' || c == '[' then Depth1(c) else if IsMid(t, c) then Outside(IsEnd(t, c)) else Dead
    case Depth1(open) =>
      if IsMid(t, c) then p else if c == open then Depth2(open) else if c == CloseOf(open) then Outside(true) else Dead
    case Depth2(open) => if IsMid(t, c) then p else if c == CloseOf(open) then Depth1(open) else Dead
  }

  function Run(t: Tables, p: Place, s: string): Place
    decreases s
  {
    if s == "" then p else Run(t, Next(t, p, s[0]), s[1..])
  }

  predicate Accepts(t: Tables, s: string) {
    Run(t, Outside(false), s) == Outside(true)
  }

  lemma {:induction false} RunAppend(t: Tables, p: Place, a: string, b: string)
    ensures Run(t, p, a + b) == Run(t, Run(t, p, a), b)
    decreases a
  {
    if a == "" {
      assert a + b == b;
    } else {
      assert (a + b)[1..] == a[1..] + b;
      RunAppend(t, Next(t, p, a[0]), a[1..], b);
    }
  }

  lemma {:induction false} DeadStays(t: Tables, s: string)
    ensures Run(t, Dead, s) == Dead
  {
    if s != "" {
      DeadStays(t, s[1..]);
    }
  }

  // ---------- What the expression matches is accepted ----------

  /** Middle characters leave the automaton at its depth, and outside brackets keep it outside. */
  lemma {:induction false} MidsRun(t: Tables, p: Place, s: string)
    requires Sound(t) && Matches(Star(Mid(t)), s)
    ensures p.Depth1? || p.Depth2? ==> Run(t, p, s) == p
    ensures p.Outside? ==> Run(t, p, s).Outside?
    decreases |s|
  {
    if s != "" {
      var x, y := SplitStar(Mid(t), s);
      assert s[1..] == y && s[0] == x[0];
      assert IsMid(t, s[0]) && !IsBracket(s[0]);
      MidsRun(t, Next(t, p, s[0]), y);
    }
  }

  lemma OneRun(t: Tables, p: Place, c: char)
    ensures Run(t, p, [c]) == Next(t, p, c)
  {
  }

  predicate IsOpen(open: char) {
    open == '(' || open == '['
  }

  lemma BracketsRun(t: Tables, open: char, p: Place)
    requires Sound(t) && IsOpen(open)
    ensures p.Outside? ==> Run(t, p, [open]) == Depth1(open)
    ensures Run(t, Depth1(open), [open]) == Depth2(open)
    ensures Run(t, Depth2(open), [CloseOf(open)]) == Depth1(open)
    ensures Run(t, Depth1(open), [CloseOf(open)]) == Outside(true)
  {
  }

  lemma InnerRun(t: Tables, open: char, s: string)
    requires Sound(t) && IsOpen(open) && Matches(Inner(t, open, CloseOf(open)), s)
    ensures Run(t, Depth1(open), s) == Depth1(open)
  {
    hide Matches, Run, Mid, Just;
    var close := CloseOf(open);
    var o, s1 := SplitCat(Just(open), Cat(Star(Mid(t)), Cat(Just(close), Star(Mid(t)))), s);
    var m, s2 := SplitCat(Star(Mid(t)), Cat(Just(close), Star(Mid(t))), s1);
    var c, n := SplitCat(Just(close), Star(Mid(t)), s2);
    JustMatches(open, o);
    JustMatches(close, c);
    BracketsRun(t, open, Outside(true));
    RunAppend(t, Depth1(open), o, s1);
    MidsRun(t, Depth2(open), m);
    RunAppend(t, Depth2(open), m, s2);
    RunAppend(t, Depth2(open), c, n);
    MidsRun(t, Depth1(open), n);
  }

  lemma {:induction false} InnersRun(t: Tables, open: char, s: string)
    requires Sound(t) && IsOpen(open) && Matches(Star(Inner(t, open, CloseOf(open))), s)
    ensures Run(t, Depth1(open), s) == Depth1(open)
    decreases |s|
  {
    hide Inner;
    if s != "" {
      var x, y := SplitStar(Inner(t, open, CloseOf(open)), s);
      InnerRun(t, open, x);
      InnersRun(t, open, y);
      RunAppend(t, Depth1(open), x, y);
    }
  }

  lemma WellRun(t: Tables, p: Place, open: char, s: string)
    requires Sound(t) && IsOpen(open) && p.Outside? && Matches(Well(t, open, CloseOf(open)), s)
    ensures Run(t, p, s) == Outside(true)
  {
    hide Inner, Matches, Run, Mid, Just;
    var close := CloseOf(open);
    var inner := Star(Inner(t, open, close));
    var o, s1 := SplitCat(Just(open), Body(t, open, close), s);
    var m, s2 := SplitCat(Star(Mid(t)), Cat(inner, Just(close)), s1);
    var i, c := SplitCat(inner, Just(close), s2);
    JustMatches(open, o);
    JustMatches(close, c);
    BracketsRun(t, open, p);
    RunAppend(t, p, o, s1);
    MidsRun(t, Depth1(open), m);
    RunAppend(t, Depth1(open), m, s2);
    InnersRun(t, open, i);
    RunAppend(t, Depth1(open), i, c);
  }

  lemma StopRun(t: Tables, p: Place, s: string)
    requires Sound(t) && p.Outside? && Matches(Stop(t), s)
    ensures Run(t, p, s) == Outside(true)
  {
    hide Well;
    if Matches(Well(t, '(', ')'), s) {
      WellRun(t, p, '(', s);
    } else if Matches(Well(t, '[', ']'), s) {
      WellRun(t, p, '[', s);
    } else {
      assert Matches(End(t), s);
      assert s == [s[0]] && !IsBracket(s[0]);
      OneRun(t, p, s[0]);
    }
  }

  lemma {:induction false} StopsRun(t: Tables, p: Place, s: string)
    requires Sound(t) && p.Outside? && Matches(Star(Stop(t)), s)
    ensures Run(t, p, s) == if s == "" then p else Outside(true)
    decreases |s|
  {
    hide Stop;
    if s != "" {
      var x, y := SplitStar(Stop(t), s);
      StopRun(t, p, x);
      StopsRun(t, Outside(true), y);
      RunAppend(t, p, x, y);
    }
  }

  lemma GroupRun(t: Tables, p: Place, s: string)
    requires Sound(t) && p.Outside? && Matches(Group(t), s)
    ensures Run(t, p, s) == Outside(true)
  {
    hide Stop;
    var m, s1 := SplitCat(Star(Mid(t)), Plus(Stop(t)), s);
    var x, y := SplitCat(Stop(t), Star(Stop(t)), s1);
    MidsRun(t, p, m);
    RunAppend(t, p, m, s1);
    StopRun(t, Run(t, p, m), x);
    RunAppend(t, Run(t, p, m), x, y);
    StopsRun(t, Outside(true), y);
  }

  lemma {:induction false} GroupsRun(t: Tables, p: Place, s: string)
    requires Sound(t) && p.Outside? && Matches(Star(Group(t)), s)
    ensures Run(t, p, s) == if s == "" then p else Outside(true)
    decreases |s|
  {
    hide Group;
    if s != "" {
      var x, y := SplitStar(Group(t), s);
      GroupRun(t, p, x);
      GroupsRun(t, Outside(true), y);
      RunAppend(t, p, x, y);
    }
  }

  lemma MatchedIsAccepted(t: Tables, s: string)
    requires Sound(t) && Matches(PathCont(t), s)
    ensures Accepts(t, s)
  {
    hide Group;
    var x, y := SplitCat(Group(t), Star(Group(t)), s);
    GroupRun(t, Outside(false), x);
    GroupsRun(t, Outside(true), y);
    RunAppend(t, Outside(false), x, y);
  }

  // ---------- What is accepted the expression matches ----------

  lemma MidsMore(t: Tables, c: char, s: string)
    requires IsMid(t, c) && Matches(Star(Mid(t)), s)
    ensures Matches(Star(Mid(t)), [c] + s)
  {
    assert Matches(Mid(t), [c]);
    StarMore(Mid(t), [c], s);
  }

  /** From depth 2 the run comes back to depth 1 over middle characters and a closing bracket. */
  lemma {:induction false} LeaveDepth2(t: Tables, open: char, s: string, goal: Place) returns (m: string, y: string)
    requires Sound(t) && IsOpen(open) && Run(t, Depth2(open), s) == goal && !goal.Depth2? && !goal.Dead?
    ensures s == m + [CloseOf(open)] + y && Matches(Star(Mid(t)), m) && Run(t, Depth1(open), y) == goal
  {
    if IsMid(t, s[0]) {
      m, y := LeaveDepth2(t, open, s[1..], goal);
      MidsMore(t, s[0], m);
      m := [s[0]] + m;
    } else {
      if s[0] != CloseOf(open) {
        DeadStays(t, s[1..]);
      }
      m, y := "", s[1..];
      StarNone(Mid(t));
      assert s == m + [s[0]] + y;
    }
  }

  lemma BodyFromMid(t: Tables, open: char, close: char, c: char, x: string)
    requires IsMid(t, c) && Matches(Body(t, open, close), x)
    ensures Matches(Body(t, open, close), [c] + x)
  {
    hide Inner, Matches;
    var rest := Cat(Star(Inner(t, open, close)), Just(close));
    var m, y := SplitCat(Star(Mid(t)), rest, x);
    MidsMore(t, c, m);
    CatMatches(Star(Mid(t)), rest, [c] + m, y);
    assert [c] + m + y == [c] + x;
  }

  lemma InnerPair(t: Tables, open: char, close: char, m: string, n: string)
    requires Matches(Star(Mid(t)), m) && Matches(Star(Mid(t)), n)
    ensures Matches(Inner(t, open, close), [open] + (m + ([close] + n)))
  {
    hide Matches, Mid, Just;
    var mids := Star(Mid(t));
    JustMatches(open, [open]);
    JustMatches(close, [close]);
    CatMatches(Just(close), mids, [close], n);
    CatMatches(mids, Cat(Just(close), mids), m, [close] + n);
    CatMatches(Just(open), Cat(mids, Cat(Just(close), mids)), [open], m + ([close] + n));
  }

  lemma BodyFromInner(t: Tables, open: char, close: char, m: string, x: string)
    requires Matches(Star(Mid(t)), m) && Matches(Body(t, open, close), x)
    ensures Matches(Body(t, open, close), [open] + m + [close] + x)
  {
    hide Matches, Mid, Inner, Just;
    var mids, inner := Star(Mid(t)), Inner(t, open, close);
    var rest := Cat(Star(inner), Just(close));
    var n, y := SplitCat(mids, rest, x);
    var i, c := SplitCat(Star(inner), Just(close), y);
    InnerPair(t, open, close, m, n);
    var pair := [open] + (m + ([close] + n));
    StarMore(inner, pair, i);
    CatMatches(Star(inner), Just(close), pair + i, c);
    StarNone(Mid(t));
    CatMatches(mids, rest, "", pair + i + c);
    Regroup([open], m, [close], n, i + c);
    assert "" + (pair + i + c) == pair + (i + c);
  }

  lemma Regroup(a: string, b: string, c: string, d: string, e: string)
    ensures a + (b + (c + d)) + e == a + b + c + (d + e)
  {
  }

  lemma BodyEnds(t: Tables, open: char, close: char)
    ensures Matches(Body(t, open, close), [close])
  {
    hide Inner, Mid;
    StarNone(Inner(t, open, close));
    StarNone(Mid(t));
    assert Matches(Just(close), [close]);
    CatMatches(Star(Inner(t, open, close)), Just(close), "", [close]);
    CatMatches(Star(Mid(t)), Cat(Star(Inner(t, open, close)), Just(close)), "", "" + [close]);
    assert "" + ("" + [close]) == [close];
  }

  /** The first step at depth 1 of a run that ends outside. */
  lemma FirstStepAtDepth1(t: Tables, open: char, s: string)
    requires Sound(t) && IsOpen(open) && Run(t, Depth1(open), s) == Outside(true)
    ensures s != "" && s == [s[0]] + s[1..]
    ensures IsMid(t, s[0]) ==> Run(t, Depth1(open), s[1..]) == Outside(true)
    ensures !IsMid(t, s[0]) ==> s[0] == open || s[0] == CloseOf(open)
    ensures !IsMid(t, s[0]) && s[0] == open ==> Run(t, Depth2(open), s[1..]) == Outside(true)
    ensures !IsMid(t, s[0]) && s[0] == CloseOf(open) ==> Run(t, Outside(true), s[1..]) == Outside(true)
  {
    hide IsMid;
    DeadStays(t, s[1..]);
    assert open != CloseOf(open);
  }

  /** From depth 1 the run comes back outside over what the expression allows inside brackets. */
  lemma {:induction false} LeaveDepth1(t: Tables, open: char, s: string) returns (x: string, y: string)
    requires Sound(t) && IsOpen(open) && Run(t, Depth1(open), s) == Outside(true)
    ensures s == x + y && x != "" && Matches(Body(t, open, CloseOf(open)), x)
    ensures Run(t, Outside(true), y) == Outside(true)
    decreases |s|
  {
    hide Body, Matches, Run, IsMid, Mid;
    var close := CloseOf(open);
    FirstStepAtDepth1(t, open, s);
    var c, tail := s[0], s[1..];
    if IsMid(t, c) {
      x, y := LeaveDepth1(t, open, tail);
      BodyFromMid(t, open, close, c, x);
      x := [c] + x;
    } else if c == open {
      var m, more := LeaveDepth2(t, open, tail, Outside(true));
      x, y := LeaveDepth1(t, open, more);
      BodyFromInner(t, open, close, m, x);
      x := [open] + m + [close] + x;
    } else {
      BodyEnds(t, open, close);
      x, y := [close], tail;
    }
  }

  /** One more path character in front. */
  lemma PathFromMid(t: Tables, c: char, s: string)
    requires IsMid(t, c) && Matches(PathCont(t), s)
    ensures Matches(PathCont(t), [c] + s)
  {
    hide Stop, Matches;
    var x, y := SplitCat(Group(t), Star(Group(t)), s);
    var m, z := SplitCat(Star(Mid(t)), Plus(Stop(t)), x);
    MidsMore(t, c, m);
    CatMatches(Star(Mid(t)), Plus(Stop(t)), [c] + m, z);
    CatMatches(Group(t), Star(Group(t)), [c] + m + z, y);
    assert [c] + m + z + y == [c] + s;
  }

  lemma StopIsGroup(t: Tables, s: string)
    requires Matches(Stop(t), s)
    ensures Matches(Group(t), s)
  {
    hide Stop, Mid;
    PlusOnce(Stop(t), s);
    StarNone(Mid(t));
    CatMatches(Star(Mid(t)), Plus(Stop(t)), "", s);
    assert "" + s == s;
  }

  /** An end, alone or in front of a path. */
  lemma PathFromStop(t: Tables, x: string, y: string)
    requires Matches(Stop(t), x) && (y == "" || Matches(PathCont(t), y))
    ensures Matches(PathCont(t), x + y)
  {
    hide Group;
    StopIsGroup(t, x);
    if y == "" {
      PlusOnce(Group(t), x);
      assert x + y == x;
    } else {
      PlusMore(Group(t), x, y);
    }
  }

  lemma {:induction false} AcceptedIsMatched(t: Tables, s: string, p: Place)
    requires Sound(t) && p.Outside? && s != "" && Run(t, p, s) == Outside(true)
    ensures Matches(PathCont(t), s)
    decreases |s|
  {
    hide PathCont, Stop, Body;
    var c, tail := s[0], s[1..];
    assert s == [c] + tail;
    if c == '(' || c == '[' {
      var x, y := LeaveDepth1(t, c, tail);
      WellIsStop(t, c, x);
      if y != "" {
        AcceptedIsMatched(t, y, Outside(true));
      }
      PathFromStop(t, [c] + x, y);
      assert [c] + x + y == s;
    } else if IsMid(t, c) {
      if tail == "" {
        EndIsStop(t, c);
        PathFromStop(t, [c], "");
        assert [c] + "" == s;
      } else {
        AcceptedIsMatched(t, tail, Outside(IsEnd(t, c)));
        PathFromMid(t, c, tail);
      }
    } else {
      DeadStays(t, tail);
    }
  }

  lemma WellIsStop(t: Tables, open: char, x: string)
    requires IsOpen(open) && Matches(Body(t, open, CloseOf(open)), x)
    ensures Matches(Stop(t), [open] + x)
  {
    hide Body;
    assert Matches(Just(open), [open]);
    CatMatches(Just(open), Body(t, open, CloseOf(open)), [open], x);
    assert Matches(WellAll(t), [open] + x);
  }

  lemma EndIsStop(t: Tables, c: char)
    requires IsEnd(t, c)
    ensures Matches(Stop(t), [c])
  {
  }

  /** The expression and the automaton define the same strings. */
  lemma PathContIsTheAutomaton(t: Tables, s: string)
    requires Sound(t)
    ensures Matches(PathCont(t), s) <==> Accepts(t, s)
  {
    hide PathCont;
    if Accepts(t, s) {
      AcceptedIsMatched(t, s, Outside(false));
    }
    if Matches(PathCont(t), s) {
      MatchedIsAccepted(t, s);
    }
  }

  // ---------- Longest match ----------

  /** `n` is the length of the longest prefix the expression matches, or there is none and `n` is 0. */
  ghost predicate LongestMatch(r: Re, s: string, n: nat) {
    && n <= |s|
    && (n > 0 ==> Matches(r, s[..n]))
    && forall k :: n < k <= |s| ==> !Matches(r, s[..k])
  }

  /** The length of the longest prefix the automaton accepts: its last accepting position. */
  function LastAccepting(t: Tables, s: string): (n: nat)
    ensures n <= |s|
  {
    if s == "" then 0 else if Accepts(t, s) then |s| else LastAccepting(t, s[..|s| - 1])
  }

  lemma {:induction false} LastAcceptingIsLast(t: Tables, s: string)
    ensures LastAccepting(t, s) > 0 ==> Accepts(t, s[..LastAccepting(t, s)])
    ensures forall k :: LastAccepting(t, s) < k <= |s| ==> !Accepts(t, s[..k])
  {
    hide Accepts;
    assert s[..|s|] == s;
    if s != "" && !Accepts(t, s) {
      var front := s[..|s| - 1];
      LastAcceptingIsLast(t, front);
      assert forall k :: 0 <= k <= |front| ==> front[..k] == s[..k];
    }
  }

  /** In longest-match mode the expression matches up to the last accepting position. */
  lemma LongestMatchIsLastAccepting(t: Tables, s: string, n: nat)
    requires Sound(t)
    ensures LongestMatch(PathCont(t), s, n) <==> n == LastAccepting(t, s)
  {
    hide PathCont, Accepts, LastAccepting;
    LastAcceptingIsLast(t, s);
    forall k | 0 <= k <= |s| ensures Matches(PathCont(t), s[..k]) <==> Accepts(t, s[..k]) {
      PathContIsTheAutomaton(t, s[..k]);
    }
  }

  // ---------- Single characters ----------

  lemma RunOne(t: Tables, p: Place, c: char)
    ensures Run(t, p, [c]) == Next(t, p, c)
  {
    assert [c][1..] == "";
  }

  /** A path of one character is an end character: a letter, a number, a currency sign or one of ten others. */
  lemma PathsOfOneCharacter(t: Tables, c: char)
    requires Sound(t)
    ensures Matches(PathCont(t), [c]) <==>
            t.letter(c) || t.number(c) || t.currency(c) ||
            c == '/' || c == '-' || c == '+' || c == '_' || c == '&' || c == '~' || c == '*' || c == '%' ||
            c == '=' || c == '#'
  {
    hide PathCont, Matches;
    PathContIsTheAutomaton(t, [c]);
    RunOne(t, Outside(false), c);
  }

  /** In front of an end a path may also hold another symbol or one of nine punctuation marks. */
  lemma PathsOfTwoCharacters(t: Tables, c: char)
    requires Sound(t)
    ensures Matches(PathCont(t), [c, '/']) <==>
            Matches(PathCont(t), [c]) || t.otherSymbol(c) ||
            c == '@' || c == '.' || c == ',' || c == ':' || c == ';' || c == '\'' || c == '?' || c == '!' || c == '|'
  {
    hide PathCont, Matches;
    PathContIsTheAutomaton(t, [c]);
    PathContIsTheAutomaton(t, [c, '/']);
    RunOne(t, Outside(false), c);
    RunAppend(t, Outside(false), [c], "/");
    assert [c] + "/" == [c, '/'];
    RunOne(t, Next(t, Outside(false), c), '/');
  }
}
