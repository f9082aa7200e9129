/** Regular expressions over characters, with the language each denotes. */
module Regex {
  datatype Re =
    | Class(member: char -> bool)
    | Cat(first: Re, second: Re)
    | Alt(left: Re, right: Re)
    | Star(body: Re)

  /** One or more. */
  function Plus(r: Re): Re {
    Cat(r, Star(r))
  }

  function Just(c: char): Re {
    Class(x => x == c)
  }

  ghost predicate Matches(r: Re, s: string)
    decreases r, |s|
  {
    match r
    case Class(member) => |s| == 1 && member(s[0])
    case Cat(a, b) => exists i :: 0 <= i <= |s| && Matches(a, s[..i]) && Matches(b, s[i..])
    case Alt(a, b) => Matches(a, s) || Matches(b, s)
    case Star(a) => s == "" || exists i :: 0 < i <= |s| && Matches(a, s[..i]) && Matches(r, s[i..])
  }

  lemma JustMatches(c: char, s: string)
    ensures Matches(Just(c), s) <==> s == [c]
  {
  }

  lemma CatMatches(a: Re, b: Re, s: string, t: string)
    requires Matches(a, s) && Matches(b, t)
    ensures Matches(Cat(a, b), s + t)
  {
    assert (s + t)[..|s|] == s && (s + t)[|s|..] == t;
  }

  lemma SplitCat(a: Re, b: Re, s: string) returns (x: string, y: string)
    requires Matches(Cat(a, b), s)
    ensures s == x + y && Matches(a, x) && Matches(b, y)
  {
    var i :| 0 <= i <= |s| && Matches(a, s[..i]) && Matches(b, s[i..]);
    x, y := s[..i], s[i..];
  }

  lemma StarMore(a: Re, s: string, t: string)
    requires Matches(a, s) && Matches(Star(a), t)
    ensures Matches(Star(a), s + t)
  {
    if s == "" {
      assert s + t == t;
    } else {
      assert (s + t)[..|s|] == s && (s + t)[|s|..] == t;
    }
  }

  /** A nonempty string of Star(a) starts with a nonempty string of `a`. */
  lemma SplitStar(a: Re, s: string) returns (x: string, y: string)
    requires Matches(Star(a), s) && s != ""
    ensures s == x + y && x != "" && Matches(a, x) && Matches(Star(a), y)
  {
    var i :| 0 < i <= |s| && Matches(a, s[..i]) && Matches(Star(a), s[i..]);
    x, y := s[..i], s[i..];
  }

  lemma StarNone(a: Re)
    ensures Matches(Star(a), "")
  {
  }

  lemma PlusOnce(a: Re, s: string)
    requires Matches(a, s)
    ensures Matches(Plus(a), s)
  {
    StarNone(a);
    CatMatches(a, Star(a), s, "");
    assert s + "" == s;
  }

  lemma PlusMore(a: Re, s: string, t: string)
    requires Matches(a, s) && Matches(Plus(a), t)
    ensures Matches(Plus(a), s + t)
  {
    PlusIsStar(a, t);
    CatMatches(a, Star(a), s, t);
  }

  lemma PlusIsStar(a: Re, s: string)
    requires Matches(Plus(a), s)
    ensures Matches(Star(a), s)
  {
  }
}
