/**
 * The note linkifier: turns the links found in a text into anchors by scanning the text once.
 * Strings are Go's byte strings; each char is one byte. The regex search is a parameter.
 */
module Linkifier {
  const SCHEMES: seq<string> :=
    ["http://", "https://", "bitcoin://", "file://", "magnet://", "mailto://", "sms://", "tel://", "smp://"]

  predicate Contains(s: string, sub: string) {
    exists i :: 0 <= i <= |s| && sub <= s[i..]
  }

  /** A string contains what stands anywhere in it, at its ends included. */
  lemma ContainsWhatStandsIn(a: string, sub: string, b: string)
    ensures Contains(a + sub + b, sub)
  {
    assert (a + sub + b)[|a|..] == sub + b;
  }

  lemma ContainedStandsIn(s: string, sub: string) returns (a: string, b: string)
    requires Contains(s, sub)
    ensures s == a + sub + b
  {
    var i :| 0 <= i <= |s| && sub <= s[i..];
    a, b := s[..i], s[i + |sub|..];
  }

  predicate HasScheme(link: string) {
    exists k :: 0 <= k < |SCHEMES| && Contains(link, SCHEMES[k])
  }

  function Target(link: string): string {
    if HasScheme(link) then link else "http://" + link
  }

  /** The nine texts that keep a link as it is. */
  lemma TargetOf(link: string)
    ensures Target(link) ==
            if Contains(link, "http://") || Contains(link, "https://") || Contains(link, "bitcoin://") ||
               Contains(link, "file://") || Contains(link, "magnet://") || Contains(link, "mailto://") ||
               Contains(link, "sms://") || Contains(link, "tel://") || Contains(link, "smp://") then link
            else "http://" + link
  {
    hide Contains;
    assert SCHEMES[0] == "http://" && SCHEMES[1] == "https://" && SCHEMES[2] == "bitcoin://";
    assert SCHEMES[3] == "file://" && SCHEMES[4] == "magnet://" && SCHEMES[5] == "mailto://";
    assert SCHEMES[6] == "sms://" && SCHEMES[7] == "tel://" && SCHEMES[8] == "smp://";
  }

  predicate StartsWithScheme(link: string) {
    exists k :: 0 <= k < |SCHEMES| && SCHEMES[k] <= link
  }

  /**
   * An anchor leads to an address with a listed scheme in front exactly if the link has one in
   * front or none anywhere. A scheme further on keeps the missing one from being supplied.
   */
  lemma TargetStartsWithSchemeIff(link: string)
    ensures StartsWithScheme(Target(link)) <==> StartsWithScheme(link) || !HasScheme(link)
  {
    if HasScheme(link) {
      assert Target(link) == link;
    } else {
      assert SCHEMES[0] <= Target(link);
    }
  }

  lemma ContainsItsChars(s: string, sub: string, c: char)
    requires Contains(s, sub) && c in sub
    ensures c in s
  {
    var i :| 0 <= i <= |s| && sub <= s[i..];
    var j :| 0 <= j < |sub| && sub[j] == c;
    assert s[i..][j] == s[i + j];
  }

  lemma SchemeHasSlash(link: string)
    requires HasScheme(link)
    ensures '/' in link
  {
    var k :| 0 <= k < |SCHEMES| && Contains(link, SCHEMES[k]);
    assert SCHEMES[k][|SCHEMES[k]| - 1] == '/';
    ContainsItsChars(link, SCHEMES[k], '/');
  }

  /** A link without slashes is taken for a host, even if it names a scheme such as mailto. */
  lemma SlashlessLinkGetsHttp(link: string)
    requires '/' !in link
    ensures Target(link) == "http://" + link
  {
    if HasScheme(link) {
      SchemeHasSlash(link);
    }
  }

  /** A mail address leads to a host. */
  lemma MailtoLeadsToHost()
    ensures Target("mailto:a@b.org") == "http://mailto:a@b.org"
  {
    SlashlessLinkGetsHttp("mailto:a@b.org");
  }

  /** A host with an address in its query leads to a relative path. */
  lemma QueryWithSchemeStaysRelative()
    ensures Target("a.com/?u=http://b.c") == "a.com/?u=http://b.c" && !StartsWithScheme("a.com/?u=http://b.c")
  {
    hide StartsWithScheme;
    var link := "a.com/?u=http://b.c";
    assert SCHEMES[0] <= link[9..];
    NoSchemeStartsWithA(link);
  }

  lemma NoSchemeStartsWithA(link: string)
    requires link != "" && link[0] == 'a'
    ensures !StartsWithScheme(link)
  {
    forall k | 0 <= k < |SCHEMES| ensures !(SCHEMES[k] <= link) {
      assert SCHEMES[k][0] != 'a';
    }
  }

  function Anchor(link: string): string {
    "<a href=" + Target(link) + " target=_new>" + link + "</a>"
  }

  /** What is appended to the output: a link as an anchor, or one byte of the text. */
  datatype Piece = Link(link: string) | Plain(c: char)

  function Render(pieces: seq<Piece>): string {
    if pieces == [] then ""
    else
      var last := pieces[|pieces| - 1];
      Render(pieces[..|pieces| - 1]) + if last.Link? then Anchor(last.link) else [last.c]
  }

  function BareOf(p: Piece): string {
    if p.Link? then p.link else [p.c]
  }

  /** The output with the tags erased. */
  function Bare(pieces: seq<Piece>): string {
    if pieces == [] then "" else BareOf(pieces[0]) + Bare(pieces[1..])
  }

  function LinksOf(p: Piece): seq<string> {
    if p.Link? then [p.link] else []
  }

  function Links(pieces: seq<Piece>): seq<string> {
    if pieces == [] then [] else LinksOf(pieces[0]) + Links(pieces[1..])
  }

  // ---------- The loop as a machine ----------

  datatype State = State(links: seq<string>, rest: string)

  /** The link placed by one iteration, if the rest starts with the current link. */
  function Placing(s: State): seq<Piece>
    requires s.links != []
  {
    if s.links[0] <= s.rest then [Link(s.links[0])] else []
  }

  function AfterPlacing(s: State): State
    requires s.links != []
  {
    if s.links[0] <= s.rest then State(s.links[1..], s.rest[|s.links[0]|..]) else s
  }

  /** Then one byte is copied, unless nothing is left. */
  function Copying(s: State): seq<Piece>
    requires s.links != []
  {
    var t := AfterPlacing(s);
    if t.rest == "" then [] else [Plain(t.rest[0])]
  }

  function Step(s: State): State {
    if s.links == [] then s
    else
      var t := AfterPlacing(s);
      if t.rest == "" then t else State(t.links, t.rest[1..])
  }

  function After(s: State, n: nat): State
    decreases n
  {
    if n == 0 then s else After(Step(s), n - 1)
  }

  /** The loop comes to its end from `s`. */
  ghost predicate Ends(s: State) {
    exists n: nat :: After(s, n).links == []
  }

  /** The links occur in the text at these places, in order, with a byte between any two. */
  predicate Placed(text: string, links: seq<string>, places: seq<nat>) {
    && |places| == |links|
    && (forall i :: 0 <= i < |links| ==>
          places[i] + |links[i]| <= |text| && text[places[i]..places[i] + |links[i]|] == links[i])
    && forall i :: 0 < i < |links| ==> places[i - 1] + |links[i - 1]| < places[i]
  }

  ghost predicate Gapped(text: string, links: seq<string>) {
    exists places :: Placed(text, links, places)
  }

  /** The places in a text without its first `n` bytes. */
  function Shift(places: seq<nat>, n: nat): seq<nat>
    requires forall i :: 0 <= i < |places| ==> n <= places[i]
  {
    seq(|places|, i requires 0 <= i < |places| => places[i] - n)
  }

  lemma {:induction false} PlacesIncrease(text: string, links: seq<string>, places: seq<nat>, i: nat)
    requires Placed(text, links, places) && 0 < i < |links|
    ensures places[0] + |links[0]| < places[i]
  {
    if i > 1 {
      PlacesIncrease(text, links, places, i - 1);
    }
  }

  lemma PlacedInRest(text: string, links: seq<string>, places: seq<nat>, n: nat)
    requires Placed(text, links, places) && n <= |text| && forall i :: 0 <= i < |places| ==> n <= places[i]
    ensures Placed(text[n..], links, Shift(places, n))
  {
  }

  /** How far one iteration moves in the text. */
  function Moved(s: State): nat
    requires s.links != []
  {
    StepDrops(s);
    |s.rest| - |Step(s).rest|
  }

  lemma PlacedWithoutFirst(text: string, links: seq<string>, places: seq<nat>)
    requires links != [] && Placed(text, links, places)
    ensures places != [] && Placed(text, links[1..], places[1..])
    ensures forall i :: 0 <= i < |places[1..]| ==> |links[0]| < places[1..][i]
  {
    var rest, later := links[1..], places[1..];
    assert forall i :: 0 <= i < |rest| ==> rest[i] == links[i + 1] && later[i] == places[i + 1];
    forall i | 0 <= i < |later| ensures |links[0]| < later[i] {
      PlacesIncrease(text, links, places, i + 1);
    }
    forall i | 0 < i < |rest| ensures later[i - 1] + |rest[i - 1]| < later[i] {
      assert places[i] + |links[i]| < places[i + 1];
    }
  }

  /** The current link is here: the others lie beyond it and the byte behind it. */
  lemma PlacedBeyond(s: State, places: seq<nat>) returns (next: seq<nat>)
    requires s.links != [] && Placed(s.rest, s.links, places) && s.links[0] <= s.rest
    ensures Placed(Step(s).rest, Step(s).links, next) && |places| == |next| + 1
    ensures forall i :: 0 <= i < |next| ==> next[i] + Moved(s) == places[i + 1]
  {
    hide Placed;
    var n := if |s.rest| == |s.links[0]| then |s.links[0]| else |s.links[0]| + 1;
    PlacedWithoutFirst(s.rest, s.links, places);
    PlacedInRest(s.rest, s.links[1..], places[1..], n);
    assert n > |s.links[0]| ==> s.rest[|s.links[0]|..][1..] == s.rest[n..];
    next := Shift(places[1..], n);
  }

  /** The current link is not here: all places lie further on. */
  lemma PlacedFurther(s: State, places: seq<nat>) returns (next: seq<nat>)
    requires s.links != [] && Placed(s.rest, s.links, places) && !(s.links[0] <= s.rest)
    ensures Placed(Step(s).rest, Step(s).links, next) && |places| == |next|
    ensures Moved(s) == 1 && forall i :: 0 <= i < |next| ==> next[i] + 1 == places[i]
  {
    var link := s.links[0];
    assert s.rest[places[0]..places[0] + |link|] == link;
    assert places[0] != 0;
    forall i | 0 <= i < |places| ensures 1 <= places[i] {
      if i > 0 {
        PlacesIncrease(s.rest, s.links, places, i);
      }
    }
    PlacedInRest(s.rest, s.links, places, 1);
    next := Shift(places, 1);
  }

  /** The search never passes the true place of the current link, so what remains is still placed. */
  lemma StaysAhead(s: State, places: seq<nat>) returns (next: seq<nat>)
    requires s.links != [] && Placed(s.rest, s.links, places)
    ensures Placed(Step(s).rest, Step(s).links, next)
    ensures Step(s).links == s.links ==> |Step(s).rest| < |s.rest|
    ensures |places| == |next| + (if s.links[0] <= s.rest then 1 else 0)
    ensures forall i :: 0 <= i < |next| ==> next[i] + Moved(s) == places[i + |places| - |next|]
  {
    hide Placed;
    if s.links[0] <= s.rest {
      next := PlacedBeyond(s, places);
    } else {
      next := PlacedFurther(s, places);
    }
  }

  lemma {:induction false} PlacedEnds(s: State, places: seq<nat>) returns (n: nat)
    requires Placed(s.rest, s.links, places)
    ensures After(s, n).links == []
    decreases |s.links|, |s.rest|
  {
    hide Placed, Step;
    if s.links == [] {
      n := 0;
      assert After(s, 0) == s;
    } else {
      StepDrops(s);
      var next := StaysAhead(s, places);
      var m := PlacedEnds(Step(s), next);
      n := m + 1;
    }
  }

  /** A run that ends has placed every link, and its places are such an occurrence. */
  lemma {:induction false} EndingPlaces(s: State, n: nat) returns (places: seq<nat>)
    requires After(s, n).links == [] && forall i :: 0 <= i < |s.links| ==> s.links[i] != ""
    ensures Placed(s.rest, s.links, places)
    decreases n
  {
    places := [];
    if s.links != [] {
      hide Placed, Step;
      var next := Step(s);
      StepDrops(s);
      var later := EndingPlaces(next, n - 1);
      var moved := |s.rest| - |next.rest|;
      var back := MoveBack(s.rest, next.links, later, moved);
      if s.links[0] <= s.rest {
        places := [0] + back;
        PlacedAfterFirst(s, back, moved);
      } else {
        places := back;
      }
    } else {
      assert Placed(s.rest, [], []);
    }
  }

  /** Places in a text without its first bytes, as places in the text. */
  lemma MoveBack(text: string, links: seq<string>, later: seq<nat>, moved: nat) returns (back: seq<nat>)
    requires moved <= |text| && Placed(text[moved..], links, later)
    ensures Placed(text, links, back) && forall i :: 0 <= i < |back| ==> moved <= back[i]
  {
    back := seq(|later|, i requires 0 <= i < |later| => later[i] + moved);
    assert Shift(back, moved) == later;
    PlacedFurtherOn(text, links, back, moved);
  }

  lemma StepDrops(s: State)
    requires s.links != []
    ensures |Step(s).rest| <= |s.rest| && s.rest[|s.rest| - |Step(s).rest|..] == Step(s).rest
    ensures Step(s).links == if s.links[0] <= s.rest then s.links[1..] else s.links
  {
  }

  lemma PlacedAfterFirst(s: State, back: seq<nat>, moved: nat)
    requires s.links != [] && s.links[0] <= s.rest && forall i :: 0 <= i < |s.links| ==> s.links[i] != ""
    requires Placed(s.rest, s.links[1..], back) && forall i :: 0 <= i < |back| ==> moved <= back[i]
    requires moved == |s.rest| - |Step(s).rest|
    ensures Placed(s.rest, s.links, [0] + back)
  {
    var link, rest := s.links[0], s.links[1..];
    assert rest != [] ==> |link| < back[0] by {
      if rest != [] {
        assert rest[0] == s.links[1] != "" && back[0] + |rest[0]| <= |s.rest|;
      }
    }
    assert s.links == [link] + rest;
    PlacedInFront(s.rest, link, rest, back);
  }

  lemma PlacedInFront(text: string, link: string, rest: seq<string>, back: seq<nat>)
    requires link <= text && Placed(text, rest, back) && (rest != [] ==> |link| < back[0])
    ensures Placed(text, [link] + rest, [0] + back)
  {
  }

  lemma PlacedFurtherOn(text: string, links: seq<string>, places: seq<nat>, n: nat)
    requires n <= |text| && forall i :: 0 <= i < |places| ==> n <= places[i]
    requires Placed(text[n..], links, Shift(places, n))
    ensures Placed(text, links, places)
  {
  }

  /** The loop ends if and only if the links occur in order with a byte between any two. */
  lemma EndsIffGapped(text: string, links: seq<string>)
    requires forall i :: 0 <= i < |links| ==> links[i] != ""
    ensures Ends(State(links, text)) <==> Gapped(text, links)
  {
    if Gapped(text, links) {
      var places :| Placed(text, links, places);
      var n := PlacedEnds(State(links, text), places);
    }
    if Ends(State(links, text)) {
      var n: nat :| After(State(links, text), n).links == [];
      var places := EndingPlaces(State(links, text), n);
    }
  }

  lemma TwoPlacesNeedRoom(text: string, a: string, b: string, places: seq<nat>)
    requires Placed(text, [a, b], places)
    ensures |a| + |b| < |text|
  {
    assert places[0] + |[a, b][0]| < places[1] && places[1] + |[a, b][1]| <= |text|;
  }

  /** With one link right behind the other, the byte copied after the first is the second's. */
  lemma AdjacentLinksNeverEnd(a: string, b: string)
    requires a != "" && b != ""
    ensures !Ends(State([a, b], a + b))
  {
    if Gapped(a + b, [a, b]) {
      var places :| Placed(a + b, [a, b], places);
      TwoPlacesNeedRoom(a + b, a, b, places);
    }
    EndsIffGapped(a + b, [a, b]);
  }

  /** Such links are a host name and an address: a host name ends before the colon of the address. */
  lemma HostThenAddressNeverEnds()
    ensures !Ends(State(["foo.com", "::1"], "foo.com::1"))
  {
    AdjacentLinksNeverEnd("foo.com", "::1");
    assert "foo.com" + "::1" == "foo.com::1";
  }

  // ---------- The output ----------

  function MoveAll(places: seq<nat>, n: nat): seq<nat> {
    seq(|places|, i requires 0 <= i < |places| => places[i] + n)
  }

  /** Where in the rest of the text the loop places the links still to come. */
  ghost function PlacesChosen(s: State): seq<nat>
    requires Gapped(s.rest, s.links)
    decreases |s.links|, |s.rest|
  {
    if s.links == [] then []
    else
      GapRemains(s);
      var later := MoveAll(PlacesChosen(Step(s)), Moved(s));
      if s.links[0] <= s.rest then [0] + later else later
  }

  predicate NoLater(xs: seq<nat>, ys: seq<nat>) {
    |xs| == |ys| && forall i :: 0 <= i < |xs| ==> xs[i] <= ys[i]
  }

  lemma NoLaterMoved(xs: seq<nat>, ys: seq<nat>, n: nat)
    requires NoLater(xs, ys)
    ensures NoLater(MoveAll(xs, n), MoveAll(ys, n))
  {
  }

  lemma NoLaterBehindFirst(xs: seq<nat>, ys: seq<nat>)
    requires ys != [] && NoLater(xs, ys[1..])
    ensures NoLater([0] + xs, ys)
  {
  }

  /** Each link is placed no later than in any occurrence with gaps. */
  lemma {:induction false} GreedyChoosesFirst(s: State, places: seq<nat>)
    requires Placed(s.rest, s.links, places)
    ensures Gapped(s.rest, s.links) && NoLater(PlacesChosen(s), places)
    decreases |s.links|, |s.rest|
  {
    if s.links != [] {
      hide Placed, Step, Moved, PlacesChosen, NoLater, MoveAll;
      StepDrops(s);
      GappedBy(s, places);
      var next := MovesOn(s, places);
      GreedyChoosesFirst(Step(s), next);
      NoLaterMoved(PlacesChosen(Step(s)), next, Moved(s));
      ChosenUnfold(s);
      var later := MoveAll(PlacesChosen(Step(s)), Moved(s));
      if s.links[0] <= s.rest {
        NoLaterBehindFirst(later, places);
      } else {
        assert [] + later == later;
      }
    }
  }

  /** The places of the links still to come, moved by one iteration. */
  lemma MovesOn(s: State, places: seq<nat>) returns (next: seq<nat>)
    requires s.links != [] && Placed(s.rest, s.links, places)
    ensures Placed(Step(s).rest, Step(s).links, next)
    ensures Step(s).links == s.links ==> |Step(s).rest| < |s.rest|
    ensures s.links[0] <= s.rest ==> places != []
    ensures MoveAll(next, Moved(s)) == if s.links[0] <= s.rest then places[1..] else places
  {
    hide Placed, Step, Moved;
    next := StaysAhead(s, places);
  }

  lemma GappedBy(s: State, places: seq<nat>)
    requires Placed(s.rest, s.links, places)
    ensures Gapped(s.rest, s.links)
  {
  }

  lemma ChosenUnfold(s: State)
    requires s.links != [] && Gapped(s.rest, s.links)
    ensures Gapped(Step(s).rest, Step(s).links)
    ensures PlacesChosen(s)
         == (if s.links[0] <= s.rest then [0] else []) + MoveAll(PlacesChosen(Step(s)), Moved(s))
  {
    hide Gapped, Step, MoveAll;
    GapRemains(s);
    assert [] + MoveAll(PlacesChosen(Step(s)), Moved(s)) == MoveAll(PlacesChosen(Step(s)), Moved(s));
  }

  lemma MovedPlaces(text: string, links: seq<string>, later: seq<nat>, n: nat)
    requires n <= |text| && Placed(text[n..], links, later)
    ensures Placed(text, links, MoveAll(later, n))
  {
    assert Shift(MoveAll(later, n), n) == later;
    PlacedFurtherOn(text, links, MoveAll(later, n), n);
  }

  /** The byte behind the first link lies before the others. */
  lemma FirstLinkInFront(s: State, later: seq<nat>)
    requires s.links != [] && s.links[0] <= s.rest && Gapped(s.rest, s.links)
    requires Placed(s.rest, s.links[1..], later) && forall i :: 0 <= i < |later| ==> Moved(s) <= later[i]
    ensures Placed(s.rest, s.links, [0] + later)
  {
    var link, others := s.links[0], s.links[1..];
    assert s.links == [link] + others;
    if others != [] {
      var places :| Placed(s.rest, s.links, places);
      PlacesIncrease(s.rest, s.links, places, 1);
      assert places[0] + |s.links[0]| < places[1] <= |s.rest|;
      assert Moved(s) == |link| + 1;
    }
    PlacedInFront(s.rest, link, others, later);
  }

  lemma {:induction false} ChosenArePlaced(s: State)
    requires Gapped(s.rest, s.links)
    ensures Placed(s.rest, s.links, PlacesChosen(s))
    decreases |s.links|, |s.rest|
  {
    hide Placed;
    if s.links != [] {
      hide Gapped, Step;
      GapRemains(s);
      StepDrops(s);
      ChosenArePlaced(Step(s));
      var later := MoveAll(PlacesChosen(Step(s)), Moved(s));
      MovedPlaces(s.rest, Step(s).links, PlacesChosen(Step(s)), Moved(s));
      if s.links[0] <= s.rest {
        FirstLinkInFront(s, later);
      }
    } else {
      NothingIsPlaced(s.rest);
    }
  }

  lemma NothingIsPlaced(text: string)
    ensures Placed(text, [], [])
  {
  }

  lemma GapRemains(s: State)
    requires s.links != [] && Gapped(s.rest, s.links)
    ensures Gapped(Step(s).rest, Step(s).links)
    ensures Step(s).links == s.links ==> |Step(s).rest| < |s.rest|
    ensures |Step(s).links| <= |s.links|
  {
    var places :| Placed(s.rest, s.links, places);
    var next := StaysAhead(s, places);
  }

  /** What the loop appends from `s` to its end. */
  ghost function Output(s: State): seq<Piece>
    requires Gapped(s.rest, s.links)
    decreases |s.links|, |s.rest|
  {
    if s.links == [] then []
    else
      GapRemains(s);
      Placing(s) + Copying(s) + Output(Step(s))
  }

  lemma RenderAppend(pieces: seq<Piece>, p: Piece)
    ensures Render(pieces + [p]) == Render(pieces) + if p.Link? then Anchor(p.link) else [p.c]
  {
  }

  /** What the first half of an iteration does to the output. */
  lemma RenderPlacing(before: seq<Piece>, s: State)
    requires s.links != []
    ensures Render(before + Placing(s)) == Render(before) + if s.links[0] <= s.rest then Anchor(s.links[0]) else ""
  {
    hide Render, Anchor;
    if s.links[0] <= s.rest {
      RenderAppend(before, Link(s.links[0]));
    } else {
      assert before + [] == before;
    }
  }

  /** And the second. */
  lemma RenderCopying(before: seq<Piece>, s: State)
    requires s.links != []
    ensures Render(before + Copying(s))
         == Render(before) + if AfterPlacing(s).rest == "" then "" else [AfterPlacing(s).rest[0]]
  {
    hide Render, AfterPlacing;
    var rest := AfterPlacing(s).rest;
    if rest != "" {
      RenderAppend(before, Plain(rest[0]));
    } else {
      assert before + [] == before;
    }
  }

  /** What one iteration does to what the loop has still to append. */
  lemma OneIteration(before: seq<Piece>, s: State)
    requires s.links != [] && Gapped(s.rest, s.links)
    ensures Gapped(Step(s).rest, Step(s).links) && |Step(s).links| <= |s.links|
    ensures Step(s).links == s.links ==> |Step(s).rest| < |s.rest|
    ensures before + Output(s) == before + Placing(s) + Copying(s) + Output(Step(s))
  {
    hide Gapped, Step, Placing, Copying;
    GapRemains(s);
    assert before + (Placing(s) + Copying(s) + Output(Step(s))) == before + Placing(s) + Copying(s) + Output(Step(s));
  }

  lemma Halves(s: State)
    requires s.links != []
    ensures AfterPlacing(s) == if s.links[0] <= s.rest then State(s.links[1..], s.rest[|s.links[0]|..]) else s
    ensures Step(s) == if AfterPlacing(s).rest == "" then AfterPlacing(s)
                       else State(AfterPlacing(s).links, AfterPlacing(s).rest[1..])
  {
  }

  /** The loop would not end on other texts, by EndsIffGapped. */
  method PartialHtmlParser(text: string, found: seq<string>) returns (newText: string)
    requires Gapped(text, found)
    ensures found == [] ==> newText == text
    ensures found != [] ==> newText == Render(Output(State(found, text)))
    ensures found != [] && Untagged(text) ==> Erase(newText) <= text && Tags(newText) == AllAnchorTags(found)
  {
    newText := "";
    var links, restText := found, text;
    if |links| > 0 {
      hide Anchor, Gapped, Output, Render, Placing, Copying, Step, AfterPlacing, Erase, Tags, AllAnchorTags;
      var currentLink := links[0];
      ghost var pieces: seq<Piece> := [];
      ghost var whole, s := Output(State(found, text)), State(found, text);
      RenderNothing();
      assert pieces + Output(s) == whole;
      while |links| > 0
        invariant links != [] ==> currentLink == links[0]
        invariant s == State(links, restText) && Gapped(s.rest, s.links)
        invariant newText == Render(pieces)
        invariant pieces + Output(s) == whole
        decreases |links|, |restText|
      {
        Halves(s);
        OneIteration(pieces, s);
        RenderPlacing(pieces, s);
        if currentLink <= restText {
          newText := newText + Anchor(currentLink);
          restText := restText[|currentLink|..];
          if |links| > 1 {
            links := links[1..];
            currentLink := links[0];
          } else {
            currentLink := links[0];
            links := [];
          }
          assert links == s.links[1..];
        } else {
          assert newText + "" == newText;
        }
        pieces := pieces + Placing(s);
        ghost var t := AfterPlacing(s);
        assert t == State(links, restText) && newText == Render(pieces);
        RenderCopying(pieces, s);
        if |restText| >= 1 {
          assert restText[0..1] == [t.rest[0]];
          newText := newText + restText[0..1];
          restText := restText[1..];
        } else {
          assert newText + "" == newText;
        }
        pieces := pieces + Copying(s);
        assert newText == Render(pieces);
        s := Step(s);
      }
      NoMoreOutput(s);
      assert pieces + [] == pieces;
      if Untagged(text) {
        OutputReadsAsTheText(text, found);
      }
    } else {
      newText := restText;
    }
  }

  lemma RenderNothing()
    ensures Render([]) == ""
  {
  }

  lemma NoMoreOutput(s: State)
    requires s.links == [] && Gapped(s.rest, s.links)
    ensures Output(s) == []
  {
  }

  lemma {:induction false} BareOfBoth(xs: seq<Piece>, ys: seq<Piece>)
    ensures Bare(xs + ys) == Bare(xs) + Bare(ys)
    ensures Links(xs + ys) == Links(xs) + Links(ys)
  {
    hide BareOf, LinksOf;
    if xs == [] {
      assert xs + ys == ys;
    } else {
      assert (xs + ys)[1..] == xs[1..] + ys;
      BareOfBoth(xs[1..], ys);
    }
  }

  lemma BareOfOne(p: Piece)
    ensures Bare([p]) == BareOf(p) && Links([p]) == LinksOf(p)
  {
  }

  lemma PlacingMovesBytes(s: State)
    requires s.links != []
    ensures Bare(Placing(s)) + AfterPlacing(s).rest == s.rest
    ensures Links(Placing(s)) + AfterPlacing(s).links == s.links
  {
  }

  lemma CopyingMovesBytes(s: State)
    requires s.links != []
    ensures Bare(Copying(s)) + Step(s).rest == AfterPlacing(s).rest
    ensures Links(Copying(s)) == [] && Step(s).links == AfterPlacing(s).links
  {
    hide Bare, Links, AfterPlacing;
    NothingIsBare();
    var t := AfterPlacing(s);
    if t.rest != "" {
      BareOfOne(Plain(t.rest[0]));
    }
  }

  /** What one iteration appends is what it takes off the links and off the text. */
  lemma IterationMovesBytes(s: State)
    requires s.links != []
    ensures Bare(Placing(s)) + Bare(Copying(s)) + Step(s).rest == s.rest
    ensures Links(Placing(s)) + Links(Copying(s)) + Step(s).links == s.links
  {
    hide Bare, Links, AfterPlacing, Placing, Copying, Step;
    PlacingMovesBytes(s);
    CopyingMovesBytes(s);
    assert Bare(Placing(s)) + Bare(Copying(s)) + Step(s).rest
        == Bare(Placing(s)) + (Bare(Copying(s)) + Step(s).rest);
    assert Links(Placing(s)) + [] == Links(Placing(s));
  }

  /** The anchors are the links in order, each once, and the bytes kept are a prefix of the text. */
  lemma {:induction false} AnchorsAreTheLinks(s: State)
    requires Gapped(s.rest, s.links)
    ensures Links(Output(s)) == s.links && Bare(Output(s)) <= s.rest
    decreases |s.links|, |s.rest|
  {
    if s.links != [] {
      hide Gapped, Placing, Copying, Bare, Links, Step;
      GapRemains(s);
      AnchorsAreTheLinks(Step(s));
      var more := Output(Step(s));
      BareOfBoth(Placing(s) + Copying(s), more);
      BareOfBoth(Placing(s), Copying(s));
      IterationMovesBytes(s);
    } else {
      NothingIsBare();
    }
  }

  /** How many bytes of text come before each anchor. */
  function AnchorPlaces(pieces: seq<Piece>): seq<nat> {
    if pieces == [] then []
    else (if pieces[0].Link? then [0] else []) + MoveAll(AnchorPlaces(pieces[1..]), |BareOf(pieces[0])|)
  }

  lemma {:induction false} AnchorPlacesOfBoth(xs: seq<Piece>, ys: seq<Piece>)
    ensures AnchorPlaces(xs + ys) == AnchorPlaces(xs) + MoveAll(AnchorPlaces(ys), |Bare(xs)|)
  {
    hide MoveAll, BareOf;
    if xs == [] {
      assert xs + ys == ys;
      MoveAllTwice([], AnchorPlaces(ys), 0, 0);
    } else {
      assert (xs + ys)[1..] == xs[1..] + ys;
      AnchorPlacesOfBoth(xs[1..], ys);
      MoveAllTwice(AnchorPlaces(xs[1..]), AnchorPlaces(ys), |Bare(xs[1..])|, |BareOf(xs[0])|);
    }
  }

  lemma MoveAllTwice(xs: seq<nat>, ys: seq<nat>, m: nat, n: nat)
    ensures MoveAll(xs + MoveAll(ys, m), n) == MoveAll(xs, n) + MoveAll(ys, n + m)
    ensures MoveAll(ys, 0) == ys
  {
  }

  lemma AnchorPlacesOfIteration(s: State)
    requires s.links != []
    ensures AnchorPlaces(Placing(s) + Copying(s)) == if s.links[0] <= s.rest then [0] else []
    ensures |Bare(Placing(s) + Copying(s))| == Moved(s)
  {
    hide Step;
    BareOfBoth(Placing(s), Copying(s));
    IterationMovesBytes(s);
    AnchorPlacesOfBoth(Placing(s), Copying(s));
    StepDrops(s);
    assert |s.rest| == |Bare(Placing(s))| + |Bare(Copying(s))| + |Step(s).rest|;
  }

  /** The anchors stand where the links occur: at the places chosen. */
  lemma {:induction false} AnchorsStandAtTheirPlaces(s: State)
    requires Gapped(s.rest, s.links)
    ensures AnchorPlaces(Output(s)) == PlacesChosen(s)
    ensures Placed(s.rest, s.links, AnchorPlaces(Output(s)))
    decreases |s.links|, |s.rest|
  {
    hide Placed;
    ChosenArePlaced(s);
    if s.links != [] {
      hide Gapped, Step, Placing, Copying, Bare;
      GapRemains(s);
      AnchorsStandAtTheirPlaces(Step(s));
      AnchorPlacesOfIteration(s);
      AnchorPlacesOfBoth(Placing(s) + Copying(s), Output(Step(s)));
    }
  }

  lemma NothingIsBare()
    ensures Bare([]) == "" && Links([]) == []
  {
  }

  /**
   * The output ends with the last anchor, and then holds the whole text, or with one byte more.
   */
  lemma {:induction false} EndsAtLastLink(s: State)
    requires s.links != [] && Gapped(s.rest, s.links)
    ensures var out, last := Output(s), Link(s.links[|s.links| - 1]);
            && out != []
            && if out[|out| - 1].Link? then out[|out| - 1] == last && Bare(out) == s.rest
               else |out| > 1 && out[|out| - 2] == last
    decreases |s.links|, |s.rest|
  {
    hide Gapped, Bare, Links, Placing, Copying, Output, Step, AfterPlacing;
    GapRemains(s);
    OutputUnfolds(s);
    StepDrops(s);
    if Step(s).links != [] {
      EndsAtLastLink(Step(s));
      var front, more := Placing(s) + Copying(s), Output(Step(s));
      assert Step(s).links[|Step(s).links| - 1] == s.links[|s.links| - 1];
      SameEnd(front, more);
      BareOfBoth(front, more);
      BareOfBoth(Placing(s), Copying(s));
      IterationMovesBytes(s);
    } else {
      LastIteration(s);
    }
  }

  lemma SameEnd(front: seq<Piece>, more: seq<Piece>)
    requires more != []
    ensures (front + more)[|front + more| - 1] == more[|more| - 1]
    ensures |more| > 1 ==> (front + more)[|front + more| - 2] == more[|more| - 2]
  {
  }

  lemma OutputUnfolds(s: State)
    requires s.links != [] && Gapped(s.rest, s.links)
    ensures Gapped(Step(s).rest, Step(s).links)
    ensures Output(s) == Placing(s) + Copying(s) + Output(Step(s))
  {
    hide Gapped, Placing, Copying, Step;
    GapRemains(s);
  }

  lemma LastIteration(s: State)
    requires s.links != [] && Gapped(s.rest, s.links) && Step(s).links == []
    ensures var out, last := Output(s), Link(s.links[|s.links| - 1]);
            && out != []
            && if out[|out| - 1].Link? then out[|out| - 1] == last && Bare(out) == s.rest
               else |out| > 1 && out[|out| - 2] == last
  {
    hide Gapped, Output, Bare;
    OutputUnfolds(s);
    NoMoreOutput(Step(s));
    assert Placing(s) == [Link(s.links[0])] && |s.links| == 1;
    assert Output(s) == Placing(s) + Copying(s);
    assert Copying(s) == [] ==> Output(s) == Placing(s);
    PlacingMovesBytes(s);
  }

  // ---------- The output as a string ----------

  predicate Untagged(s: string) {
    '<' !in s && '>' !in s
  }

  /** What follows the first '>'. */
  function BehindTag(s: string): (r: string)
    ensures |r| <= |s|
  {
    if s == "" then "" else if s[0] == '>' then s[1..] else BehindTag(s[1..])
  }

  /** What precedes it. */
  function TagOf(s: string): string {
    if s == "" || s[0] == '>' then "" else [s[0]] + TagOf(s[1..])
  }

  /** The string without everything from a '<' to the next '>'. */
  function Erase(s: string): string
    decreases |s|
  {
    if s == "" then "" else if s[0] == '<' then Erase(BehindTag(s[1..])) else [s[0]] + Erase(s[1..])
  }

  /** What stands between each '<' and the next '>'. */
  function Tags(s: string): seq<string>
    decreases |s|
  {
    if s == "" then []
    else if s[0] == '<' then [TagOf(s[1..])] + Tags(BehindTag(s[1..]))
    else Tags(s[1..])
  }

  /** The tags that open and close an anchor with this address. */
  function AnchorTags(address: string): seq<string> {
    ["a href=" + address + " target=_new", "/a"]
  }

  function AllAnchorTags(links: seq<string>): seq<string> {
    if links == [] then [] else AnchorTags(Target(links[0])) + AllAnchorTags(links[1..])
  }

  lemma {:induction false} OneTag(tag: string, rest: string)
    requires Untagged(tag)
    ensures TagOf(tag + ">" + rest) == tag && BehindTag(tag + ">" + rest) == rest
  {
    if tag == "" {
      assert tag + ">" + rest == ">" + rest && (">" + rest)[1..] == rest;
    } else {
      assert (tag + ">" + rest)[1..] == tag[1..] + ">" + rest;
      OneTag(tag[1..], rest);
    }
  }

  lemma EraseOneTag(tag: string, rest: string)
    requires Untagged(tag)
    ensures Erase("<" + tag + ">" + rest) == Erase(rest) && Tags("<" + tag + ">" + rest) == [tag] + Tags(rest)
  {
    var s := "<" + tag + ">" + rest;
    assert s[1..] == tag + ">" + rest;
    OneTag(tag, rest);
  }

  lemma {:induction false} EraseText(text: string, rest: string)
    requires Untagged(text)
    ensures Erase(text + rest) == text + Erase(rest) && Tags(text + rest) == Tags(rest)
  {
    if text == "" {
      assert text + rest == rest;
    } else {
      assert (text + rest)[1..] == text[1..] + rest;
      EraseText(text[1..], rest);
    }
  }

  /** Adding a scheme adds no tag. */
  lemma TargetIsUntagged(link: string)
    requires Untagged(link)
    ensures Untagged(Target(link))
  {
    hide HasScheme;
  }

  lemma AnchorParts(link: string, rest: string)
    ensures var tag := "a href=" + Target(link) + " target=_new";
            Anchor(link) + rest == "<" + tag + ">" + (link + ("<" + "/a" + ">" + rest))
  {
    hide Target;
    assert "<a href=" == "<" + "a href=" && " target=_new>" == " target=_new" + ">" && "</a>" == "<" + "/a" + ">";
  }

  lemma EraseAnchor(link: string, rest: string)
    requires Untagged(link)
    ensures Erase(Anchor(link) + rest) == link + Erase(rest)
    ensures Tags(Anchor(link) + rest) == AnchorTags(Target(link)) + Tags(rest)
  {
    hide Target, Erase, Tags, Anchor;
    var tag := "a href=" + Target(link) + " target=_new";
    TargetIsUntagged(link);
    AnchorParts(link, rest);
    EraseOneTag(tag, link + ("<" + "/a" + ">" + rest));
    EraseText(link, "<" + "/a" + ">" + rest);
    EraseOneTag("/a", rest);
    assert [tag] + (["/a"] + Tags(rest)) == AnchorTags(Target(link)) + Tags(rest);
  }

  lemma {:induction false} RenderBoth(xs: seq<Piece>, ys: seq<Piece>)
    ensures Render(xs + ys) == Render(xs) + Render(ys)
    decreases |ys|
  {
    hide Anchor;
    if ys == [] {
      assert xs + ys == xs;
    } else {
      var front, last := ys[..|ys| - 1], ys[|ys| - 1];
      assert (xs + ys)[..|xs + ys| - 1] == xs + front;
      RenderBoth(xs, front);
    }
  }

  lemma RenderOne(p: Piece)
    ensures Render([p]) == if p.Link? then Anchor(p.link) else [p.c]
  {
    RenderNothing();
    RenderAppend([], p);
    assert [] + [p] == [p];
  }

  /** Erasing the tags of the rendered pieces leaves their bare text; the tags are those of the anchors. */
  lemma {:induction false} EraseRendered(pieces: seq<Piece>)
    requires Untagged(Bare(pieces))
    ensures Erase(Render(pieces)) == Bare(pieces)
    ensures Tags(Render(pieces)) == AllAnchorTags(Links(pieces))
  {
    hide Render, Anchor, AnchorTags;
    if pieces == [] {
      RenderNothing();
    } else {
      var p, more := pieces[0], pieces[1..];
      assert pieces == [p] + more;
      RenderBoth([p], more);
      RenderOne(p);
      EraseRendered(more);
      if p.Link? {
        EraseAnchor(p.link, Render(more));
        assert Links(pieces)[1..] == Links(more);
      } else {
        EraseText([p.c], Render(more));
        assert [] + Links(more) == Links(more);
      }
    }
  }

  /**
   * In a text without tags of its own: the output with its tags erased is a prefix of the text, and
   * its tags are an opening one with the link's target and a closing one for each link in order.
   */
  lemma OutputReadsAsTheText(text: string, found: seq<string>)
    requires Gapped(text, found) && Untagged(text)
    ensures Erase(Render(Output(State(found, text)))) <= text
    ensures Tags(Render(Output(State(found, text)))) == AllAnchorTags(found)
  {
    hide Gapped, Output, Render, Erase, Tags;
    var s := State(found, text);
    AnchorsAreTheLinks(s);
    EraseRendered(Output(s));
  }

  /** The address in an anchor's tag: what follows `href=`, up to a space. */
  function UpToSpace(s: string): string {
    if s == "" || s[0] == ' ' then "" else [s[0]] + UpToSpace(s[1..])
  }

  lemma {:induction false} SpaceEndsAddress(address: string, rest: string)
    requires ' ' !in address && rest != "" && rest[0] == ' '
    ensures UpToSpace(address + rest) == address
  {
    if address == "" {
      assert address + rest == rest;
    } else {
      assert (address + rest)[1..] == address[1..] + rest;
      SpaceEndsAddress(address[1..], rest);
    }
  }

  lemma {:induction false} TagsOfLink(links: seq<string>, k: nat)
    requires k < |links|
    ensures |AllAnchorTags(links)| == 2 * |links|
    ensures AllAnchorTags(links)[2 * k] == "a href=" + Target(links[k]) + " target=_new"
    ensures AllAnchorTags(links)[2 * k + 1] == "/a"
  {
    hide Target;
    if k > 0 {
      TagsOfLink(links[1..], k - 1);
    } else if |links| > 1 {
      TagsOfLink(links[1..], 0);
    }
  }

  /** The k-th address read out of the output is the target of the k-th link. */
  lemma AddressesAreTargets(text: string, found: seq<string>, k: nat)
    requires Gapped(text, found) && Untagged(text) && k < |found| && ' ' !in found[k]
    ensures var tags := Tags(Render(Output(State(found, text))));
            |tags| == 2 * |found| && "a href=" <= tags[2 * k] && UpToSpace(tags[2 * k][7..]) == Target(found[k])
  {
    hide Gapped, Output, Render, Tags, AllAnchorTags, HasScheme;
    OutputReadsAsTheText(text, found);
    TagsOfLink(found, k);
    var tag := AllAnchorTags(found)[2 * k];
    assert tag[7..] == Target(found[k]) + " target=_new";
    SpaceEndsAddress(Target(found[k]), " target=_new");
  }
}
