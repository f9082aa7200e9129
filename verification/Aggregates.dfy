/**
 * The handle table behind user-defined SQL aggregates.
 *
 * SQLite gives each group of rows its own context with a zeroed slot. The driver keeps the live
 * aggregator objects in a map and writes the key of a group's aggregator into the group's slot.
 * What SQLite promises is an assumption on runs: a context is not used again once it is done.
 */
module Aggregates {
  /**
   * A registered aggregator type: its constructor's state, which rows its argument converters
   * accept, its Step and its Done, whose result stands for the value or error handed to SQLite.
   */
  datatype Behaviour<!S, !Row, !Out> = Behaviour(
    initial: S,
    accepts: Row -> bool,
    step: (S, Row) -> (S, bool),
    done: S -> Out)

  /** The state after one row. A row whose arguments do not convert never reaches Step. */
  function Advance<S, Row, Out>(b: Behaviour<S, Row, Out>, s: S, row: Row): S {
    if b.accepts(row) then b.step(s, row).0 else s
  }

  /** A fresh aggregator stepped by `rows` in order. */
  function Fold<S, Row, Out>(b: Behaviour<S, Row, Out>, rows: seq<Row>): S {
    if rows == [] then b.initial else Advance(b, Fold(b, rows[..|rows| - 1]), rows[|rows| - 1])
  }

  /** What one call sees: the slot of its context and the table. */
  datatype View<S> = View(slot: int, active: map<int, S>, next: int)

  /** `agg`: a zero slot takes the next handle and a new aggregator. */
  function Enter<S, Row, Out>(b: Behaviour<S, Row, Out>, v: View<S>): View<S> {
    if v.slot == 0 then View(v.next, v.active[v.next := b.initial], v.next + 1) else v
  }

  function StepView<S, Row, Out>(b: Behaviour<S, Row, Out>, v: View<S>, row: Row): View<S>
    requires v.slot == 0 || v.slot in v.active
  {
    var e := Enter(b, v);
    View(e.slot, e.active[e.slot := Advance(b, e.active[e.slot], row)], e.next)
  }

  function DoneView<S, Row, Out>(b: Behaviour<S, Row, Out>, v: View<S>): (r: (View<S>, Out))
    requires v.slot == 0 || v.slot in v.active
  {
    var e := Enter(b, v);
    (View(e.slot, e.active - {e.slot}, e.next), b.done(e.active[e.slot]))
  }

  // ---------- The driver's objects ----------

  /** The eight bytes of aggregate context that SQLite keeps for one group. */
  class Context {
    var slot: int

    constructor ()
      ensures slot == 0
    {
      slot := 0;
    }
  }

  /** A user's aggregator object, which Step updates in place. */
  class Aggregator<S> {
    var state: S

    constructor (s: S)
      ensures state == s
    {
      state := s;
    }
  }

  class AggInfo<S, Row, Out> {
    const kind: Behaviour<S, Row, Out>
    var active: map<int, Aggregator<S>>
    var next: int

    ghost predicate Valid()
      reads this
    {
      && 0 < next
      && (forall h :: h in active ==> 0 < h < next)
      && forall g, h :: g in active && h in active && g != h ==> active[g] != active[h]
    }

    ghost function States(): map<int, S>
      reads this, active.Values
    {
      map h | h in active :: active[h].state
    }

    ghost function ViewOf(ctx: Context): View<S>
      reads this, ctx, active.Values
    {
      View(ctx.slot, States(), next)
    }

    constructor (kind: Behaviour<S, Row, Out>)
      ensures this.kind == kind && Valid() && active == map[] && next == 1
    {
      this.kind := kind;
      active, next := map[], 1;
    }

    method Agg(ctx: Context) returns (handle: int, agg: Aggregator<S>)
      requires Valid() && (ctx.slot == 0 || ctx.slot in active)
      modifies this, ctx
      ensures Valid() && handle == ctx.slot && handle in active && agg == active[handle]
      ensures ViewOf(ctx) == Enter(kind, old(ViewOf(ctx)))
      ensures forall h :: h in old(active) ==> h in active && active[h] == old(active[h])
      ensures forall h :: h in active && h !in old(active) ==> fresh(active[h])
    {
      if ctx.slot == 0 {
        ctx.slot := next;
        var made := new Aggregator(kind.initial);
        next := next + 1;
        active := active[ctx.slot := made];
      }
      return ctx.slot, active[ctx.slot];
    }

    /** `ok` is false when the driver reports an error to SQLite. */
    method Step(ctx: Context, row: Row) returns (ok: bool)
      requires Valid() && (ctx.slot == 0 || ctx.slot in active)
      modifies this, ctx, active.Values
      ensures Valid()
      ensures ViewOf(ctx) == StepView(kind, old(ViewOf(ctx)), row)
      ensures ctx.slot == if old(ctx.slot) == 0 then old(next) else old(ctx.slot)
      ensures var before := old(if ctx.slot == 0 then kind.initial else active[ctx.slot].state);
              && ctx.slot in active
              && active[ctx.slot].state == (if kind.accepts(row) then kind.step(before, row).0 else before)
              && (ok <==> kind.accepts(row) && kind.step(before, row).1)
    {
      var handle, agg := Agg(ctx);
      if !kind.accepts(row) {
        assert States()[handle := States()[handle]] == States();
        return false;
      }
      var (s, fine) := kind.step(agg.state, row);
      ghost var before := States();
      agg.state := s;
      assert forall h :: h in active && h != handle ==> active[h] != agg && active[h].state == before[h];
      assert States() == before[handle := s];
      return fine;
    }

    method Done(ctx: Context) returns (out: Out)
      requires Valid() && (ctx.slot == 0 || ctx.slot in active)
      modifies this, ctx
      ensures Valid()
      ensures (ViewOf(ctx), out) == DoneView(kind, old(ViewOf(ctx)))
      ensures out == kind.done(old(if ctx.slot == 0 then kind.initial else active[ctx.slot].state))
      ensures active.Keys == old(active.Keys) - {ctx.slot}
    {
      assert States().Keys == active.Keys;
      var handle, agg := Agg(ctx);
      assert States().Keys == active.Keys;
      out := kind.done(agg.state);
      ghost var before := States();
      assert active.Keys == old(active.Keys) + {handle};
      active := active - {handle};
      assert active.Keys == old(active.Keys) - {handle};
      assert States() == before - {handle};
    }
  }

  // ---------- Runs over any number of contexts ----------

  datatype Event<C, Row> = Stepped(ctx: C, row: Row) | Finished(ctx: C)

  datatype Table<C, S> = Table(slots: map<C, int>, active: map<int, S>, next: int)

  function At<C, S>(t: Table<C, S>, c: C): View<S> {
    View(if c in t.slots then t.slots[c] else 0, t.active, t.next)
  }

  function With<C, S>(t: Table<C, S>, c: C, v: View<S>): Table<C, S> {
    Table(t.slots[c := v.slot], v.active, v.next)
  }

  /** SQLite's side: no call for a context after its Done. */
  ghost predicate Legal<C, Row>(run: seq<Event<C, Row>>) {
    forall i, j :: 0 <= i < j < |run| && run[i].Finished? ==> run[i].ctx != run[j].ctx
  }

  predicate Begun<C(==), Row>(run: seq<Event<C, Row>>, c: C) {
    exists i :: 0 <= i < |run| && run[i].ctx == c
  }

  predicate Over<C(==), Row>(run: seq<Event<C, Row>>, c: C) {
    exists i :: 0 <= i < |run| && run[i].ctx == c && run[i].Finished?
  }

  /** The rows of one context, in order. */
  function RowsOf<C(==), Row>(run: seq<Event<C, Row>>, c: C): seq<Row> {
    if run == [] then []
    else
      var last := run[|run| - 1];
      RowsOf(run[..|run| - 1], c) + if last.Stepped? && last.ctx == c then [last.row] else []
  }

  ghost predicate Usable<C, S>(t: Table<C, S>, c: C) {
    c !in t.slots || t.slots[c] == 0 || t.slots[c] in t.active
  }

  /** One call; an event SQLite must not send leaves the table as it is. */
  ghost function Next<C, S, Row, Out>(b: Behaviour<S, Row, Out>, t: Table<C, S>, e: Event<C, Row>): Table<C, S> {
    if !Usable(t, e.ctx) then t
    else if e.Stepped? then With(t, e.ctx, StepView(b, At(t, e.ctx), e.row))
    else With(t, e.ctx, DoneView(b, At(t, e.ctx)).0)
  }

  /** The table after a run. */
  ghost function Play<C, S, Row, Out>(b: Behaviour<S, Row, Out>, run: seq<Event<C, Row>>): Table<C, S> {
    if run == [] then Table(map[], map[], 1) else Next(b, Play(b, run[..|run| - 1]), run[|run| - 1])
  }

  /** What a Done for `c` after the run hands to SQLite. */
  ghost function Result<C, S, Row, Out>(b: Behaviour<S, Row, Out>, run: seq<Event<C, Row>>, c: C): Out
    requires Usable(Play(b, run), c)
  {
    DoneView(b, At(Play(b, run), c)).1
  }

  /** The same bookkeeping without handles: the state of every live context, and who is done. */
  datatype Ideal<!C, S> = Ideal(live: map<C, S>, over: set<C>)

  function Current<C, S, Row, Out>(b: Behaviour<S, Row, Out>, ideal: Ideal<C, S>, c: C): S {
    if c in ideal.live then ideal.live[c] else b.initial
  }

  function NextIdeal<C, S, Row, Out>(b: Behaviour<S, Row, Out>, ideal: Ideal<C, S>, e: Event<C, Row>): Ideal<C, S> {
    if e.Stepped? then ideal.(live := ideal.live[e.ctx := Advance(b, Current(b, ideal, e.ctx), e.row)])
    else Ideal(ideal.live - {e.ctx}, ideal.over + {e.ctx})
  }

  /** What a run means: each live context holds the fold of its own rows. */
  ghost function Meaning<C, S, Row, Out>(b: Behaviour<S, Row, Out>, run: seq<Event<C, Row>>): Ideal<C, S> {
    if run == [] then Ideal(map[], {}) else NextIdeal(b, Meaning(b, run[..|run| - 1]), run[|run| - 1])
  }

  /**
   * Handles of different contexts are different numbers in [1, next), and `active` holds the states
   * of exactly the live contexts.
   */
  ghost predicate Represents<C(!new), S>(t: Table<C, S>, ideal: Ideal<C, S>) {
    && 0 < t.next
    && t.slots.Keys == ideal.live.Keys + ideal.over && ideal.live.Keys !! ideal.over
    && (forall c :: c in t.slots ==> 0 < t.slots[c] < t.next)
    && (forall c, d :: c in t.slots && d in t.slots && c != d ==> t.slots[c] != t.slots[d])
    && (forall h :: h in t.active ==> Owned(t.slots, ideal.live, h))
    && (forall c :: c in ideal.live ==> t.slots[c] in t.active && t.active[t.slots[c]] == ideal.live[c])
  }

  /** Handle `h` is that of a live context. */
  ghost predicate Owned<C(!new), S>(slots: map<C, int>, live: map<C, S>, h: int) {
    exists c :: c in live && c in slots && slots[c] == h
  }

  lemma EnterRepresents<C(!new), S, Row, Out>(b: Behaviour<S, Row, Out>, t: Table<C, S>, ideal: Ideal<C, S>, c: C)
    requires Represents(t, ideal) && c !in ideal.over
    ensures Usable(t, c)
    ensures Represents(With(t, c, Enter(b, At(t, c))), ideal.(live := ideal.live[c := Current(b, ideal, c)]))
  {
    if c in ideal.live {
      assert t.slots[c := t.slots[c]] == t.slots && With(t, c, Enter(b, At(t, c))) == t;
      assert ideal.live[c := Current(b, ideal, c)] == ideal.live;
    } else {
      assert With(t, c, Enter(b, At(t, c)))
          == Table(t.slots[c := t.next], t.active[t.next := b.initial], t.next + 1);
      BeginRepresents(t, ideal, c, b.initial);
    }
  }

  lemma BeginRepresents<C(!new), S>(t: Table<C, S>, ideal: Ideal<C, S>, c: C, s: S)
    requires Represents(t, ideal) && c !in ideal.over && c !in ideal.live
    ensures Represents(Table(t.slots[c := t.next], t.active[t.next := s], t.next + 1),
                       ideal.(live := ideal.live[c := s]))
  {
    var slots, live := t.slots[c := t.next], ideal.live[c := s];
    assert slots.Keys == t.slots.Keys + {c} && live.Keys == ideal.live.Keys + {c};
    forall h | h in t.active[t.next := s] ensures Owned(slots, live, h) {
      if h == t.next {
        assert slots[c] == h;
      } else {
        var d :| d in ideal.live && d in t.slots && t.slots[d] == h;
        assert slots[d] == h;
      }
    }
  }

  /** Changing the state of one live context changes only its own entry. */
  lemma UpdateRepresents<C(!new), S>(t: Table<C, S>, ideal: Ideal<C, S>, c: C, s: S)
    requires Represents(t, ideal) && c in ideal.live
    ensures Represents(t.(active := t.active[t.slots[c] := s]), ideal.(live := ideal.live[c := s]))
  {
  }

  /** Deleting the handle of one live context deletes only its own entry. */
  lemma DeleteRepresents<C(!new), S>(t: Table<C, S>, ideal: Ideal<C, S>, c: C)
    requires Represents(t, ideal) && c in ideal.live
    ensures Represents(t.(active := t.active - {t.slots[c]}), Ideal(ideal.live - {c}, ideal.over + {c}))
  {
  }

  lemma LastEvent<C, Row>(run: seq<Event<C, Row>>, c: C)
    requires run != []
    ensures Begun(run, c) <==> Begun(run[..|run| - 1], c) || run[|run| - 1].ctx == c
    ensures Over(run, c) <==> Over(run[..|run| - 1], c) || (run[|run| - 1].ctx == c && run[|run| - 1].Finished?)
  {
  }

  lemma {:induction false} OverAtTheEnd<C(!new), S, Row, Out>(b: Behaviour<S, Row, Out>, run: seq<Event<C, Row>>, c: C)
    ensures c in Meaning(b, run).over <==> Over(run, c)
  {
    if run != [] {
      OverAtTheEnd(b, run[..|run| - 1], c);
      LastEvent(run, c);
    }
  }

  lemma EventRepresents<C(!new), S, Row, Out>(
    b: Behaviour<S, Row, Out>, t: Table<C, S>, ideal: Ideal<C, S>, e: Event<C, Row>)
    requires Represents(t, ideal) && e.ctx !in ideal.over
    ensures Represents(Next(b, t, e), NextIdeal(b, ideal, e))
  {
    hide Represents;
    var c := e.ctx;
    EnterRepresents(b, t, ideal, c);
    var entered := With(t, c, Enter(b, At(t, c)));
    var begun := ideal.(live := ideal.live[c := Current(b, ideal, c)]);
    StateOfLive(entered, begun, c);
    if e.Stepped? {
      var s := Advance(b, Current(b, ideal, c), e.row);
      UpdateRepresents(entered, begun, c, s);
      assert begun.live[c := s] == ideal.live[c := s];
      assert Next(b, t, e) == entered.(active := entered.active[entered.slots[c] := s]);
    } else {
      DeleteRepresents(entered, begun, c);
      assert begun.live - {c} == ideal.live - {c};
      assert Next(b, t, e) == entered.(active := entered.active - {entered.slots[c]});
    }
  }

  /** Over every legal run the table is consistent with what the run means. */
  lemma {:induction false} RunsAreRepresented<C(!new), S, Row, Out>(b: Behaviour<S, Row, Out>, run: seq<Event<C, Row>>)
    requires Legal(run)
    ensures Represents(Play(b, run), Meaning(b, run))
  {
    if run != [] {
      hide Represents, Next, NextIdeal;
      var front, e := run[..|run| - 1], run[|run| - 1];
      RunsAreRepresented(b, front);
      forall i | 0 <= i < |front| && front[i].Finished? ensures front[i].ctx != e.ctx {
        assert run[i] == front[i];
      }
      OverAtTheEnd(b, front, e.ctx);
      EventRepresents(b, Play(b, front), Meaning(b, front), e);
    }
  }

  lemma StateOfLive<C(!new), S>(t: Table<C, S>, ideal: Ideal<C, S>, c: C)
    requires Represents(t, ideal) && c in ideal.live
    ensures c in t.slots && t.slots[c] in t.active && t.active[t.slots[c]] == ideal.live[c] && t.slots[c] != 0
  {
  }

  lemma {:induction false} MeaningIsFold<C(!new), S, Row, Out>(b: Behaviour<S, Row, Out>, run: seq<Event<C, Row>>, c: C)
    requires !Over(run, c)
    ensures Current(b, Meaning(b, run), c) == Fold(b, RowsOf(run, c))
    ensures c in Meaning(b, run).live <==> Begun(run, c)
  {
    if run != [] {
      var front, e := run[..|run| - 1], run[|run| - 1];
      LastEvent(run, c);
      MeaningIsFold(b, front, c);
      var rows := RowsOf(front, c);
      if e.ctx == c {
        assert (rows + [e.row])[..|rows|] == rows;
      } else {
        assert rows + [] == rows;
      }
    }
  }

  /**
   * In every interleaving each Done returns the result of a fresh aggregator stepped by exactly
   * the rows of its own context, in order.
   */
  lemma DoneSeesOnlyItsOwnRows<C(!new), S, Row, Out>(b: Behaviour<S, Row, Out>, run: seq<Event<C, Row>>, c: C)
    requires Legal(run) && !Over(run, c)
    ensures Usable(Play(b, run), c)
    ensures Result(b, run, c) == b.done(Fold(b, RowsOf(run, c)))
  {
    RunsAreRepresented(b, run);
    MeaningIsFold(b, run, c);
    OverAtTheEnd(b, run, c);
  }

  /** The states of one aggregator along its rows: a row it accepts steps it, and any other leaves it. */
  ghost predicate Steps<S, Row, Out>(b: Behaviour<S, Row, Out>, rows: seq<Row>, states: seq<S>) {
    && |states| == |rows| + 1 && states[0] == b.initial
    && forall k :: 0 <= k < |rows| ==>
         states[k + 1] == if b.accepts(rows[k]) then b.step(states[k], rows[k]).0 else states[k]
  }

  lemma {:induction false} FoldSteps<S, Row, Out>(b: Behaviour<S, Row, Out>, rows: seq<Row>) returns (states: seq<S>)
    ensures Steps(b, rows, states) && states[|rows|] == Fold(b, rows)
  {
    if rows == [] {
      states := [b.initial];
    } else {
      var front := rows[..|rows| - 1];
      var earlier := FoldSteps(b, front);
      states := earlier + [Fold(b, rows)];
      assert forall k :: 0 <= k < |front| ==> front[k] == rows[k] && states[k] == earlier[k];
    }
  }

  /** What a Done returns is the result of the last of those states, whatever other contexts did. */
  lemma DoneFollowsTheSteps<C(!new), S, Row, Out>(b: Behaviour<S, Row, Out>, run: seq<Event<C, Row>>, c: C)
    returns (states: seq<S>)
    requires Legal(run) && !Over(run, c)
    ensures Usable(Play(b, run), c) && Steps(b, RowsOf(run, c), states)
    ensures Result(b, run, c) == b.done(states[|RowsOf(run, c)|])
  {
    hide Fold, Usable;
    DoneSeesOnlyItsOwnRows(b, run, c);
    states := FoldSteps(b, RowsOf(run, c));
  }

  /** The handles given out are 1, 2, 3, ...: one for each context begun. */
  lemma {:induction false} HandlesAreConsecutive<C(!new), S, Row, Out>(
    b: Behaviour<S, Row, Out>, run: seq<Event<C, Row>>)
    requires Legal(run)
    ensures Play(b, run).next == 1 + |Play(b, run).slots|
  {
    if run != [] {
      hide Usable, Represents, Next;
      var front, e := run[..|run| - 1], run[|run| - 1];
      assert Legal(front) by {
        assert forall i :: 0 <= i < |front| ==> front[i] == run[i];
      }
      HandlesAreConsecutive(b, front);
      RunsAreRepresented(b, front);
      NextHandle(b, Play(b, front), Meaning(b, front), e);
      if e.ctx !in Play(b, front).slots {
        OneMoreKey(Play(b, front).slots, e.ctx, Play(b, front).next);
      }
    }
  }

  /** An event gives a handle to a context that has none, and to no other. */
  lemma NextHandle<C(!new), S, Row, Out>(
    b: Behaviour<S, Row, Out>, t: Table<C, S>, ideal: Ideal<C, S>, e: Event<C, Row>)
    requires Represents(t, ideal)
    ensures var next := Next(b, t, e);
            if e.ctx in t.slots then next.next == t.next && next.slots == t.slots
            else next.next == t.next + 1 && next.slots == t.slots[e.ctx := t.next]
  {
    var c := e.ctx;
    if c in t.slots {
      assert t.slots[c] != 0 && Enter(b, At(t, c)) == At(t, c);
      assert t.slots[c := t.slots[c]] == t.slots;
    } else {
      assert Enter(b, At(t, c)) == View(t.next, t.active[t.next := b.initial], t.next + 1);
    }
  }

  lemma OneMoreKey<C, V>(m: map<C, V>, c: C, v: V)
    requires c !in m
    ensures |m[c := v]| == |m| + 1
  {
    assert m[c := v].Keys == m.Keys + {c};
  }

  /** Handles over every legal run, said without the ideal bookkeeping. */
  lemma LiveHandles<C(!new), S, Row, Out>(b: Behaviour<S, Row, Out>, run: seq<Event<C, Row>>)
    requires Legal(run)
    ensures var t := Play(b, run);
            && (forall c :: Begun(run, c) <==> c in t.slots)
            && (forall c :: c in t.slots ==> 0 < t.slots[c] < t.next)
            && (forall c, d :: c in t.slots && d in t.slots && c != d ==> t.slots[c] != t.slots[d])
            && (forall c :: c in t.slots ==> (t.slots[c] in t.active <==> !Over(run, c)))
            && (forall h :: h in t.active ==> exists c :: c in t.slots && t.slots[c] == h)
  {
    RunsAreRepresented(b, run);
    forall c
      ensures c in Meaning(b, run).over <==> Over(run, c)
      ensures Begun(run, c) <==> c in Play(b, run).slots
    {
      OverAtTheEnd(b, run, c);
      if !Over(run, c) {
        MeaningIsFold(b, run, c);
      } else {
        var i :| 0 <= i < |run| && run[i].ctx == c && run[i].Finished?;
        assert Begun(run, c);
      }
    }
  }
}
