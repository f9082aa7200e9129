/**
 * The closing of statements and rows over one connection. Every call into SQLite that ends or
 * rewinds a statement is logged.
 */
module Lifecycle {
  datatype Call<S> = Finalize(stmt: S) | Reset(stmt: S)

  /** What one statement's methods see. */
  datatype View<S> = View(open: bool, closed: bool, log: seq<Call<S>>)

  /** Only the first close of a statement acts, and it finalizes only under an open connection. */
  function CloseStmt<S>(v: View<S>, s: S): View<S> {
    if v.closed then v else View(v.open, true, if v.open then v.log + [Finalize(s)] else v.log)
  }

  function CloseRows<S>(v: View<S>, s: S, cls: bool): View<S> {
    if v.closed then v else if cls then CloseStmt(v, s) else v.(log := v.log + [Reset(s)])
  }

  class Conn {
    var open: bool
    var log: seq<Call<nat>>

    constructor ()
      ensures open && log == []
    {
      open, log := true, [];
    }

    /** sqlite3_close_v2 succeeds also while statements are open. */
    method Close()
      modifies this
      ensures !open && log == old(log)
    {
      open := false;
    }
  }

  class Stmt {
    const c: Conn
    const s: nat
    var closed: bool

    ghost function ViewOf(): View<nat>
      reads this, c
    {
      View(c.open, closed, c.log)
    }

    constructor (c: Conn, s: nat)
      ensures this.c == c && this.s == s && !closed
    {
      this.c, this.s, closed := c, s, false;
    }

    /** `finalized` is what sqlite3_finalize reports, if it is called. */
    method Close(finalized: bool) returns (ok: bool)
      modifies this, c
      ensures ViewOf() == CloseStmt(old(ViewOf()), s)
      ensures ok <==> old(closed) || (c.open && finalized)
    {
      if closed {
        return true;
      }
      closed := true;
      if !c.open {
        return false;
      }
      c.log := c.log + [Finalize(s)];
      return finalized;
    }
  }

  class Rows {
    const s: Stmt
    const cls: bool

    constructor (s: Stmt, cls: bool)
      ensures this.s == s && this.cls == cls
    {
      this.s, this.cls := s, cls;
    }

    /** `finalized` and `rewound` are what sqlite3_finalize and sqlite3_reset report, if called. */
    method Close(finalized: bool, rewound: bool) returns (ok: bool)
      modifies s, s.c
      ensures s.ViewOf() == CloseRows(old(s.ViewOf()), s.s, cls)
      ensures ok <==> old(s.closed) || if cls then s.c.open && finalized else rewound
    {
      if s.closed {
        return true;
      }
      if cls {
        ok := s.Close(finalized);
        return;
      }
      s.c.log := s.c.log + [Reset(s.s)];
      return rewound;
    }
  }

  /** What the Query loop does with a statement that is not the last: rows.Close, then s.Close. */
  method PassOver(rows: Rows, finalized: bool, rewound: bool)
    requires rows.cls
    modifies rows.s, rows.s.c
    ensures rows.s.ViewOf() == CloseStmt(old(rows.s.ViewOf()), rows.s.s)
  {
    var ok := rows.Close(finalized, rewound);
    ok := rows.s.Close(finalized);
  }

  // ---------- Runs ----------

  datatype Op<S> = StmtClose(s: S) | RowsClose(s: S, cls: bool) | ConnClose

  datatype World<S> = World(open: bool, closed: set<S>, log: seq<Call<S>>)

  function At<S>(w: World<S>, s: S): View<S> {
    View(w.open, s in w.closed, w.log)
  }

  function With<S>(w: World<S>, s: S, v: View<S>): World<S> {
    World(v.open, if v.closed then w.closed + {s} else w.closed - {s}, v.log)
  }

  function Next<S>(w: World<S>, op: Op<S>): World<S> {
    match op
    case StmtClose(s) => With(w, s, CloseStmt(At(w, s), s))
    case RowsClose(s, cls) => With(w, s, CloseRows(At(w, s), s, cls))
    case ConnClose => w.(open := false)
  }

  function Play<S>(run: seq<Op<S>>): World<S> {
    if run == [] then World(true, {}, []) else Next(Play(run[..|run| - 1]), run[|run| - 1])
  }

  function Finalizations<S(==)>(log: seq<Call<S>>, s: S): nat {
    if log == [] then 0
    else Finalizations(log[..|log| - 1], s) + if log[|log| - 1] == Finalize(s) then 1 else 0
  }

  predicate Closes<S(==)>(op: Op<S>, s: S) {
    op == StmtClose(s) || op == RowsClose(s, true)
  }

  predicate AnyCloses<S(==)>(run: seq<Op<S>>, s: S) {
    exists i :: 0 <= i < |run| && Closes(run[i], s)
  }

  predicate StaysOpen<S>(run: seq<Op<S>>) {
    forall i :: 0 <= i < |run| ==> !run[i].ConnClose?
  }

  /** Operation `i` is the first to close the statement, and finds the connection open. */
  predicate FirstInTime<S(==)>(run: seq<Op<S>>, s: S, i: nat) {
    i < |run| && Closes(run[i], s) && !AnyCloses(run[..i], s) && StaysOpen(run[..i])
  }

  /** Some operation closes the statement, and the first one that does finds the connection open. */
  predicate ClosedInTime<S(==)>(run: seq<Op<S>>, s: S) {
    exists i :: 0 <= i < |run| && FirstInTime(run, s, i)
  }

  lemma OneMoreOp<S>(front: seq<Op<S>>, op: Op<S>, s: S)
    ensures AnyCloses(front + [op], s) <==> AnyCloses(front, s) || Closes(op, s)
    ensures StaysOpen(front + [op]) <==> StaysOpen(front) && !op.ConnClose?
  {
    var run := front + [op];
    assert run[|front|] == op && forall i :: 0 <= i < |front| ==> run[i] == front[i];
    if AnyCloses(front, s) {
      var i :| 0 <= i < |front| && Closes(front[i], s);
      assert Closes(run[i], s);
    }
    if Closes(op, s) {
      assert Closes(run[|front|], s);
    }
  }

  lemma {:induction false} ClosedMeansAClosingOp<S>(run: seq<Op<S>>, s: S)
    ensures s in Play(run).closed <==> AnyCloses(run, s)
    ensures Play(run).open <==> StaysOpen(run)
  {
    if run != [] {
      hide AnyCloses, StaysOpen;
      var front, op := run[..|run| - 1], run[|run| - 1];
      assert run == front + [op];
      OneMoreOp(front, op, s);
      ClosedMeansAClosingOp(front, s);
    }
  }

  lemma FirstCloseOfLongerRun<S>(front: seq<Op<S>>, op: Op<S>, s: S)
    ensures ClosedInTime(front + [op], s) <==>
            ClosedInTime(front, s) || (Closes(op, s) && s !in Play(front).closed && Play(front).open)
  {
    hide AnyCloses, StaysOpen, Closes, Play;
    var run := front + [op];
    ClosedMeansAClosingOp(front, s);
    forall i | 0 <= i < |front| ensures FirstInTime(run, s, i) <==> FirstInTime(front, s, i) {
      assert run[..i] == front[..i] && run[i] == front[i];
    }
    assert run[..|front|] == front && run[|front|] == op;
    assert FirstInTime(run, s, |front|) <==> Closes(op, s) && s !in Play(front).closed && Play(front).open;
  }

  /** One operation makes at most one call; it finalizes `s` if it closes it first and in time. */
  lemma CallsOfOneOp<S>(w: World<S>, op: Op<S>, s: S) returns (added: seq<Call<S>>)
    ensures Next(w, op).log == w.log + added && |added| <= 1
    ensures added == [Finalize(s)] <==> Closes(op, s) && s !in w.closed && w.open
    ensures s in Next(w, op).closed <==> s in w.closed || Closes(op, s)
  {
    added := Next(w, op).log[|w.log|..];
  }

  lemma FinalizationsAppend<S>(log: seq<Call<S>>, added: seq<Call<S>>, s: S)
    requires |added| <= 1
    ensures Finalizations(log + added, s) == Finalizations(log, s) + if added == [Finalize(s)] then 1 else 0
  {
    if added == [] {
      assert log + added == log;
    } else {
      assert (log + added)[..|log|] == log && added == [added[0]];
    }
  }

  /**
   * Over every run a handle is finalized at most once, and exactly once if the first operation
   * that closes it finds the connection open; otherwise never.
   */
  lemma {:induction false} FinalizedOnceIffClosedInTime<S>(run: seq<Op<S>>, s: S)
    ensures Finalizations(Play(run).log, s) == if ClosedInTime(run, s) then 1 else 0
    ensures ClosedInTime(run, s) ==> s in Play(run).closed
  {
    if run != [] {
      hide Closes, FirstInTime;
      var front, op := run[..|run| - 1], run[|run| - 1];
      assert run == front + [op];
      FinalizedOnceIffClosedInTime(front, s);
      FirstCloseOfLongerRun(front, op, s);
      hide Next, Finalizations, ClosedInTime;
      var added := CallsOfOneOp(Play(front), op, s);
      FinalizationsAppend(Play(front).log, added, s);
    }
  }

  /** No call for a handle follows its finalization. */
  ghost predicate QuietAfterFinalize<S>(log: seq<Call<S>>, s: S) {
    forall i, j :: 0 <= i < j < |log| && log[i] == Finalize(s) ==> log[j].stmt != s
  }

  lemma {:induction false} FinalizedAreClosed<S>(run: seq<Op<S>>, s: S)
    ensures Finalize(s) in Play(run).log ==> s in Play(run).closed
    ensures QuietAfterFinalize(Play(run).log, s)
  {
    if run != [] {
      FinalizedAreClosed(run[..|run| - 1], s);
    }
  }

  /** Once a statement is closed no later operation adds a call for its handle, not even a reset. */
  lemma {:induction false} NothingAfterClose<S>(run: seq<Op<S>>, more: seq<Op<S>>, s: S)
    requires s in Play(run).closed
    ensures s in Play(run + more).closed
    ensures Play(run).log <= Play(run + more).log
    ensures forall k :: |Play(run).log| <= k < |Play(run + more).log| ==> Play(run + more).log[k].stmt != s
  {
    if more == [] {
      assert run + more == run;
    } else {
      var front := more[..|more| - 1];
      assert (run + more)[..|run + more| - 1] == run + front;
      assert (run + more)[|run + more| - 1] == more[|more| - 1];
      NothingAfterClose(run, front, s);
    }
  }

  /** How often the rows of a statement that they do not own are closed before anything closes it. */
  function Rewinds<S(==)>(run: seq<Op<S>>, s: S): nat {
    if run == [] then 0
    else
      var front := run[..|run| - 1];
      Rewinds(front, s) + if run[|run| - 1] == RowsClose(s, false) && !AnyCloses(front, s) then 1 else 0
  }

  function Resets<S(==)>(log: seq<Call<S>>, s: S): nat {
    if log == [] then 0 else Resets(log[..|log| - 1], s) + if log[|log| - 1] == Reset(s) then 1 else 0
  }

  lemma ResetsAppend<S>(log: seq<Call<S>>, added: seq<Call<S>>, s: S)
    requires |added| <= 1
    ensures Resets(log + added, s) == Resets(log, s) + if added == [Reset(s)] then 1 else 0
  {
    if added == [] {
      assert log + added == log;
    } else {
      assert (log + added)[..|log|] == log && added == [added[0]];
    }
  }

  /** One operation resets `s` exactly if it closes rows of an open statement that do not own it. */
  lemma ResetOfOneOp<S>(w: World<S>, op: Op<S>, s: S) returns (added: seq<Call<S>>)
    ensures Next(w, op).log == w.log + added && |added| <= 1
    ensures added == [Reset(s)] <==> op == RowsClose(s, false) && s !in w.closed
  {
    added := Next(w, op).log[|w.log|..];
  }

  /** Over every run a handle is reset once for each of these, and never otherwise. */
  lemma {:induction false} ResetOncePerRewind<S>(run: seq<Op<S>>, s: S)
    ensures Resets(Play(run).log, s) == Rewinds(run, s)
  {
    if run != [] {
      hide AnyCloses, Next, Resets;
      var front, op := run[..|run| - 1], run[|run| - 1];
      ResetOncePerRewind(front, s);
      ClosedMeansAClosingOp(front, s);
      var added := ResetOfOneOp(Play(front), op, s);
      ResetsAppend(Play(front).log, added, s);
    } else {
      assert Play(run).log == [];
    }
  }
}
