/**
 * Multi-statement Exec and Query: the loops that prepare the first statement of a script, hand it
 * the next arguments, and go on with the tail.
 *
 * SQLite is an engine of four calls. Shrinks, Joins and RunsScripts say what the driver relies on:
 * a tail is shorter than its script, a complete script followed by more text is prepared as it is
 * alone, white space apart, and sqlite3_exec runs the statements of a script one after the other.
 */
module Scripts {
  import opened Wrappers

  /** Prepare's outcome. A script of blanks or comments has no statement and no inputs. */
  datatype Prepared<S, E> = Bad(error: E) | Good(stmt: Option<S>, inputs: nat, tail: string)

  datatype Engine<!Db, !S, !V, !R, !E> = Engine(
    prepare: (Db, string) -> Prepared<S, E>,
    bind: (S, seq<V>) -> Option<E>,
    run: (Db, S, seq<V>) -> (Db, Result<R, E>),
    script: (Db, string) -> (Db, Result<R, E>))

  datatype Failure<E> = Reported(error: E) | NotEnoughArgs(expected: nat, got: nat)

  datatype Call<S, V> = Call(stmt: S, args: seq<V>)

  /** Where an Exec ends: the calls it made, the arguments left, and handles it did not close. */
  datatype Ending<Db, S, V, R, E> = Ending(
    db: Db, result: Result<Option<R>, Failure<E>>, calls: seq<Call<S, V>>, left: seq<V>, leaked: nat)

  ghost predicate Shrinks<Db(!new), S, V, R, E>(e: Engine<Db, S, V, R, E>) {
    forall db, q :: e.prepare(db, q).Good? ==>
      var p := e.prepare(db, q);
      (p.tail == "" || |p.tail| < |q|) && (p.stmt.None? ==> p.inputs == 0)
  }

  /** The loop of Exec from script `q` on. */
  ghost function ExecLoop<Db(!new), S, V, R, E>(e: Engine<Db, S, V, R, E>, db: Db, q: string, args: seq<V>):
    Ending<Db, S, V, R, E>
    requires Shrinks(e)
    decreases |q|
  {
    var p := e.prepare(db, q);
    if p.Bad? then Ending(db, Err(Reported(p.error)), [], args, 0)
    else if p.stmt.None? then
      if p.tail == "" then Ending(db, Ok(None), [], args, 0) else ExecLoop(e, db, p.tail, args)
    else if |args| < p.inputs then Ending(db, Err(NotEnoughArgs(p.inputs, |args|)), [], args, 1)
    else
      var call := Call(p.stmt.value, args[..p.inputs]);
      var ran := e.run(db, call.stmt, call.args);
      if ran.1.Err? then Ending(ran.0, Err(Reported(ran.1.error)), [call], args[p.inputs..], 0)
      else if p.tail == "" then Ending(ran.0, Ok(Some(ran.1.value)), [call], args[p.inputs..], 0)
      else
        var more := ExecLoop(e, ran.0, p.tail, args[p.inputs..]);
        more.(calls := [call] + more.calls)
  }

  /** An ending after calls already made. */
  function Behind<Db, S, V, R, E>(calls: seq<Call<S, V>>, ending: Ending<Db, S, V, R, E>): Ending<Db, S, V, R, E> {
    ending.(calls := calls + ending.calls)
  }

  lemma TailShrinks<Db(!new), S, V, R, E>(e: Engine<Db, S, V, R, E>, db: Db, q: string)
    requires Shrinks(e)
    ensures var p := e.prepare(db, q);
            p.Good? ==> (p.tail != "" ==> |p.tail| < |q|) && (p.stmt.None? ==> p.inputs == 0)
  {
  }

  /** One round of the loop of Exec after `calls`: where it ends, or how it goes on. */
  lemma ExecRound<Db(!new), S, V, R, E>(
    e: Engine<Db, S, V, R, E>, db: Db, q: string, args: seq<V>, calls: seq<Call<S, V>>)
    requires Shrinks(e)
    ensures var p := e.prepare(db, q);
            p.Good? ==> (p.tail != "" ==> |p.tail| < |q|) && (p.stmt.None? ==> p.inputs == 0)
    ensures var p, whole := e.prepare(db, q), Behind(calls, ExecLoop(e, db, q, args));
            if p.Bad? then whole == Ending(db, Err(Reported(p.error)), calls, args, 0)
            else if p.stmt.None? then
              if p.tail == "" then whole == Ending(db, Ok(None), calls, args, 0)
              else whole == Behind(calls, ExecLoop(e, db, p.tail, args))
            else if |args| < p.inputs then whole == Ending(db, Err(NotEnoughArgs(p.inputs, |args|)), calls, args, 1)
            else
              var made, left := calls + [Call(p.stmt.value, args[..p.inputs])], args[p.inputs..];
              var ran := e.run(db, p.stmt.value, args[..p.inputs]);
              if ran.1.Err? then whole == Ending(ran.0, Err(Reported(ran.1.error)), made, left, 0)
              else if p.tail == "" then whole == Ending(ran.0, Ok(Some(ran.1.value)), made, left, 0)
              else whole == Behind(made, ExecLoop(e, ran.0, p.tail, left))
  {
    TailShrinks(e, db, q);
    hide Shrinks;
    assert calls + [] == calls;
    var p := e.prepare(db, q);
    if p.Good? && p.stmt.Some? && p.inputs <= |args| {
      var call := Call(p.stmt.value, args[..p.inputs]);
      var ran := e.run(db, call.stmt, call.args);
      if ran.1.Ok? && p.tail != "" {
        var more := ExecLoop(e, ran.0, p.tail, args[p.inputs..]);
        assert calls + ([call] + more.calls) == calls + [call] + more.calls;
      }
    }
  }

  lemma BehindAddsCalls<Db, S, V, R, E>(calls: seq<Call<S, V>>, ending: Ending<Db, S, V, R, E>)
    ensures var behind := Behind(calls, ending);
            && behind.db == ending.db && behind.result == ending.result && behind.leaked == ending.leaked
            && behind.calls == calls + ending.calls
  {
  }

  lemma BehindNothing<Db, S, V, R, E>(ending: Ending<Db, S, V, R, E>)
    ensures Behind([], ending) == ending
  {
  }

  /** Without arguments the script goes to sqlite3_exec whole. */
  ghost function ExecEnding<Db(!new), S, V, R, E>(e: Engine<Db, S, V, R, E>, db: Db, q: string, args: seq<V>):
    Ending<Db, S, V, R, E>
    requires Shrinks(e)
  {
    if args != [] then ExecLoop(e, db, q, args)
    else
      var ran := e.script(db, q);
      Ending(ran.0, if ran.1.Ok? then Ok(Some(ran.1.value)) else Err(Reported(ran.1.error)), [], [], 0)
  }

  datatype Rows<S, V> = Rows(stmt: Option<S>, args: seq<V>)

  datatype QueryEnding<S, V, E> = QueryEnding(result: Result<Rows<S, V>, Failure<E>>, left: seq<V>, leaked: nat)

  /** The loop of Query from script `q` on. Only the last statement's rows are returned. */
  ghost function QueryLoop<Db(!new), S, V, R, E>(e: Engine<Db, S, V, R, E>, db: Db, q: string, args: seq<V>):
    QueryEnding<S, V, E>
    requires Shrinks(e)
    decreases |q|
  {
    var p := e.prepare(db, q);
    if p.Bad? then QueryEnding(Err(Reported(p.error)), args, 0)
    else if |args| < p.inputs then QueryEnding(Err(NotEnoughArgs(p.inputs, |args|)), args, 1)
    else
      var given, left := args[..p.inputs], args[p.inputs..];
      if p.stmt.Some? && e.bind(p.stmt.value, given).Some? then
        QueryEnding(Err(Reported(e.bind(p.stmt.value, given).value)), args, 0)
      else if p.tail == "" then QueryEnding(Ok(Rows(p.stmt, given)), left, 0)
      else QueryLoop(e, db, p.tail, left)
  }

  /** One round of the loop of Query: where it ends, or how it goes on. */
  lemma QueryRound<Db(!new), S, V, R, E>(e: Engine<Db, S, V, R, E>, db: Db, q: string, args: seq<V>)
    requires Shrinks(e)
    ensures var p, whole := e.prepare(db, q), QueryLoop(e, db, q, args);
            if p.Bad? then whole == QueryEnding(Err(Reported(p.error)), args, 0)
            else if |args| < p.inputs then whole == QueryEnding(Err(NotEnoughArgs(p.inputs, |args|)), args, 1)
            else if p.stmt.Some? && e.bind(p.stmt.value, args[..p.inputs]).Some? then
              whole == QueryEnding(Err(Reported(e.bind(p.stmt.value, args[..p.inputs]).value)), args, 0)
            else if p.tail == "" then
              whole == QueryEnding(Ok(Rows(p.stmt, args[..p.inputs])), args[p.inputs..], 0)
            else whole == QueryLoop(e, db, p.tail, args[p.inputs..])
  {
  }

  class Conn<Db(!new), S, V, R, E> {
    const e: Engine<Db, S, V, R, E>
    var db: Db
    /** Statement handles prepared and not yet finalized. */
    var handles: nat
    ghost var log: seq<Call<S, V>>

    constructor (e: Engine<Db, S, V, R, E>, db: Db)
      ensures this.e == e && this.db == db && handles == 0 && log == []
    {
      this.e, this.db, handles, log := e, db, 0, [];
    }

    method Exec(query: string, args: seq<V>) returns (result: Result<Option<R>, Failure<E>>)
      requires Shrinks(e)
      modifies this
      ensures var ending := ExecEnding(e, old(db), query, args);
              && result == ending.result && db == ending.db
              && log == old(log) + ending.calls && handles == old(handles) + ending.leaked
    {
      if |args| == 0 {
        var (after, r) := e.script(db, query);
        db := after;
        return if r.Ok? then Ok(Some(r.value)) else Err(Reported(r.error));
      }
      hide ExecLoop, Behind, Shrinks;
      var query, args := query, args;
      ghost var whole := Behind(log, ExecLoop(e, db, query, args));
      BehindAddsCalls(log, ExecLoop(e, db, query, args));
      while true
        invariant handles == old(handles)
        invariant whole == Behind(log, ExecLoop(e, db, query, args))
        decreases |query|
      {
        ExecRound(e, db, query, args, log);
        var p := e.prepare(db, query);
        if p.Bad? {
          return Err(Reported(p.error));
        }
        var res: Option<R> := None;
        if p.stmt.Some? {
          handles := handles + 1;
          if |args| < p.inputs {
            return Err(NotEnoughArgs(p.inputs, |args|));
          }
          ghost var call := Call(p.stmt.value, args[..p.inputs]);
          var (after, r) := e.run(db, p.stmt.value, args[..p.inputs]);
          db, log := after, log + [call];
          if r.Err? {
            handles := handles - 1;
            return Err(Reported(r.error));
          }
          res, args := Some(r.value), args[p.inputs..];
          handles := handles - 1;
        }
        if p.tail == "" {
          return Ok(res);
        }
        query := p.tail;
      }
    }

    /**
     * The statements before the last are prepared and bound, and closed without a step: the
     * database is as it was. A statement whose rows are returned stays open with them.
     */
    method Query(query: string, args: seq<V>) returns (result: Result<Rows<S, V>, Failure<E>>)
      requires Shrinks(e)
      modifies this
      ensures db == old(db) && log == old(log)
      ensures var ending := QueryLoop(e, old(db), query, args);
              && result == ending.result
              && handles == old(handles) + ending.leaked + if result.Ok? && result.value.stmt.Some? then 1 else 0
    {
      var query, args := query, args;
      ghost var whole := QueryLoop(e, db, query, args);
      while true
        invariant handles == old(handles) && log == old(log) && db == old(db)
        invariant QueryLoop(e, db, query, args) == whole
        decreases |query|
      {
        var p := e.prepare(db, query);
        if p.Bad? {
          return Err(Reported(p.error));
        }
        if p.stmt.Some? {
          handles := handles + 1;
        }
        if |args| < p.inputs {
          return Err(NotEnoughArgs(p.inputs, |args|));
        }
        var bound := if p.stmt.Some? then e.bind(p.stmt.value, args[..p.inputs]) else None;
        if bound.Some? {
          handles := handles - 1;
          return Err(Reported(bound.value));
        }
        var rows := Rows(p.stmt, args[..p.inputs]);
        args := args[p.inputs..];
        if p.tail == "" {
          return Ok(rows);
        }
        if p.stmt.Some? {
          handles := handles - 1;
        }
        query := p.tail;
      }
    }
  }

  // ---------- Scripts put together ----------

  /** The same error, or the same statement, with tails that are both empty or the `same` to SQLite. */
  predicate SamePrepared<S(==), E(==)>(same: (string, string) -> bool, p: Prepared<S, E>, r: Prepared<S, E>) {
    if p.Bad? then r == p
    else
      && r.Good? && r.stmt == p.stmt && r.inputs == p.inputs
      && if p.tail == "" then r.tail == "" else r.tail != "" && same(p.tail, r.tail)
  }

  /** Texts that are the `same`, such as those that differ in white space alone, are prepared alike. */
  ghost predicate Respects<Db(!new), S, V, R, E>(e: Engine<Db, S, V, R, E>, same: (string, string) -> bool) {
    forall db, x, y :: same(x, y) ==> SamePrepared(same, e.prepare(db, x), e.prepare(db, y))
  }

  /** A text without any statement. */
  ghost predicate Blank<Db(!new), S, V, R, E>(e: Engine<Db, S, V, R, E>, q: string) {
    forall db :: e.prepare(db, q) == Good(None, 0, "")
  }

  /**
   * `q2` may follow every script that is `clean`: what comes first is prepared as it is alone, and
   * what remains is the same as its tail and `q2`. Prepare trims tails, so nothing need remain
   * of a blank `q2`.
   */
  ghost predicate Joins<Db(!new), S, V, R, E>(
    e: Engine<Db, S, V, R, E>, clean: string -> bool, same: (string, string) -> bool, q2: string)
  {
    && Respects(e, same)
    && forall db, q :: clean(q) ==>
         var p, joined := e.prepare(db, q), e.prepare(db, q + q2);
         if p.Bad? then joined == p
         else
           && (p.tail != "" ==> clean(p.tail))
           && joined.Good? && joined.stmt == p.stmt && joined.inputs == p.inputs
           && if joined.tail == "" then p.tail == "" && Blank(e, q2)
              else same(joined.tail, if p.tail == "" then q2 else p.tail + q2)
  }

  /** Exec and Query do the same on texts that are the same. */
  lemma {:induction false} SameLoop<Db(!new), S, V, R, E>(
    e: Engine<Db, S, V, R, E>, same: (string, string) -> bool, db: Db, x: string, y: string, args: seq<V>)
    requires Shrinks(e) && Respects(e, same) && same(x, y)
    ensures ExecLoop(e, db, x, args) == ExecLoop(e, db, y, args)
    ensures QueryLoop(e, db, x, args) == QueryLoop(e, db, y, args)
    decreases |x|
  {
    var p, r := e.prepare(db, x), e.prepare(db, y);
    assert SamePrepared(same, p, r);
    if p.Good? && p.tail != "" && p.inputs <= |args| {
      SameLoop(e, same, db, p.tail, r.tail, args[p.inputs..]);
      if p.stmt.None? {
        assert args[0..] == args;
      } else {
        SameLoop(e, same, e.run(db, p.stmt.value, args[..p.inputs]).0, p.tail, r.tail, args[p.inputs..]);
      }
    }
  }

  /** Further arguments do not change a run that did not lack any; they are left over. */
  lemma {:induction false} MoreArguments<Db(!new), S, V, R, E>(
    e: Engine<Db, S, V, R, E>, db: Db, q: string, args: seq<V>, extra: seq<V>)
    requires Shrinks(e)
    requires ExecLoop(e, db, q, args).leaked == 0
    ensures var ending := ExecLoop(e, db, q, args);
            ExecLoop(e, db, q, args + extra) == ending.(left := ending.left + extra)
    decreases |q|
  {
    var p := e.prepare(db, q);
    if p.Good? && p.stmt.None? && p.tail != "" {
      MoreArguments(e, db, p.tail, args, extra);
    } else if p.Good? && p.stmt.Some? && p.inputs <= |args| {
      assert (args + extra)[..p.inputs] == args[..p.inputs];
      assert (args + extra)[p.inputs..] == args[p.inputs..] + extra;
      var ran := e.run(db, p.stmt.value, args[..p.inputs]);
      if ran.1.Ok? && p.tail != "" {
        MoreArguments(e, ran.0, p.tail, args[p.inputs..], extra);
      }
    }
  }

  /** The first part and then the second, as one ending. */
  ghost function InTurn<Db(!new), S, V, R, E>(e: Engine<Db, S, V, R, E>, first: Ending<Db, S, V, R, E>, q2: string):
    Ending<Db, S, V, R, E>
    requires Shrinks(e)
  {
    if first.result.Err? then first
    else
      var second := ExecLoop(e, first.db, q2, first.left);
      second.(calls := first.calls + second.calls)
  }

  lemma InTurnAfterCall<Db(!new), S, V, R, E>(
    e: Engine<Db, S, V, R, E>, first: Ending<Db, S, V, R, E>, q2: string, call: Call<S, V>)
    requires Shrinks(e)
    ensures var later := InTurn(e, first, q2);
            InTurn(e, first.(calls := [call] + first.calls), q2) == later.(calls := [call] + later.calls)
  {
  }

  /** One statement without a script behind it, then `q2`. */
  lemma InTurnAfterLast<Db(!new), S, V, R, E>(e: Engine<Db, S, V, R, E>, first: Ending<Db, S, V, R, E>, q2: string)
    requires Shrinks(e) && first.result.Ok? && |first.calls| <= 1
    ensures var second := ExecLoop(e, first.db, q2, first.left);
            InTurn(e, first, q2) ==
            if first.calls == [] then second else second.(calls := [first.calls[0]] + second.calls)
  {
  }

  /** What the joined script does, told from its parts; of a blank second part only the result may differ. */
  ghost predicate RunsBoth<Db(!new), S, V, R, E>(
    e: Engine<Db, S, V, R, E>, both: Ending<Db, S, V, R, E>, first: Ending<Db, S, V, R, E>, q2: string)
    requires Shrinks(e)
  {
    both == InTurn(e, first, q2) || (Blank(e, q2) && both == first)
  }

  /** A joined script runs its first part as alone; if that succeeds, its second part with what is left. */
  lemma {:induction false} JoinedLoop<Db(!new), S, V, R, E>(
    e: Engine<Db, S, V, R, E>, clean: string -> bool, same: (string, string) -> bool, db: Db, q1: string, q2: string,
    args: seq<V>)
    requires Shrinks(e) && Joins(e, clean, same, q2) && clean(q1)
    ensures RunsBoth(e, ExecLoop(e, db, q1 + q2, args), ExecLoop(e, db, q1, args), q2)
    decreases |q1|
  {
    var p, joined := e.prepare(db, q1), e.prepare(db, q1 + q2);
    if p.Good? {
      hide InTurn, Blank;
      var first := ExecLoop(e, db, q1, args);
      var more := if p.tail == "" then q2 else p.tail + q2;
      if p.stmt.None? {
        if joined.tail != "" {
          SameLoop(e, same, db, joined.tail, more, args);
          if p.tail != "" {
            JoinedLoop(e, clean, same, db, p.tail, q2, args);
          } else {
            InTurnAfterLast(e, first, q2);
          }
        }
      } else if |args| < p.inputs {
        ErrorEndsBoth(e, first, q2);
      } else {
        var call, left := Call(p.stmt.value, args[..p.inputs]), args[p.inputs..];
        var ran := e.run(db, call.stmt, call.args);
        if ran.1.Err? {
          ErrorEndsBoth(e, first, q2);
        } else if joined.tail != "" {
          SameLoop(e, same, ran.0, joined.tail, more, left);
          if p.tail != "" {
            JoinedLoop(e, clean, same, ran.0, p.tail, q2, left);
            InTurnAfterCall(e, ExecLoop(e, ran.0, p.tail, left), q2, call);
          } else {
            InTurnAfterLast(e, first, q2);
          }
        }
      }
    } else {
      ErrorEndsBoth(e, ExecLoop(e, db, q1, args), q2);
    }
  }

  lemma ErrorEndsBoth<Db(!new), S, V, R, E>(e: Engine<Db, S, V, R, E>, first: Ending<Db, S, V, R, E>, q2: string)
    requires Shrinks(e) && first.result.Err?
    ensures InTurn(e, first, q2) == first
  {
  }

  lemma {:induction false} OnlyShortageLeaks<Db(!new), S, V, R, E>(
    e: Engine<Db, S, V, R, E>, db: Db, q: string, args: seq<V>)
    requires Shrinks(e)
    ensures var ending := ExecLoop(e, db, q, args);
            && |ending.left| <= |args|
            && (ending.result.Ok? || ending.result.error.Reported? ==> ending.leaked == 0)
    decreases |q|
  {
    var p := e.prepare(db, q);
    if p.Good? && p.stmt.None? && p.tail != "" {
      OnlyShortageLeaks(e, db, p.tail, args);
    } else if p.Good? && p.stmt.Some? && p.inputs <= |args| {
      var ran := e.run(db, p.stmt.value, args[..p.inputs]);
      if ran.1.Ok? && p.tail != "" {
        OnlyShortageLeaks(e, ran.0, p.tail, args[p.inputs..]);
      }
    }
  }

  /** What sqlite3_exec does: it runs the statements with nothing bound, up to the first error. */
  ghost function ScriptLoop<Db(!new), S, V, R, E>(e: Engine<Db, S, V, R, E>, db: Db, q: string): (Db, Option<E>)
    requires Shrinks(e)
    decreases |q|
  {
    var p := e.prepare(db, q);
    if p.Bad? then (db, Some(p.error))
    else if p.stmt.None? then if p.tail == "" then (db, None) else ScriptLoop(e, db, p.tail)
    else
      var ran := e.run(db, p.stmt.value, []);
      if ran.1.Err? then (ran.0, Some(ran.1.error))
      else if p.tail == "" then (ran.0, None)
      else ScriptLoop(e, ran.0, p.tail)
  }

  ghost predicate RunsScripts<Db(!new), S, V, R, E>(e: Engine<Db, S, V, R, E>)
    requires Shrinks(e)
  {
    forall db, q :: var ran := e.script(db, q);
      (ran.0, if ran.1.Ok? then None else Some(ran.1.error)) == ScriptLoop(e, db, q)
  }

  /** The same database afterwards, and the same error or none. */
  predicate SameEffect<Db(==), S, V, R, E(==)>(x: Ending<Db, S, V, R, E>, y: Ending<Db, S, V, R, E>) {
    x.db == y.db && (if x.result.Err? then y.result.Err? && x.result.error == y.result.error else y.result.Ok?)
  }

  /** No statement that runs when there are no arguments has a parameter. */
  ghost predicate NeedsNoArguments<Db(!new), S, V, R, E>(e: Engine<Db, S, V, R, E>, db: Db, q: string)
    requires Shrinks(e)
  {
    ExecLoop(e, db, q, []).leaked == 0
  }

  lemma {:induction false} LoopIsScript<Db(!new), S, V, R, E>(e: Engine<Db, S, V, R, E>, db: Db, q: string)
    requires Shrinks(e) && NeedsNoArguments(e, db, q)
    ensures var ending := ExecLoop(e, db, q, []);
            if ending.result.Err? then
              ending.result.error.Reported? && ScriptLoop(e, db, q) == (ending.db, Some(ending.result.error.error))
            else ScriptLoop(e, db, q) == (ending.db, None)
    decreases |q|
  {
    var p := e.prepare(db, q);
    if p.Good? && p.stmt.None? && p.tail != "" {
      LoopIsScript(e, db, p.tail);
    } else if p.Good? && p.stmt.Some? {
      assert p.inputs == 0;
      var none: seq<V> := [];
      assert none[..0] == none && none[0..] == none;
      var ran := e.run(db, p.stmt.value, none);
      if ran.1.Ok? && p.tail != "" {
        LoopIsScript(e, ran.0, p.tail);
      }
    }
  }

  /** Exec does what its loop does, even if it hands the script to sqlite3_exec. */
  lemma {:induction false} ExecIsItsLoop<Db(!new), S, V, R, E>(
    e: Engine<Db, S, V, R, E>, db: Db, q: string, args: seq<V>)
    requires Shrinks(e) && RunsScripts(e) && (args == [] ==> NeedsNoArguments(e, db, q))
    ensures SameEffect(ExecLoop(e, db, q, args), ExecEnding(e, db, q, args))
    ensures args != [] ==> ExecEnding(e, db, q, args) == ExecLoop(e, db, q, args)
  {
    hide ExecLoop, ScriptLoop;
    if args == [] {
      LoopIsScript(e, db, q);
      assert e.script(db, q).0 == ScriptLoop(e, db, q).0;
    }
  }

  /**
   * Running two scripts as one, with the arguments of both, is running the first and then the
   * second, when the first uses up its arguments; and is the first alone when SQLite refuses it.
   * A part without arguments must have no parameters: alone, it would run with nothing bound.
   */
  lemma {:induction false} JoinedScriptRunsInTurn<Db(!new), S, V, R, E>(
    e: Engine<Db, S, V, R, E>, clean: string -> bool, same: (string, string) -> bool, db: Db, q1: string, a1: seq<V>,
    q2: string, a2: seq<V>)
    requires Shrinks(e) && RunsScripts(e) && Joins(e, clean, same, q2) && clean(q1)
    requires a1 == [] ==> NeedsNoArguments(e, db, q1)
    requires a2 == [] ==> NeedsNoArguments(e, ExecEnding(e, db, q1, a1).db, q2)
    ensures var first, both := ExecEnding(e, db, q1, a1), ExecEnding(e, db, q1 + q2, a1 + a2);
            var second := ExecEnding(e, first.db, q2, a2);
            && (first.result.Ok? && first.left == [] ==>
                 && SameEffect(both, second)
                 && (a1 != [] && a2 != [] ==>
                      var inTurn := second.(calls := first.calls + second.calls);
                      both == inTurn || (Blank(e, q2) && both == inTurn.(result := first.result))))
            && (first.result.Err? && first.result.error.Reported? ==>
                 && SameEffect(both, first)
                 && (a1 != [] ==> both.calls == first.calls))
  {
    hide ExecLoop, Joins, RunsScripts, ExecEnding, Blank;
    var loop := ExecLoop(e, db, q1, a1);
    var first := ExecEnding(e, db, q1, a1);
    ExecIsItsLoop(e, db, q1, a1);
    OnlyShortageLeaks(e, db, q1, a1);
    if loop.leaked == 0 {
      MoreArguments(e, db, q1, a1, a2);
      JoinedLoop(e, clean, same, db, q1, q2, a1 + a2);
      if loop.result.Ok? && first.left == [] {
        assert loop.left == [];
        assert [] + a2 == a2;
        ExecIsItsLoop(e, first.db, q2, a2);
        if Blank(e, q2) {
          BlankDoesNothing(e, first.db, q2, a2);
        }
      }
      ExecIsItsLoop(e, db, q1 + q2, a1 + a2);
    }
  }

  lemma {:induction false} BlankDoesNothing<Db(!new), S, V, R, E>(
    e: Engine<Db, S, V, R, E>, db: Db, q: string, args: seq<V>)
    requires Shrinks(e) && Blank(e, q)
    ensures ExecLoop(e, db, q, args) == Ending(db, Ok(None), [], args, 0)
  {
  }

  /** Of a joined script, Query returns the rows of the second part alone, unless that is blank. */
  lemma {:induction false} QueryReturnsLastPart<Db(!new), S, V, R, E>(
    e: Engine<Db, S, V, R, E>, clean: string -> bool, same: (string, string) -> bool, db: Db, q1: string, q2: string,
    args: seq<V>)
    requires Shrinks(e) && Joins(e, clean, same, q2) && clean(q1)
    ensures var first, both := QueryLoop(e, db, q1, args), QueryLoop(e, db, q1 + q2, args);
            || both == (if first.result.Err? then first else QueryLoop(e, db, q2, first.left))
            || (Blank(e, q2) && both == first)
    decreases |q1|
  {
    var p, joined := e.prepare(db, q1), e.prepare(db, q1 + q2);
    if p.Good? && p.inputs <= |args| && joined.tail != "" {
      SameLoop(e, same, db, joined.tail, if p.tail == "" then q2 else p.tail + q2, args[p.inputs..]);
      if p.tail != "" {
        QueryReturnsLastPart(e, clean, same, db, p.tail, q2, args[p.inputs..]);
      }
    }
  }
}
