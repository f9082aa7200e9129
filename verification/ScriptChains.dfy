/**
 * What a multi-statement Exec or Query does, told from the script alone: the chain of texts in
 * which each is the tail of the one before, the databases between them, and the parameter counts.
 */
module ScriptChains {
  import opened Wrappers
  import opened Scripts

  /** A place the loop comes to: the database it finds there and the text still to do. */
  datatype Stage<Db> = Stage(db: Db, text: string)

  function Prep<Db, S, V, R, E>(e: Engine<Db, S, V, R, E>, stage: Stage<Db>): Prepared<S, E> {
    e.prepare(stage.db, stage.text)
  }

  function Inputs<S, E>(p: Prepared<S, E>): nat {
    if p.Good? then p.inputs else 0
  }

  /** The parameters of the first `k` statements. */
  function Taken<Db, S, V, R, E>(e: Engine<Db, S, V, R, E>, stages: seq<Stage<Db>>, k: nat): nat
    requires k <= |stages|
  {
    if k == 0 then 0 else Taken(e, stages, k - 1) + Inputs(Prep(e, stages[k - 1]))
  }

  /** What a statement does in its turn: the database after it, unless it fails. */
  type Turn<!Db, !S, !V> = (Db, S, seq<V>) -> Option<Db>

  /** In Exec a statement runs. */
  function Runs<Db, S, V, R, E>(e: Engine<Db, S, V, R, E>): Turn<Db, S, V> {
    (db, s, given) => var ran := e.run(db, s, given); if ran.1.Ok? then Some(ran.0) else None
  }

  /** In Query it is only bound. */
  function Binds<Db, S, V, R, E>(e: Engine<Db, S, V, R, E>): Turn<Db, S, V> {
    (db, s, given) => if e.bind(s, given).Some? then None else Some(db)
  }

  /**
   * The database after stage `i`. Its statement, if it has one, has its turn with the arguments
   * that start at the sum of the earlier parameter counts; None if it is refused, lacks arguments
   * or fails.
   */
  function Passed<Db, S, V, R, E>(
    e: Engine<Db, S, V, R, E>, turn: Turn<Db, S, V>, args: seq<V>, stages: seq<Stage<Db>>, i: nat): Option<Db>
    requires i < |stages|
  {
    var p, from, to := Prep(e, stages[i]), Taken(e, stages, i), Taken(e, stages, i + 1);
    if p.Bad? || |args| < to then None
    else if p.stmt.None? then Some(stages[i].db)
    else turn(stages[i].db, p.stmt.value, args[from..to])
  }

  /** Where the loop comes to from stage `i`: it passed and its tail is not empty. */
  function Next<Db, S, V, R, E>(
    e: Engine<Db, S, V, R, E>, turn: Turn<Db, S, V>, args: seq<V>, stages: seq<Stage<Db>>, i: nat): Option<Stage<Db>>
    requires i < |stages|
  {
    var after := Passed(e, turn, args, stages, i);
    if after.None? || Prep(e, stages[i]).tail == "" then None else Some(Stage(after.value, Prep(e, stages[i]).tail))
  }

  /** Each stage leads to the next one. */
  ghost predicate Chain<Db(!new), S, V, R, E>(
    e: Engine<Db, S, V, R, E>, turn: Turn<Db, S, V>, db: Db, q: string, args: seq<V>, stages: seq<Stage<Db>>)
  {
    && stages != [] && stages[0] == Stage(db, q)
    && forall i :: 0 <= i < |stages| - 1 ==> Next(e, turn, args, stages, i) == Some(stages[i + 1])
  }

  /** And the last one leads to none. */
  ghost predicate Whole<Db(!new), S, V, R, E>(
    e: Engine<Db, S, V, R, E>, turn: Turn<Db, S, V>, db: Db, q: string, args: seq<V>, stages: seq<Stage<Db>>)
  {
    Chain(e, turn, db, q, args, stages) && Next(e, turn, args, stages, |stages| - 1) == None
  }

  /** The last stage passes and nothing is left of the script. */
  predicate Complete<Db, S, V, R, E>(
    e: Engine<Db, S, V, R, E>, turn: Turn<Db, S, V>, args: seq<V>, stages: seq<Stage<Db>>)
  {
    stages != [] && Passed(e, turn, args, stages, |stages| - 1).Some? && Prep(e, stages[|stages| - 1]).tail == ""
  }

  /** The statements reached have more parameters than there are arguments. */
  predicate Short<Db, S, V, R, E>(e: Engine<Db, S, V, R, E>, args: seq<V>, stages: seq<Stage<Db>>) {
    |args| < Taken(e, stages, |stages|)
  }

  lemma {:induction false} TakenGrows<Db, S, V, R, E>(
    e: Engine<Db, S, V, R, E>, stages: seq<Stage<Db>>, j: nat, k: nat)
    requires j <= k <= |stages|
    ensures Taken(e, stages, j) <= Taken(e, stages, k)
  {
    if j < k {
      TakenGrows(e, stages, j, k - 1);
    }
  }

  lemma {:induction false} TakenOfPrefix<Db, S, V, R, E>(
    e: Engine<Db, S, V, R, E>, stages: seq<Stage<Db>>, more: seq<Stage<Db>>, k: nat)
    requires k <= |stages| && k <= |more| && stages[..k] == more[..k]
    ensures Taken(e, stages, k) == Taken(e, more, k)
  {
    if k > 0 {
      assert stages[..k - 1] == stages[..k][..k - 1] && more[..k - 1] == more[..k][..k - 1];
      TakenOfPrefix(e, stages, more, k - 1);
      assert stages[k - 1] == stages[..k][k - 1] == more[..k][k - 1] == more[k - 1];
    }
  }

  /** Where a stage leads to depends on the stages up to it alone. */
  lemma {:induction false} NextOfPrefix<Db, S, V, R, E>(
    e: Engine<Db, S, V, R, E>, turn: Turn<Db, S, V>, args: seq<V>, stages: seq<Stage<Db>>, more: seq<Stage<Db>>,
    i: nat)
    requires i < |stages| && i < |more| && stages[..i + 1] == more[..i + 1]
    ensures Next(e, turn, args, stages, i) == Next(e, turn, args, more, i)
  {
    hide Taken;
    assert stages[..i] == stages[..i + 1][..i] && more[..i] == more[..i + 1][..i];
    assert stages[i] == stages[..i + 1][i] == more[..i + 1][i] == more[i];
    TakenOfPrefix(e, stages, more, i);
    TakenOfPrefix(e, stages, more, i + 1);
    TakenGrows(e, stages, i, i + 1);
  }

  lemma {:induction false} StartsAt<Db(!new), S, V, R, E>(
    e: Engine<Db, S, V, R, E>, turn: Turn<Db, S, V>, db: Db, q: string, args: seq<V>, stages: seq<Stage<Db>>)
    requires Chain(e, turn, db, q, args, stages)
    ensures stages != [] && stages[0] == Stage(db, q)
  {
  }

  lemma {:induction false} LeadsOn<Db(!new), S, V, R, E>(
    e: Engine<Db, S, V, R, E>, turn: Turn<Db, S, V>, db: Db, q: string, args: seq<V>, stages: seq<Stage<Db>>, i: nat)
    requires Chain(e, turn, db, q, args, stages) && i < |stages| - 1
    ensures Next(e, turn, args, stages, i) == Some(stages[i + 1])
  {
  }

  /** Every stage that is reached finds the arguments of those before it handed out. */
  lemma {:induction false} TakenWhenReached<Db(!new), S, V, R, E>(
    e: Engine<Db, S, V, R, E>, turn: Turn<Db, S, V>, db: Db, q: string, args: seq<V>, stages: seq<Stage<Db>>, i: nat)
    requires Chain(e, turn, db, q, args, stages) && i < |stages|
    ensures Taken(e, stages, i) <= |args|
  {
    if i > 0 {
      LeadsOn(e, turn, db, q, args, stages, i - 1);
    }
  }

  // ---------- A script has one whole chain ----------

  lemma {:induction false} ChainGoesOn<Db(!new), S, V, R, E>(
    e: Engine<Db, S, V, R, E>, turn: Turn<Db, S, V>, db: Db, q: string, args: seq<V>, stages: seq<Stage<Db>>,
    next: Stage<Db>)
    requires Chain(e, turn, db, q, args, stages) && Next(e, turn, args, stages, |stages| - 1) == Some(next)
    ensures Chain(e, turn, db, q, args, stages + [next])
  {
    hide Next;
    var more := stages + [next];
    forall i | 0 <= i < |more| - 1 ensures Next(e, turn, args, more, i) == Some(more[i + 1]) {
      assert more[..i + 1] == stages[..i + 1];
      NextOfPrefix(e, turn, args, stages, more, i);
    }
  }

  lemma {:induction false} ChainContinues<Db(!new), S, V, R, E>(
    e: Engine<Db, S, V, R, E>, turn: Turn<Db, S, V>, db: Db, q: string, args: seq<V>, stages: seq<Stage<Db>>)
    returns (whole: seq<Stage<Db>>)
    requires Shrinks(e) && Chain(e, turn, db, q, args, stages)
    ensures Whole(e, turn, db, q, args, whole)
    decreases |stages[|stages| - 1].text|
  {
    whole := stages;
    var next := Next(e, turn, args, stages, |stages| - 1);
    if next.Some? {
      ChainGoesOn(e, turn, db, q, args, stages, next.value);
      whole := ChainContinues(e, turn, db, q, args, stages + [next.value]);
    }
  }

  /** Every script has a whole chain. */
  lemma {:induction false} ChainOf<Db(!new), S, V, R, E>(
    e: Engine<Db, S, V, R, E>, turn: Turn<Db, S, V>, db: Db, q: string, args: seq<V>) returns (stages: seq<Stage<Db>>)
    requires Shrinks(e)
    ensures Whole(e, turn, db, q, args, stages)
  {
    stages := ChainContinues(e, turn, db, q, args, [Stage(db, q)]);
  }

  lemma {:induction false} ChainsAgree<Db(!new), S, V, R, E>(
    e: Engine<Db, S, V, R, E>, turn: Turn<Db, S, V>, db: Db, q: string, args: seq<V>, xs: seq<Stage<Db>>,
    ys: seq<Stage<Db>>, k: nat)
    requires Chain(e, turn, db, q, args, xs) && Chain(e, turn, db, q, args, ys) && k < |xs| && k < |ys|
    ensures xs[..k + 1] == ys[..k + 1]
  {
    hide Next, Chain;
    if k == 0 {
      StartsAt(e, turn, db, q, args, xs);
      StartsAt(e, turn, db, q, args, ys);
    } else {
      ChainsAgree(e, turn, db, q, args, xs, ys, k - 1);
      NextOfPrefix(e, turn, args, xs, ys, k - 1);
      LeadsOn(e, turn, db, q, args, xs, k - 1);
      LeadsOn(e, turn, db, q, args, ys, k - 1);
      assert xs[..k + 1] == xs[..k] + [xs[k]] && ys[..k + 1] == ys[..k] + [ys[k]];
    }
  }

  lemma {:induction false} WholeIsLongest<Db(!new), S, V, R, E>(
    e: Engine<Db, S, V, R, E>, turn: Turn<Db, S, V>, db: Db, q: string, args: seq<V>, xs: seq<Stage<Db>>,
    ys: seq<Stage<Db>>)
    requires Whole(e, turn, db, q, args, xs) && Chain(e, turn, db, q, args, ys)
    ensures |ys| <= |xs|
  {
    hide Next, Chain;
    if |xs| < |ys| {
      StartsAt(e, turn, db, q, args, xs);
      ChainsAgree(e, turn, db, q, args, xs, ys, |xs| - 1);
      LeadsOn(e, turn, db, q, args, ys, |xs| - 1);
      NextOfPrefix(e, turn, args, xs, ys, |xs| - 1);
    }
  }

  /** And no other. */
  lemma {:induction false} OneChain<Db(!new), S, V, R, E>(
    e: Engine<Db, S, V, R, E>, turn: Turn<Db, S, V>, db: Db, q: string, args: seq<V>, xs: seq<Stage<Db>>,
    ys: seq<Stage<Db>>)
    requires Whole(e, turn, db, q, args, xs) && Whole(e, turn, db, q, args, ys)
    ensures xs == ys
  {
    hide Chain, Next;
    WholeIsLongest(e, turn, db, q, args, xs, ys);
    WholeIsLongest(e, turn, db, q, args, ys, xs);
    StartsAt(e, turn, db, q, args, xs);
    ChainsAgree(e, turn, db, q, args, xs, ys, |xs| - 1);
    assert xs[..|xs|] == xs && ys[..|ys|] == ys;
  }

  // ---------- Exec follows the chain ----------

  /** The calls of the first `k` stages: one for each that has a statement and the arguments it takes. */
  function CallsOf<Db, S, V, R, E>(
    e: Engine<Db, S, V, R, E>, args: seq<V>, stages: seq<Stage<Db>>, k: nat): seq<Call<S, V>>
    requires k <= |stages|
  {
    if k == 0 then []
    else
      var p, from, to := Prep(e, stages[k - 1]), Taken(e, stages, k - 1), Taken(e, stages, k);
      CallsOf(e, args, stages, k - 1) +
      if p.Good? && p.stmt.Some? && to <= |args| then [Call(p.stmt.value, args[from..to])] else []
  }

  /** Having come to stage `i`, the loop has made the calls before it and goes on from there. */
  lemma {:induction false} ExecReaches<Db(!new), S, V, R, E>(
    e: Engine<Db, S, V, R, E>, db: Db, q: string, args: seq<V>, stages: seq<Stage<Db>>, i: nat)
    requires Shrinks(e) && Chain(e, Runs(e), db, q, args, stages) && i < |stages|
    ensures Taken(e, stages, i) <= |args|
    ensures ExecLoop(e, db, q, args) ==
            Behind(CallsOf(e, args, stages, i), ExecLoop(e, stages[i].db, stages[i].text, args[Taken(e, stages, i)..]))
  {
    hide Chain, ExecLoop, Behind;
    TakenWhenReached(e, Runs(e), db, q, args, stages, i);
    if i == 0 {
      StartsAt(e, Runs(e), db, q, args, stages);
      assert args[0..] == args;
      BehindNothing(ExecLoop(e, db, q, args));
    } else {
      ExecReaches(e, db, q, args, stages, i - 1);
      LeadsOn(e, Runs(e), db, q, args, stages, i - 1);
      var from, to := Taken(e, stages, i - 1), Taken(e, stages, i);
      var left, p := args[from..], Prep(e, stages[i - 1]);
      assert left[..p.inputs] == args[from..to] && left[p.inputs..] == args[to..];
      assert CallsOf(e, args, stages, i - 1) + [] == CallsOf(e, args, stages, i - 1);
      ExecRound(e, stages[i - 1].db, stages[i - 1].text, left, CallsOf(e, args, stages, i - 1));
    }
  }

  lemma {:induction false} OneMoreStage<Db, S, V, R, E>(e: Engine<Db, S, V, R, E>, args: seq<V>, stages: seq<Stage<Db>>)
    requires stages != []
    ensures var n := |stages| - 1;
            var p, from, to := Prep(e, stages[n]), Taken(e, stages, n), Taken(e, stages, |stages|);
            && to == from + Inputs(p)
            && CallsOf(e, args, stages, |stages|)
               == if p.Good? && p.stmt.Some? && to <= |args| then
                    CallsOf(e, args, stages, n) + [Call(p.stmt.value, args[from..to])]
                  else CallsOf(e, args, stages, n)
  {
    var before := CallsOf(e, args, stages, |stages| - 1);
    assert before + [] == before;
  }

  lemma {:induction false} SliceOfRest<T>(s: seq<T>, from: nat, n: nat)
    requires from + n <= |s|
    ensures s[from..][..n] == s[from..from + n] && s[from..][n..] == s[from + n..]
  {
  }

  /** A whole chain ends at an empty tail, if its last stage passes. */
  lemma {:induction false} EndsThere<Db(!new), S, V, R, E>(
    e: Engine<Db, S, V, R, E>, turn: Turn<Db, S, V>, db: Db, q: string, args: seq<V>, stages: seq<Stage<Db>>)
    requires Whole(e, turn, db, q, args, stages)
    ensures stages != []
    ensures var n := |stages| - 1;
            var p, last, from, to := Prep(e, stages[n]), stages[n].db, Taken(e, stages, n), Taken(e, stages, n + 1);
            p.Good? && from <= to <= |args| && p.tail != "" ==>
              p.stmt.Some? && turn(last, p.stmt.value, args[from..to]).None?
  {
  }

  lemma {:induction false} RunEndsThere<Db(!new), S, V, R, E>(
    e: Engine<Db, S, V, R, E>, db: Db, q: string, args: seq<V>, stages: seq<Stage<Db>>)
    requires Whole(e, Runs(e), db, q, args, stages)
    ensures stages != []
    ensures var n := |stages| - 1;
            var p, last, from, to := Prep(e, stages[n]), stages[n].db, Taken(e, stages, n), Taken(e, stages, n + 1);
            p.Good? && from <= to <= |args| && p.tail != "" ==>
              p.stmt.Some? && e.run(last, p.stmt.value, args[from..to]).1.Err?
  {
    hide Chain, Next, Taken, Passed;
    EndsThere(e, Runs(e), db, q, args, stages);
  }

  /** The last round starts from the calls before the last stage and the arguments they leave. */
  lemma {:induction false} LastRound<Db(!new), S, V, R, E>(
    e: Engine<Db, S, V, R, E>, db: Db, q: string, args: seq<V>, stages: seq<Stage<Db>>)
    requires Shrinks(e) && Whole(e, Runs(e), db, q, args, stages)
    ensures stages != []
    ensures var n, ending := |stages| - 1, ExecLoop(e, db, q, args);
            var p, last, from := Prep(e, stages[n]), stages[n].db, Taken(e, stages, n);
            var before := CallsOf(e, args, stages, n);
            && from <= |args| && (p.Good? && p.stmt.None? ==> p.inputs == 0)
            && if p.Bad? then ending == Ending(last, Err(Reported(p.error)), before, args[from..], 0)
               else if p.stmt.None? then ending == Ending(last, Ok(None), before, args[from..], 0)
               else if Short(e, args, stages) then
                 ending == Ending(last, Err(NotEnoughArgs(p.inputs, |args| - from)), before, args[from..], 1)
               else
                 var to := from + p.inputs;
                 var ran := e.run(last, p.stmt.value, args[from..to]);
                 var result := if ran.1.Ok? then Ok(Some(ran.1.value)) else Err(Reported(ran.1.error));
                 ending == Ending(ran.0, result, before + [Call(p.stmt.value, args[from..to])], args[to..], 0)
  {
    hide Chain, Next, Shrinks, ExecLoop, Behind, CallsOf, Taken, Runs;
    RunEndsThere(e, db, q, args, stages);
    OneMoreStage(e, args, stages);
    var n := |stages| - 1;
    ExecReaches(e, db, q, args, stages, n);
    var p, from := Prep(e, stages[n]), Taken(e, stages, n);
    var left := args[from..];
    ExecRound(e, stages[n].db, stages[n].text, left, CallsOf(e, args, stages, n));
    if p.Good? && p.inputs <= |left| {
      SliceOfRest(args, from, p.inputs);
    }
  }

  lemma {:induction false} LoopFollowsChain<Db(!new), S, V, R, E>(
    e: Engine<Db, S, V, R, E>, db: Db, q: string, args: seq<V>, stages: seq<Stage<Db>>)
    requires Shrinks(e) && Whole(e, Runs(e), db, q, args, stages)
    ensures stages != []
    ensures var n, ending := |stages| - 1, ExecLoop(e, db, q, args);
            var p, last, from := Prep(e, stages[n]), stages[n].db, Taken(e, stages, n);
            && from <= |args|
            && ending.calls == CallsOf(e, args, stages, |stages|)
            && (ending.result.Ok? <==> Complete(e, Runs(e), args, stages))
            && if p.Bad? then ending.result == Err(Reported(p.error)) && ending.db == last
               else if Short(e, args, stages) then
                 ending.result == Err(NotEnoughArgs(p.inputs, |args| - from)) && ending.db == last
               else if p.stmt.None? then ending.result == Ok(None) && ending.db == last
               else
                 var ran := e.run(last, p.stmt.value, args[from..from + p.inputs]);
                 && ending.db == ran.0
                 && ending.result == if ran.1.Ok? then Ok(Some(ran.1.value)) else Err(Reported(ran.1.error))
  {
    hide Chain, ExecLoop, CallsOf, Taken, Shrinks;
    LastRound(e, db, q, args, stages);
    OneMoreStage(e, args, stages);
  }

  lemma {:induction false} WhatIsLeft<Db(!new), S, V, R, E>(
    e: Engine<Db, S, V, R, E>, db: Db, q: string, args: seq<V>, stages: seq<Stage<Db>>)
    requires Shrinks(e) && Whole(e, Runs(e), db, q, args, stages)
    ensures stages != []
    ensures var n := if Short(e, args, stages) then |stages| - 1 else |stages|;
            var ending, used := ExecLoop(e, db, q, args), Taken(e, stages, n);
            && used <= |args| && ending.left == args[used..] && ending.calls == CallsOf(e, args, stages, n)
            && ending.leaked == (if Short(e, args, stages) then 1 else 0)
            && (ending.result.Err? && ending.result.error.NotEnoughArgs? <==> Short(e, args, stages))
  {
    hide Whole, Shrinks, Prep, ExecLoop, CallsOf, Taken;
    LastRound(e, db, q, args, stages);
    OneMoreStage(e, args, stages);
  }

  // ---------- Exec with or without arguments ----------

  /** The engine on which no statement needs arguments: what has a parameter is run with nothing bound. */
  function Unbound<Db, S, V, R, E>(e: Engine<Db, S, V, R, E>): Engine<Db, S, V, R, E> {
    e.(prepare := (db, q) => var p := e.prepare(db, q); if p.Good? then p.(inputs := 0) else p)
  }

  /** The engine as Exec uses it: without arguments the script goes to sqlite3_exec. */
  function AsUsed<Db, S, V, R, E>(e: Engine<Db, S, V, R, E>, args: seq<V>): Engine<Db, S, V, R, E> {
    if args == [] then Unbound(e) else e
  }

  lemma {:induction false} UnboundShrinks<Db(!new), S, V, R, E>(e: Engine<Db, S, V, R, E>)
    requires Shrinks(e)
    ensures Shrinks(Unbound(e))
  {
    forall db, q | Unbound(e).prepare(db, q).Good?
      ensures Unbound(e).prepare(db, q).tail == "" || |Unbound(e).prepare(db, q).tail| < |q|
    {
      assert e.prepare(db, q).Good?;
    }
  }

  /** sqlite3_exec does what the loop does where no statement needs arguments. */
  lemma {:induction false} ScriptIsUnboundLoop<Db(!new), S, V, R, E>(e: Engine<Db, S, V, R, E>, db: Db, q: string)
    requires Shrinks(e) && Shrinks(Unbound(e))
    ensures var ending := ExecLoop(Unbound(e), db, q, []);
            if ending.result.Ok? then ScriptLoop(e, db, q) == (ending.db, None)
            else
              && ending.result.error.Reported?
              && ScriptLoop(e, db, q) == (ending.db, Some(ending.result.error.error))
    decreases |q|
  {
    var p := e.prepare(db, q);
    var none: seq<V> := [];
    assert none[..0] == none && none[0..] == none;
    if p.Good? && p.tail != "" {
      if p.stmt.None? {
        ScriptIsUnboundLoop(e, db, p.tail);
      } else {
        ScriptIsUnboundLoop(e, e.run(db, p.stmt.value, none).0, p.tail);
      }
    }
  }

  /** Exec has the effect of the loop on the engine as it uses it. */
  lemma {:induction false} ExecFollowsLoop<Db(!new), S, V, R, E>(
    e: Engine<Db, S, V, R, E>, db: Db, q: string, args: seq<V>)
    requires Shrinks(e) && (args == [] ==> RunsScripts(e))
    ensures Shrinks(AsUsed(e, args))
    ensures SameEffect(ExecLoop(AsUsed(e, args), db, q, args), ExecEnding(e, db, q, args))
    ensures args != [] ==> ExecEnding(e, db, q, args) == ExecLoop(e, db, q, args)
    ensures args == [] ==> ExecEnding(e, db, q, args).calls == [] && ExecEnding(e, db, q, args).left == []
    ensures args == [] ==> ExecEnding(e, db, q, args).leaked == 0
    ensures args == [] && ExecEnding(e, db, q, args).result.Ok? ==>
              e.script(db, q).1.Ok? && ExecEnding(e, db, q, args).result == Ok(Some(e.script(db, q).1.value))
  {
    UnboundShrinks(e);
    if args == [] {
      hide ExecLoop, ScriptLoop, Shrinks, Unbound;
      ScriptIsUnboundLoop(e, db, q);
      var ran := e.script(db, q);
      assert (ran.0, if ran.1.Ok? then None else Some(ran.1.error)) == ScriptLoop(e, db, q);
    }
  }

  /**
   * The calls are those of the statements of the chain, in order, none skipped: all that were
   * passed, and the last one if it had its arguments and failed. Exec succeeds if and only if the
   * chain is complete; otherwise the last stage tells the error. Without arguments the same
   * statements run inside SQLite, as if none of them had a parameter.
   */
  lemma {:induction false} ExactlyEarlierStatementsRan<Db(!new), S, V, R, E>(
    e: Engine<Db, S, V, R, E>, db: Db, q: string, args: seq<V>, stages: seq<Stage<Db>>)
    requires Shrinks(e) && (args == [] ==> RunsScripts(e))
    requires Whole(AsUsed(e, args), Runs(AsUsed(e, args)), db, q, args, stages)
    ensures stages != []
    ensures var u, n, ending := AsUsed(e, args), |stages| - 1, ExecEnding(e, db, q, args);
            var p, last, from := Prep(u, stages[n]), stages[n].db, Taken(u, stages, n);
            && from <= |args|
            && ending.calls == (if args == [] then [] else CallsOf(e, args, stages, |stages|))
            && (ending.result.Ok? <==> Complete(u, Runs(u), args, stages))
            && if p.Bad? then ending.result == Err(Reported(p.error)) && ending.db == last
               else if Short(u, args, stages) then
                 ending.result == Err(NotEnoughArgs(p.inputs, |args| - from)) && ending.db == last
               else if p.stmt.None? then
                 ending.result.Ok? && ending.db == last && (args != [] ==> ending.result == Ok(None))
               else
                 var ran := e.run(last, p.stmt.value, args[from..from + p.inputs]);
                 && ending.db == ran.0
                 && if ran.1.Err? then ending.result == Err(Reported(ran.1.error))
                    else ending.result.Ok? && (args != [] ==> ending.result == Ok(Some(ran.1.value)))
    ensures args == [] && ExecEnding(e, db, q, args).result.Ok? ==>
              e.script(db, q).1.Ok? && ExecEnding(e, db, q, args).result == Ok(Some(e.script(db, q).1.value))
  {
    var u := AsUsed(e, args);
    assert u.run == e.run;
    hide ExecLoop, ExecEnding, Shrinks, Whole, Taken, Prep, CallsOf, Complete, Short, RunsScripts, AsUsed;
    ExecFollowsLoop(e, db, q, args);
    LoopFollowsChain(u, db, q, args, stages);
  }

  /** How many of the first `k` stages have a statement. */
  function Statements<Db, S, V, R, E>(e: Engine<Db, S, V, R, E>, stages: seq<Stage<Db>>, k: nat): nat
    requires k <= |stages|
  {
    if k == 0 then 0
    else Statements(e, stages, k - 1) + var p := Prep(e, stages[k - 1]); if p.Good? && p.stmt.Some? then 1 else 0
  }

  lemma {:induction false} CallOfStage<Db, S, V, R, E>(
    e: Engine<Db, S, V, R, E>, args: seq<V>, stages: seq<Stage<Db>>, k: nat, i: nat)
    requires k <= |stages| && Taken(e, stages, k) <= |args|
    ensures |CallsOf(e, args, stages, k)| == Statements(e, stages, k)
    ensures i < k && Prep(e, stages[i]).Good? && Prep(e, stages[i]).stmt.Some? ==>
              && Statements(e, stages, i) < Statements(e, stages, k)
              && Taken(e, stages, i + 1) <= |args|
              && CallsOf(e, args, stages, k)[Statements(e, stages, i)]
                 == Call(Prep(e, stages[i]).stmt.value, args[Taken(e, stages, i)..Taken(e, stages, i + 1)])
  {
    if k > 0 {
      CallOfStage(e, args, stages, k - 1, i);
    }
  }

  /**
   * The statement of stage `i` is called once, in its turn, with as many arguments as it has
   * parameters, from the sum of the earlier parameter counts on. Without arguments the driver
   * itself calls none.
   */
  lemma {:induction false} CallTakesItsSlice<Db(!new), S, V, R, E>(
    e: Engine<Db, S, V, R, E>, db: Db, q: string, args: seq<V>, stages: seq<Stage<Db>>, i: nat)
    requires Shrinks(e) && Whole(e, Runs(e), db, q, args, stages)
    requires i < |stages| && Prep(e, stages[i]).Good? && Prep(e, stages[i]).stmt.Some?
    requires Taken(e, stages, i + 1) <= |args|
    ensures var p, k, from := Prep(e, stages[i]), Statements(e, stages, i), Taken(e, stages, i);
            var calls := ExecEnding(e, db, q, args).calls;
            if args == [] then calls == []
            else
              && k < |calls| == Statements(e, stages, if Short(e, args, stages) then |stages| - 1 else |stages|)
              && from + p.inputs <= |args| && calls[k] == Call(p.stmt.value, args[from..from + p.inputs])
  {
    hide ExecLoop, Chain, Next;
    WhatIsLeft(e, db, q, args, stages);
    if Short(e, args, stages) {
      CallOfStage(e, args, stages, |stages| - 1, i);
    } else {
      CallOfStage(e, args, stages, |stages|, i);
    }
  }

  function Flat<S, V>(calls: seq<Call<S, V>>): seq<V> {
    if calls == [] then [] else Flat(calls[..|calls| - 1]) + calls[|calls| - 1].args
  }

  lemma {:induction false} FlatOfMore<S, V>(calls: seq<Call<S, V>>, call: Call<S, V>)
    ensures Flat(calls + [call]) == Flat(calls) + call.args
  {
    assert (calls + [call])[..|calls|] == calls;
  }

  lemma {:induction false} CallsShareArguments<Db(!new), S, V, R, E>(
    e: Engine<Db, S, V, R, E>, args: seq<V>, stages: seq<Stage<Db>>, k: nat)
    requires Shrinks(e) && k <= |stages| && Taken(e, stages, k) <= |args|
    ensures Flat(CallsOf(e, args, stages, k)) == args[..Taken(e, stages, k)]
  {
    if k > 0 {
      hide Flat;
      CallsShareArguments(e, args, stages, k - 1);
      var before, p := CallsOf(e, args, stages, k - 1), Prep(e, stages[k - 1]);
      var from, to := Taken(e, stages, k - 1), Taken(e, stages, k);
      if p.Good? && p.stmt.Some? {
        FlatOfMore(before, Call(p.stmt.value, args[from..to]));
        assert args[..from] + args[from..to] == args[..to];
      } else {
        assert before + [] == before;
      }
    }
  }

  /** The calls share out the arguments in order, as many as the statements had parameters; the others are left. */
  lemma {:induction false} ArgumentsInOrder<Db(!new), S, V, R, E>(
    e: Engine<Db, S, V, R, E>, db: Db, q: string, args: seq<V>, stages: seq<Stage<Db>>)
    requires Shrinks(e) && Whole(e, Runs(e), db, q, args, stages)
    ensures var ending := ExecEnding(e, db, q, args);
            var used := Taken(e, stages, if Short(e, args, stages) then |stages| - 1 else |stages|);
            used <= |args| && Flat(ending.calls) == args[..used] && ending.left == args[used..]
  {
    hide ExecLoop, Chain, Next;
    WhatIsLeft(e, db, q, args, stages);
    if Short(e, args, stages) {
      CallsShareArguments(e, args, stages, |stages| - 1);
    } else {
      CallsShareArguments(e, args, stages, |stages|);
    }
  }

  // ---------- Query follows the chain ----------

  lemma {:induction false} QueryReaches<Db(!new), S, V, R, E>(
    e: Engine<Db, S, V, R, E>, db: Db, q: string, args: seq<V>, stages: seq<Stage<Db>>, i: nat)
    requires Shrinks(e) && Chain(e, Binds(e), db, q, args, stages) && i < |stages|
    ensures Taken(e, stages, i) <= |args| && stages[i].db == db
    ensures QueryLoop(e, db, q, args) == QueryLoop(e, db, stages[i].text, args[Taken(e, stages, i)..])
  {
    hide Chain;
    TakenWhenReached(e, Binds(e), db, q, args, stages, i);
    if i == 0 {
      StartsAt(e, Binds(e), db, q, args, stages);
      assert args[0..] == args;
    } else {
      QueryReaches(e, db, q, args, stages, i - 1);
      LeadsOn(e, Binds(e), db, q, args, stages, i - 1);
      var from, to := Taken(e, stages, i - 1), Taken(e, stages, i);
      var left, p := args[from..], Prep(e, stages[i - 1]);
      assert left[..p.inputs] == args[from..to] && left[p.inputs..] == args[to..];
    }
  }

  /** The last round of Query, from the arguments left to the last stage. */
  lemma {:induction false} LastQueryRound<Db(!new), S, V, R, E>(
    e: Engine<Db, S, V, R, E>, db: Db, q: string, args: seq<V>, stages: seq<Stage<Db>>)
    requires Shrinks(e) && Whole(e, Binds(e), db, q, args, stages)
    ensures stages != []
    ensures var n, ending := |stages| - 1, QueryLoop(e, db, q, args);
            var p, from, to := Prep(e, stages[n]), Taken(e, stages, n), Taken(e, stages, |stages|);
            && from <= |args| && stages[n].db == db && to == from + Inputs(p)
            && if p.Bad? then ending == QueryEnding(Err(Reported(p.error)), args[from..], 0)
               else if |args| < to then
                 ending == QueryEnding(Err(NotEnoughArgs(p.inputs, |args| - from)), args[from..], 1)
               else if p.stmt.Some? && e.bind(p.stmt.value, args[from..to]).Some? then
                 ending == QueryEnding(Err(Reported(e.bind(p.stmt.value, args[from..to]).value)), args[from..], 0)
               else ending == QueryEnding(Ok(Rows(p.stmt, args[from..to])), args[to..], 0) && p.tail == ""
  {
    hide Chain, Next, Taken, QueryLoop;
    EndsThere(e, Binds(e), db, q, args, stages);
    OneMoreStage(e, args, stages);
    var n := |stages| - 1;
    QueryReaches(e, db, q, args, stages, n);
    var p, from, to := Prep(e, stages[n]), Taken(e, stages, n), Taken(e, stages, |stages|);
    var left := args[from..];
    QueryRound(e, db, stages[n].text, left);
    if p.Good? && p.inputs <= |left| {
      SliceOfRest(args, from, p.inputs);
    }
  }

  /**
   * Query succeeds if and only if the chain is complete, with the rows of its last statement on
   * the arguments from the sum of the earlier parameter counts on; otherwise the last stage tells
   * the error.
   */
  lemma {:induction false} QueryBindsEachInTurn<Db(!new), S, V, R, E>(
    e: Engine<Db, S, V, R, E>, db: Db, q: string, args: seq<V>, stages: seq<Stage<Db>>)
    requires Shrinks(e) && Whole(e, Binds(e), db, q, args, stages)
    ensures stages != []
    ensures var n, ending := |stages| - 1, QueryLoop(e, db, q, args);
            var p, from := Prep(e, stages[n]), Taken(e, stages, n);
            && from <= |args| && stages[n].db == db
            && (ending.result.Ok? <==> Complete(e, Binds(e), args, stages))
            && ending.leaked == (if Short(e, args, stages) then 1 else 0)
            && (ending.result.Err? && ending.result.error.NotEnoughArgs? <==> Short(e, args, stages))
            && if p.Bad? then ending.result == Err(Reported(p.error))
               else if Short(e, args, stages) then ending.result == Err(NotEnoughArgs(p.inputs, |args| - from))
               else
                 var given := args[from..from + p.inputs];
                 var bound := if p.stmt.Some? then e.bind(p.stmt.value, given) else None;
                 ending.result == if bound.Some? then Err(Reported(bound.value)) else Ok(Rows(p.stmt, given))
  {
    hide Whole, Taken, QueryLoop, Shrinks, Prep;
    LastQueryRound(e, db, q, args, stages);
  }

  // ---------- When a handle stays open ----------

  lemma {:induction false} SameTurns<Db(!new), S, V, R, E>(
    e: Engine<Db, S, V, R, E>, turn: Turn<Db, S, V>, db: Db, q: string, args: seq<V>, extra: seq<V>,
    stages: seq<Stage<Db>>)
    requires Taken(e, stages, |stages|) <= |args|
    ensures Whole(e, turn, db, q, args, stages) <==> Whole(e, turn, db, q, args + extra, stages)
  {
    hide Taken;
    forall i | 0 <= i < |stages|
      ensures Next(e, turn, args, stages, i) == Next(e, turn, args + extra, stages, i)
    {
      TakenGrows(e, stages, i + 1, |stages|);
      TakenGrows(e, stages, i, i + 1);
      var from, to := Taken(e, stages, i), Taken(e, stages, i + 1);
      assert (args + extra)[from..to] == args[from..to];
    }
  }

  /** Arguments are short exactly if they are fewer than the parameters of all that enough of them would reach. */
  lemma {:induction false} ShortIffFewer<Db(!new), S, V, R, E>(
    e: Engine<Db, S, V, R, E>, turn: Turn<Db, S, V>, db: Db, q: string, args: seq<V>, extra: seq<V>,
    stages: seq<Stage<Db>>, whole: seq<Stage<Db>>)
    requires Whole(e, turn, db, q, args, stages)
    requires Whole(e, turn, db, q, args + extra, whole) && !Short(e, args + extra, whole)
    ensures Short(e, args, stages) <==> |args| < Taken(e, whole, |whole|)
  {
    hide Whole, Taken;
    if Taken(e, whole, |whole|) <= |args| {
      SameTurns(e, turn, db, q, args, extra, whole);
      OneChain(e, turn, db, q, args, stages, whole);
    }
    if !Short(e, args, stages) {
      SameTurns(e, turn, db, q, args, extra, stages);
      OneChain(e, turn, db, q, args + extra, stages, whole);
    }
  }

  lemma {:induction false} ChainWithMore<Db(!new), S, V, R, E>(
    e: Engine<Db, S, V, R, E>, turn: Turn<Db, S, V>, db: Db, q: string, args: seq<V>, extra: seq<V>,
    stages: seq<Stage<Db>>)
    requires Chain(e, turn, db, q, args, stages)
    ensures Chain(e, turn, db, q, args + extra, stages)
  {
    hide Taken;
    forall i | 0 <= i < |stages| - 1 ensures Next(e, turn, args + extra, stages, i) == Some(stages[i + 1]) {
      assert Next(e, turn, args, stages, i) == Some(stages[i + 1]);
      TakenGrows(e, stages, i, i + 1);
      var from, to := Taken(e, stages, i), Taken(e, stages, i + 1);
      assert (args + extra)[from..to] == args[from..to];
    }
  }

  lemma {:induction false} EnoughFrom<Db(!new), S, V, R, E>(
    e: Engine<Db, S, V, R, E>, turn: Turn<Db, S, V>, db: Db, q: string, args: seq<V>, v: V, stages: seq<Stage<Db>>)
    returns (extra: seq<V>, whole: seq<Stage<Db>>)
    requires Shrinks(e) && Chain(e, turn, db, q, args, stages)
    ensures Whole(e, turn, db, q, args + extra, whole) && !Short(e, args + extra, whole)
    decreases |stages[|stages| - 1].text|
  {
    var needed := Taken(e, stages, |stages|);
    extra := if |args| < needed then seq(needed - |args|, i => v) else [];
    var more := args + extra;
    whole := stages;
    ChainWithMore(e, turn, db, q, args, extra, stages);
    var next := Next(e, turn, more, stages, |stages| - 1);
    if next.Some? {
      ChainGoesOn(e, turn, db, q, more, stages, next.value);
      var rest: seq<V>;
      rest, whole := EnoughFrom(e, turn, db, q, more, v, stages + [next.value]);
      assert args + (extra + rest) == more + rest;
      extra := extra + rest;
    }
  }

  /** Any arguments can be continued to enough. */
  lemma {:induction false} EnoughArguments<Db(!new), S, V, R, E>(
    e: Engine<Db, S, V, R, E>, turn: Turn<Db, S, V>, db: Db, q: string, args: seq<V>, v: V)
    returns (extra: seq<V>, whole: seq<Stage<Db>>)
    requires Shrinks(e)
    ensures Whole(e, turn, db, q, args + extra, whole) && !Short(e, args + extra, whole)
  {
    extra, whole := EnoughFrom(e, turn, db, q, args, v, [Stage(db, q)]);
  }

  /**
   * Exec leaves a handle open, and reports that arguments are missing, if and only if it is given
   * some but fewer than the statements have parameters, counting all that are reached when there
   * are enough. Given none it does neither.
   */
  lemma {:induction false} ExecLeaksIffTooFew<Db(!new), S, V, R, E>(
    e: Engine<Db, S, V, R, E>, db: Db, q: string, args: seq<V>, extra: seq<V>, whole: seq<Stage<Db>>)
    requires Shrinks(e) && Whole(e, Runs(e), db, q, args + extra, whole) && !Short(e, args + extra, whole)
    ensures var ending, tooFew := ExecEnding(e, db, q, args), args != [] && |args| < Taken(e, whole, |whole|);
            && ending.leaked == (if tooFew then 1 else 0)
            && (ending.result.Err? && ending.result.error.NotEnoughArgs? <==> tooFew)
  {
    hide Whole, ExecLoop, Taken, Short;
    var stages := ChainOf(e, Runs(e), db, q, args);
    WhatIsLeft(e, db, q, args, stages);
    ShortIffFewer(e, Runs(e), db, q, args, extra, stages, whole);
  }

  /** With no arguments at all a statement that has a parameter runs, and Exec succeeds. */
  lemma {:induction false} MissingArgumentsPass<Db(!new), S, V, R, E>(
    e: Engine<Db, S, V, R, E>, db: Db, q: string, s: S, n: nat)
    requires Shrinks(e) && RunsScripts(e)
    requires e.prepare(db, q) == Good(Some(s), n, "") && e.run(db, s, []).1.Ok?
    ensures ExecEnding(e, db, q, []).result.Ok? && ExecEnding(e, db, q, []).db == e.run(db, s, []).0
  {
    assert e.script(db, q).0 == ScriptLoop(e, db, q).0;
  }

  /** Query does both whenever there are too few, also if there are none. */
  lemma {:induction false} QueryLeaksIffTooFew<Db(!new), S, V, R, E>(
    e: Engine<Db, S, V, R, E>, db: Db, q: string, args: seq<V>, extra: seq<V>, whole: seq<Stage<Db>>)
    requires Shrinks(e) && Whole(e, Binds(e), db, q, args + extra, whole) && !Short(e, args + extra, whole)
    ensures var ending, tooFew := QueryLoop(e, db, q, args), |args| < Taken(e, whole, |whole|);
            && ending.leaked == (if tooFew then 1 else 0)
            && (ending.result.Err? && ending.result.error.NotEnoughArgs? <==> tooFew)
  {
    hide Whole, QueryLoop, Taken, Short;
    var stages := ChainOf(e, Binds(e), db, q, args);
    QueryBindsEachInTurn(e, db, q, args, stages);
    ShortIffFewer(e, Binds(e), db, q, args, extra, stages, whole);
  }
}
