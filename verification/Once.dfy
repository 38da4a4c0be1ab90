/**
 One-time initialisation: any number of threads racing to get, set or initialise a cell,
 every access to the state word a step of its own.
 */
module Once {
  import opened Wrappers

  datatype Word = Incomplete | Poisoned | Running | Complete

  // What an initialiser does when it is run.
  datatype Init<T> = Value(v: T) | Error | Panics

  // get, or get_or_try_init with its initialiser; set(v) is the latter with Value(v).
  datatype Op<T> = Get | Initialise(init: Init<T>)

  datatype Thread<T> =
    | Fresh                             // not started
    | Fast(op: Op<T>)                   // about to look for a completed cell
    | Slow(op: Op<T>)                   // found none; about to look again
    | Entering(op: Op<T>)               // found none again; about to load the word
    | Seen(op: Op<T>, w: Word)          // in the loop, having last seen w
    | Owner(op: Op<T>)                  // won the exchange; initialiser not yet run
    | Closing(op: Op<T>, to: Word)      // initialiser run; state word not yet set
    | Reading(op: Op<T>, ran: bool)     // about to read the cell
    | Returned(op: Op<T>, v: T, ran: bool)
    | ReturnedNone                      // get found nothing
    | Failed                            // own initialiser failed or panicked

  datatype State<T> = State(
    word: Word,
    cell: Option<T>,
    threads: map<nat, Thread<T>>,
    runs: nat,                          // initialisers run so far
    winner: Option<nat>)                // the thread whose value completed the cell

  datatype Step<T> =
    | Begin(t: nat, op: Op<T>)
    | FastTest(t: nat)
    | SlowTest(t: nat)
    | Load(t: nat)
    | Exchange(t: nat)                  // or reload, while another thread runs
    | RunInit(t: nat)
    | Close(t: nat)
    | ReadCell(t: nat)

  function At<T>(s: State<T>, t: nat): (th: Thread<T>) {
    if t in s.threads then s.threads[t] else Fresh
  }

  predicate Enabled<T>(s: State<T>, step: Step<T>) {
    var th := At(s, step.t);
    match step
    case Begin(_, _) => th.Fresh?
    case FastTest(_) => th.Fast?
    case SlowTest(_) => th.Slow?
    case Load(_) => th.Entering?
    case Exchange(_) => th.Seen?
    case RunInit(_) => th.Owner?
    case Close(_) => th.Closing?
    case ReadCell(_) => th.Reading? && s.cell.Some?
  }

  function Goto<T>(s: State<T>, t: nat, th: Thread<T>): (s': State<T>) {
    s.(threads := s.threads[t := th])
  }

  function Do<T>(s: State<T>, step: Step<T>): (s': State<T>)
    requires Enabled(s, step)
  {
    var t, th := step.t, At(s, step.t);
    match step
    case Begin(_, op) => Goto(s, t, Fast(op))
    case FastTest(_) =>
      if s.word == Complete then Goto(s, t, Reading(th.op, false))
      else if th.op.Get? then Goto(s, t, ReturnedNone)
      else Goto(s, t, Slow(th.op))
    case SlowTest(_) =>
      if s.word == Complete then Goto(s, t, Reading(th.op, false)) else Goto(s, t, Entering(th.op))
    case Load(_) => Goto(s, t, Seen(th.op, s.word))
    case Exchange(_) =>
      if th.w == Complete then Goto(s, t, Reading(th.op, false))
      else if th.w == Running then Goto(s, t, Seen(th.op, s.word))
      else if s.word == th.w then Goto(s.(word := Running), t, Owner(th.op))
      else Goto(s, t, Seen(th.op, s.word))
    case RunInit(_) =>
      var s1 := s.(runs := s.runs + 1);
      if th.op.Initialise? && th.op.init.Value? then Goto(s1.(cell := Some(th.op.init.v)), t, Closing(th.op, Complete))
      else Goto(s1, t, Closing(th.op, Poisoned))
    case Close(_) =>
      if th.to == Complete then Goto(s.(word := Complete, winner := Some(t)), t, Reading(th.op, true))
      else Goto(s.(word := th.to), t, Failed)
    case ReadCell(_) => Goto(s, t, Returned(th.op, s.cell.value, th.ran))
  }

  // ---------------------------------------------------------------- invariant

  predicate Owns<T>(th: Thread<T>) {
    th.Owner? || th.Closing?
  }

  // The thread's own initialiser is what completed the cell.
  predicate Won<T>(th: Thread<T>) {
    (th.Reading? || th.Returned?) && th.ran
  }

  ghost predicate ThreadOk<T>(s: State<T>, t: nat, th: Thread<T>) {
    && (Owns(th) ==> s.word == Running && th.op.Initialise?)
    && (th.Closing? ==> th.to == Complete || th.to == Poisoned)
    && (th.Closing? && th.to == Complete ==> th.op.init.Value? && s.cell == Some(th.op.init.v))
    && (th.Slow? || th.Entering? || th.Seen? ==> th.op.Initialise?)
    && (th.Reading? || th.Returned? || (th.Seen? && th.w == Complete) ==> s.word == Complete)
    && (Won(th) <==> s.winner == Some(t))
    && (Won(th) ==> th.op.Initialise? && th.op.init.Value? && s.cell == Some(th.op.init.v))
    && (th.Returned? ==> s.cell == Some(th.v))
  }

  ghost predicate Inv<T>(s: State<T>) {
    && (s.word == Complete <==> s.winner.Some?)
    && (s.word == Complete ==> s.cell.Some?)
    && (forall t, u :: Owns(At(s, t)) && Owns(At(s, u)) ==> t == u)
    && (forall t :: ThreadOk(s, t, At(s, t)))
  }

  lemma StepInv<T>(s: State<T>, step: Step<T>)
    requires Inv(s) && Enabled(s, step)
    ensures Inv(Do(s, step))
  {
    var s', t := Do(s, step), step.t;
    assert ThreadOk(s, t, At(s, t));
    forall u ensures ThreadOk(s', u, At(s', u)) && (u != t && Owns(At(s', t)) ==> !Owns(At(s', u))) {
      assert ThreadOk(s, u, At(s, u));
      if u != t {
        OtherThread(s, step, u);
      }
    }
    forall u, v | Owns(At(s', u)) && Owns(At(s', v)) ensures u == v {
      if u != t && v != t {
        OtherThread(s, step, u);
        OtherThread(s, step, v);
      }
    }
  }

  lemma OtherThread<T>(s: State<T>, step: Step<T>, u: nat)
    requires Enabled(s, step) && u != step.t
    ensures At(Do(s, step), u) == At(s, u)
  {
  }

  // ---------------------------------------------------------------- whole runs

  function Start<T>(): (s: State<T>) {
    State(Incomplete, None, map[], 0, None)
  }

  ghost predicate Run<T>(s: State<T>, steps: seq<Step<T>>, s': State<T>)
    decreases |steps|
  {
    if steps == [] then s == s' else Enabled(s, steps[0]) && Run(Do(s, steps[0]), steps[1..], s')
  }

  lemma {:induction false} RunInv<T>(s: State<T>, steps: seq<Step<T>>, s': State<T>)
    requires Inv(s) && Run(s, steps, s')
    ensures Inv(s')
    ensures s.word == Complete ==> s'.word == Complete && s'.cell == s.cell && s'.winner == s.winner
    decreases |steps|
  {
    if steps != [] {
      StepInv(s, steps[0]);
      StepStable(s, steps[0]);
      hide Inv, Do, Enabled;
      RunInv(Do(s, steps[0]), steps[1..], s');
    }
  }

  lemma StepStable<T>(s: State<T>, step: Step<T>)
    requires Inv(s) && Enabled(s, step)
    ensures var s' := Do(s, step);
      s.word == Complete ==> s'.word == Complete && s'.cell == s.cell && s'.winner == s.winner
  {
    assert ThreadOk(s, step.t, At(s, step.t));
  }

  lemma StartInv<T>()
    ensures Inv(Start<T>())
  {
  }

  /** Completion is final: the state word, the value and the thread that supplied it never change again. */
  lemma CompleteIsStable<T>(steps: seq<Step<T>>, s: State<T>, more: seq<Step<T>>, s': State<T>)
    requires Run(Start(), steps, s) && s.word == Complete && Run(s, more, s')
    ensures s'.word == Complete && s'.cell == s.cell && s'.winner == s.winner
  {
    StartInv<T>();
    RunInv(Start(), steps, s);
    RunInv(s, more, s');
  }

  /** Whoever gets a value gets the same one, supplied by one initialiser; the guard's assertion holds. */
  lemma OneValue<T>(steps: seq<Step<T>>, s: State<T>, t: nat, u: nat)
    requires Run(Start(), steps, s)
    ensures At(s, t).Returned? && At(s, u).Returned? ==> At(s, t).v == At(s, u).v
    ensures Won(At(s, t)) && Won(At(s, u)) ==> t == u
    ensures At(s, t).Closing? ==> s.word == Running
    ensures At(s, t).Reading? ==> s.cell.Some?
  {
    StartInv<T>();
    RunInv(Start(), steps, s);
    assert ThreadOk(s, t, At(s, t)) && ThreadOk(s, u, At(s, u));
  }

  // A call of set that has returned.
  predicate Sets<T>(th: Thread<T>) {
    th.Returned? && th.op.Initialise? && th.op.init.Value?
  }

  // It returned Ok: its own closure took the value.
  predicate SetOk<T>(th: Thread<T>) {
    Sets(th) && th.ran
  }

  // A call of get that has returned.
  predicate Gets<T>(th: Thread<T>) {
    th.ReturnedNone? || (th.Returned? && th.op.Get?)
  }

  /** Of any number of set calls racing with each other and with gets, all of which have returned, exactly one
      returned Ok, and its value is the cell's. */
  lemma OneSetSucceeds<T>(steps: seq<Step<T>>, s: State<T>) returns (w: nat)
    requires Run(Start(), steps, s) && exists t <- s.threads :: Sets(s.threads[t])
    requires forall t <- s.threads :: Sets(s.threads[t]) || Gets(s.threads[t])
    ensures w in s.threads && SetOk(s.threads[w]) && s.cell == Some(s.threads[w].op.init.v)
    ensures forall t <- s.threads :: SetOk(s.threads[t]) ==> t == w
  {
    StartInv<T>();
    RunInv(Start(), steps, s);
    var t0 :| t0 in s.threads && Sets(s.threads[t0]);
    assert ThreadOk(s, t0, At(s, t0));
    w := s.winner.value;
    assert ThreadOk(s, w, At(s, w));
    forall t | t in s.threads ensures SetOk(s.threads[t]) ==> t == w {
      assert ThreadOk(s, t, At(s, t));
    }
  }

  // ---------------------------------------------------------------- lazy values

  predicate OnlyValues<T>(steps: seq<Step<T>>) {
    forall i :: 0 <= i < |steps| && steps[i].Begin? ==> steps[i].op.Initialise? && steps[i].op.init.Value?
  }

  predicate Calm<T>(s: State<T>, th: Thread<T>) {
    && (th.Fast? || th.Slow? || th.Entering? || th.Seen? || th.Owner? ==> th.op.Initialise? && th.op.init.Value?)
    && (th.Seen? ==> th.w != Poisoned)
    && (th.Owner? ==> s.runs == 0)
    && (th.Closing? ==> th.to == Complete)
  }

  ghost predicate LazyInv<T>(s: State<T>) {
    && s.word != Poisoned
    && (s.word == Incomplete ==> s.runs == 0)
    && forall t :: Calm(s, At(s, t))
  }

  lemma LazyStep<T>(s: State<T>, step: Step<T>)
    requires Inv(s) && LazyInv(s) && Enabled(s, step)
    requires step.Begin? ==> step.op.Initialise? && step.op.init.Value?
    ensures LazyInv(Do(s, step))
  {
    var s', t := Do(s, step), step.t;
    assert Calm(s, At(s, t));
    forall u ensures Calm(s', At(s', u)) {
      assert Calm(s, At(s, u));
      if u != t {
        OtherThread(s, step, u);
      }
    }
  }

  lemma {:induction false} LazyRun<T>(s: State<T>, steps: seq<Step<T>>, s': State<T>)
    requires Inv(s) && LazyInv(s) && Run(s, steps, s') && OnlyValues(steps)
    ensures LazyInv(s')
    decreases |steps|
  {
    if steps != [] {
      StepInv(s, steps[0]);
      LazyStep(s, steps[0]);
      hide Inv, LazyInv, Do, Enabled;
      LazyRun(Do(s, steps[0]), steps[1..], s');
    }
  }

  /** With initialisers that neither fail nor panic, one is run at most once: whoever runs it still finds it there. */
  lemma LazyNeverPoisoned<T>(steps: seq<Step<T>>, s: State<T>, t: nat)
    requires Run(Start(), steps, s) && OnlyValues(steps)
    ensures s.word != Poisoned
    ensures At(s, t).Owner? ==> s.runs == 0
  {
    StartInv<T>();
    LazyRun(Start(), steps, s);
    assert Calm(s, At(s, t));
  }

  // ---------------------------------------------------------------- calls that complete

  lemma RunFirst<T>(s: State<T>, step: Step<T>, steps: seq<Step<T>>, s': State<T>)
    requires Enabled(s, step) && Run(Do(s, step), steps, s')
    ensures Run(s, [step] + steps, s')
  {
    hide Do, Enabled;
    assert ([step] + steps)[1..] == steps;
  }

  // A call begun after completion looks, finds the cell complete and reads it.
  ghost predicate Late<T>(s: State<T>, th: Thread<T>) {
    || th.Fresh? || th.Fast? || (th.Reading? && !th.ran)
    || (th.Returned? && !th.ran && s.cell == Some(th.v))
  }

  lemma {:induction false} LateRun<T>(s: State<T>, steps: seq<Step<T>>, s': State<T>, t: nat)
    requires Inv(s) && s.word == Complete && Late(s, At(s, t)) && Run(s, steps, s')
    ensures s'.cell == s.cell && Late(s', At(s', t))
    decreases |steps|
  {
    if steps != [] {
      var u := Do(s, steps[0]);
      StepInv(s, steps[0]);
      StepStable(s, steps[0]);
      if steps[0].t != t {
        OtherThread(s, steps[0], t);
      }
      assert Late(u, At(u, t));
      hide Inv, Do, Enabled, Late;
      LateRun(u, steps[1..], s', t);
    }
  }

  /** Whatever call a thread begins once the cell is complete, it runs no initialiser, never comes back empty-handed,
      and comes back with the cell's value, */
  lemma CallAfterCompletion<T>(steps: seq<Step<T>>, s: State<T>, more: seq<Step<T>>, s': State<T>, t: nat)
    requires Run(Start(), steps, s) && s.word == Complete && At(s, t).Fresh? && Run(s, more, s')
    ensures var th := At(s', t);
      && !th.ReturnedNone? && !th.Failed? && !th.Owner? && !th.Closing?
      && (th.Returned? ==> s.cell == Some(th.v) && !th.ran)
  {
    StartInv<T>();
    RunInv(Start(), steps, s);
    LateRun(s, more, s', t);
  }

  /** in three steps. */
  lemma LateCallReturns<T>(s: State<T>, t: nat, op: Op<T>) returns (s': State<T>)
    requires s.word == Complete && s.cell.Some? && At(s, t).Fresh?
    ensures Run(s, [Begin(t, op), FastTest(t), ReadCell(t)], s')
    ensures At(s', t) == Returned(op, s.cell.value, false)
  {
    var s1 := Do(s, Begin(t, op));
    var s2 := Do(s1, FastTest(t));
    s' := Do(s2, ReadCell(t));
    var r1 := [ReadCell(t)];
    var r2 := [FastTest(t)] + r1;
    assert Run(s2, r1, s') by { assert r1 == [ReadCell(t)] + []; RunFirst(s2, ReadCell(t), [], s'); }
    RunFirst(s1, FastTest(t), r1, s');
    RunFirst(s, Begin(t, op), r2, s');
    assert [Begin(t, op), FastTest(t), ReadCell(t)] == [Begin(t, op)] + r2;
  }

  /** A get before completion finds nothing. */
  lemma EarlyGet<T>(s: State<T>, t: nat) returns (s': State<T>)
    requires s.word != Complete && At(s, t).Fresh?
    ensures Run(s, [Begin(t, Get), FastTest(t)], s') && At(s', t) == ReturnedNone
  {
    var s1 := Do(s, Begin(t, Get));
    s' := Do(s1, FastTest(t));
    var r1 := [FastTest(t)];
    assert Run(s1, r1, s') by { assert r1 == [FastTest(t)] + []; RunFirst(s1, FastTest(t), [], s'); }
    RunFirst(s, Begin(t, Get), r1, s');
    assert [Begin(t, Get), FastTest(t)] == [Begin(t, Get)] + r1;
  }

  // The way of a thread that meets no other to the exchange.
  lemma Enters<T>(s: State<T>, t: nat, op: Op<T>) returns (steps: seq<Step<T>>, s': State<T>)
    requires (s.word == Incomplete || s.word == Poisoned) && At(s, t).Fresh? && op.Initialise?
    ensures Run(s, steps, s') && At(s', t) == Owner(op) && s' == s.(word := Running, threads := s'.threads)
  {
    var s1 := Do(s, Begin(t, op));
    var s2 := Do(s1, FastTest(t));
    var s3 := Do(s2, SlowTest(t));
    var s4 := Do(s3, Load(t));
    s' := Do(s4, Exchange(t));
    var r1 := [Exchange(t)];
    var r2 := [Load(t)] + r1;
    var r3 := [SlowTest(t)] + r2;
    var r4 := [FastTest(t)] + r3;
    steps := [Begin(t, op)] + r4;
    assert Run(s4, r1, s') by { assert r1 == [Exchange(t)] + []; RunFirst(s4, Exchange(t), [], s'); }
    RunFirst(s3, Load(t), r1, s');
    RunFirst(s2, SlowTest(t), r2, s');
    RunFirst(s1, FastTest(t), r3, s');
    RunFirst(s, Begin(t, op), r4, s');
  }

  /** An owner runs its initialiser: a value completes the cell, a failure poisons it and leaves it to the next one. */
  lemma OwnerFinishes<T>(s: State<T>, t: nat, init: Init<T>) returns (steps: seq<Step<T>>, s': State<T>)
    requires At(s, t) == Owner(Initialise(init))
    ensures Run(s, steps, s') && s'.runs == s.runs + 1
    ensures init.Value? ==> s'.word == Complete && s'.cell == Some(init.v) && s'.winner == Some(t)
    ensures init.Value? ==> At(s', t) == Reading(Initialise(init), true)
    ensures !init.Value? ==> s'.word == Poisoned && s'.cell == s.cell && At(s', t) == Failed
  {
    var s1 := Do(s, RunInit(t));
    s' := Do(s1, Close(t));
    var r1 := [Close(t)];
    steps := [RunInit(t)] + r1;
    assert Run(s1, r1, s') by { assert r1 == [Close(t)] + []; RunFirst(s1, Close(t), [], s'); }
    RunFirst(s, RunInit(t), r1, s');
  }
}
