/**
 The bounded channel and its counting semaphore: any number of senders and receivers, each
 critical section and each sleep or wake-up a step of its own.
 */
module Channel {
  import opened Wrappers

  // Where a thread is.  A sleeping thread has released its lock in the same step.
  datatype Thread<T> =
    | Idle
    | AtSem(item: T)        // sending: about to take a slot
    | SemSleep(item: T)     // sending: asleep until a slot is posted
    | HasSlot(item: T)      // sending: slot taken, buffer not yet locked
    | Pushing(item: T)      // sending: holds the buffer lock
    | Notifying             // sending: item pushed, receivers not yet woken, holds the buffer lock
    | Leaving               // holds the buffer lock, about to release it
    | AtLock                // receiving: about to lock the buffer
    | Popping               // receiving: holds the buffer lock
    | BufSleep              // receiving: asleep until an item is pushed
    | Popped(item: T)       // receiving: item taken, slot not yet posted, holds the buffer lock

  datatype State<T> = State(
    max: nat,
    cnt: nat,                     // the semaphore's count of slots in use
    buf: seq<T>,
    lock: bool,                   // the buffer's lock
    threads: map<nat, Thread<T>>,
    pushed: seq<T>,               // every item ever pushed, and popped, in order
    popped: seq<T>)

  datatype Step<T> =
    | Send(t: nat, item: T)
    | TakeSlot(t: nat)
    | LockToPush(t: nat)
    | Push(t: nat)
    | Notify(t: nat)
    | Unlock(t: nat)
    | Receive(t: nat)
    | LockToPop(t: nat)
    | Pop(t: nat)
    | Post(t: nat)

  predicate HoldsLock<T>(th: Thread<T>) {
    th.Pushing? || th.Notifying? || th.Leaving? || th.Popping? || th.Popped?
  }

  // A slot is in use for an item that is on its way into or out of the buffer.
  predicate InTransit<T>(th: Thread<T>) {
    th.HasSlot? || th.Pushing? || th.Popped?
  }

  function At<T>(s: State<T>, t: nat): (th: Thread<T>) {
    if t in s.threads then s.threads[t] else Idle
  }

  predicate Enabled<T>(s: State<T>, step: Step<T>) {
    match step
    case Send(t, _) => At(s, t).Idle?
    case TakeSlot(t) => At(s, t).AtSem?
    case LockToPush(t) => At(s, t).HasSlot? && !s.lock
    case Push(t) => At(s, t).Pushing?
    case Notify(t) => At(s, t).Notifying?
    case Unlock(t) => At(s, t).Leaving?
    case Receive(t) => At(s, t).Idle?
    case LockToPop(t) => At(s, t).AtLock? && !s.lock
    case Pop(t) => At(s, t).Popping?
    case Post(t) => At(s, t).Popped?
  }

  function Goto<T>(s: State<T>, t: nat, th: Thread<T>): (s': State<T>) {
    s.(threads := s.threads[t := th])
  }

  function WakeReceivers<T>(threads: map<nat, Thread<T>>): (r: map<nat, Thread<T>>) {
    map t | t in threads :: if threads[t].BufSleep? then AtLock else threads[t]
  }

  function WakeSenders<T>(threads: map<nat, Thread<T>>): (r: map<nat, Thread<T>>) {
    map t | t in threads :: if threads[t].SemSleep? then AtSem(threads[t].item) else threads[t]
  }

  function Do<T>(s: State<T>, step: Step<T>): (s': State<T>)
    requires Enabled(s, step)
  {
    match step
    case Send(t, item) => Goto(s, t, AtSem(item))
    case TakeSlot(t) =>
      var item := At(s, t).item;
      if s.cnt >= s.max then Goto(s, t, SemSleep(item)) else Goto(s.(cnt := s.cnt + 1), t, HasSlot(item))
    case LockToPush(t) => Goto(s.(lock := true), t, Pushing(At(s, t).item))
    case Push(t) =>
      var item := At(s, t).item;
      Goto(s.(buf := s.buf + [item], pushed := s.pushed + [item]), t, Notifying)
    case Notify(t) => Goto(s.(threads := WakeReceivers(s.threads)), t, Leaving)
    case Unlock(t) => Goto(s.(lock := false), t, Idle)
    case Receive(t) => Goto(s, t, AtLock)
    case LockToPop(t) => Goto(s.(lock := true), t, Popping)
    case Pop(t) =>
      if s.buf == [] then Goto(s.(lock := false), t, BufSleep)
      else Goto(s.(buf := s.buf[1..], popped := s.popped + [s.buf[0]]), t, Popped(s.buf[0]))
    case Post(t) =>
      // the semaphore asserts that its count is positive
      Goto(s.(cnt := if s.cnt > 0 then s.cnt - 1 else 0, threads := WakeSenders(s.threads)), t, Leaving)
  }

  // ---------------------------------------------------------------- invariant

  function Transit<T>(threads: map<nat, Thread<T>>): (ts: set<nat>) {
    set t | t in threads && InTransit(threads[t])
  }

  function Holders<T>(threads: map<nat, Thread<T>>): (ts: set<nat>) {
    set t | t in threads && HoldsLock(threads[t])
  }

  // The counting part of the invariant.
  ghost predicate Counts<T>(s: State<T>) {
    // one lock holder at most
    && |Holders(s.threads)| == One(s.lock)
    // slots in use are buffered items and items in transit
    && s.cnt == |s.buf| + |Transit(s.threads)| && s.cnt <= s.max
  }

  // Nobody sleeps past a wake-up.
  ghost predicate Awake<T>(s: State<T>) {
    && (forall t <- s.threads :: s.threads[t].BufSleep? && s.buf != [] ==>
          exists u :: u in s.threads && s.threads[u].Notifying?)
    && (forall t <- s.threads :: s.threads[t].SemSleep? ==> s.cnt >= s.max)
  }

  ghost predicate Inv<T>(s: State<T>) {
    Counts(s) && Awake(s) && s.popped + s.buf == s.pushed
  }

  lemma GotoSets<T>(s: State<T>, t: nat, th: Thread<T>)
    ensures var ts := Goto(s, t, th).threads;
      && Transit(ts) == (if InTransit(th) then Transit(s.threads) + {t} else Transit(s.threads) - {t})
      && Holders(ts) == (if HoldsLock(th) then Holders(s.threads) + {t} else Holders(s.threads) - {t})
  {
  }

  lemma WakeSets<T>(threads: map<nat, Thread<T>>)
    ensures Transit(WakeReceivers(threads)) == Transit(threads) == Transit(WakeSenders(threads))
    ensures Holders(WakeReceivers(threads)) == Holders(threads) == Holders(WakeSenders(threads))
  {
  }

  lemma Counted(ts: set<nat>, t: nat)
    ensures |ts + {t}| == |ts| + (if t in ts then 0 else 1)
    ensures |ts - {t}| == |ts| - (if t in ts then 1 else 0)
  {
    if t in ts {
      assert ts + {t} == ts;
    } else {
      assert ts - {t} == ts;
    }
  }

  function One(b: bool): (n: nat) {
    if b then 1 else 0
  }

  lemma Moved<T>(s: State<T>, t: nat, th: Thread<T>)
    ensures var ts := Goto(s, t, th).threads;
      && |Transit(ts)| == |Transit(s.threads)| - One(InTransit(At(s, t))) + One(InTransit(th))
      && |Holders(ts)| == |Holders(s.threads)| - One(HoldsLock(At(s, t))) + One(HoldsLock(th))
  {
    GotoSets(s, t, th);
    Counted(Transit(s.threads), t);
    Counted(Holders(s.threads), t);
  }

  lemma StepCounts<T>(s: State<T>, step: Step<T>)
    requires Counts(s) && Enabled(s, step)
    ensures Counts(Do(s, step))
    ensures step.Post? ==> s.cnt > 0
  {
    hide Transit, Holders, WakeReceivers, WakeSenders;
    var s', t := Do(s, step), step.t;
    HolderLocks(s, t);
    match step {
      case Notify(_) =>
        WakeSets(s.threads);
        WokenAt(s, t);
        Moved(s.(threads := WakeReceivers(s.threads)), t, Leaving);
      case Post(_) =>
        WakeSets(s.threads);
        WokenAt(s, t);
        Moved(s.(threads := WakeSenders(s.threads)), t, Leaving);
      case _ => Moved(s, t, At(s', t));
    }
  }

  lemma WokenAt<T>(s: State<T>, t: nat)
    requires !At(s, t).BufSleep? && !At(s, t).SemSleep?
    ensures At(s.(threads := WakeReceivers(s.threads)), t) == At(s, t) == At(s.(threads := WakeSenders(s.threads)), t)
  {
  }

  lemma HolderLocks<T>(s: State<T>, t: nat)
    requires Counts(s)
    ensures HoldsLock(At(s, t)) ==> s.lock
    ensures InTransit(At(s, t)) ==> s.cnt > 0
  {
    if HoldsLock(At(s, t)) {
      assert t in Holders(s.threads);
    }
    if InTransit(At(s, t)) {
      assert t in Transit(s.threads);
    }
  }

  /** Slots, order and wake-ups. */
  lemma StepInv<T>(s: State<T>, step: Step<T>)
    requires Inv(s) && Enabled(s, step)
    ensures Inv(Do(s, step))
  {
    StepCounts(s, step);
    StepAwake(s, step);
    StepOrder(s, step);
  }

  lemma StepOrder<T>(s: State<T>, step: Step<T>)
    requires s.popped + s.buf == s.pushed && Enabled(s, step)
    ensures Do(s, step).popped + Do(s, step).buf == Do(s, step).pushed
  {
    hide WakeReceivers, WakeSenders;
    if step.Pop? && s.buf != [] {
      assert s.popped + s.buf == s.popped + [s.buf[0]] + s.buf[1..];
    } else if step.Push? {
      assert s.popped + (s.buf + [At(s, step.t).item]) == s.popped + s.buf + [At(s, step.t).item];
    }
  }

  lemma StepAwake<T>(s: State<T>, step: Step<T>)
    requires Inv(s) && Enabled(s, step)
    ensures Awake(Do(s, step))
  {
    hide Transit, Holders;
    var s', t := Do(s, step), step.t;
    HolderLocks(s, t);
    forall x | x in s'.threads && s'.threads[x].BufSleep? && s'.buf != []
      ensures exists u :: u in s'.threads && s'.threads[u].Notifying?
    {
      if step.Push? {
        assert s'.threads[t].Notifying?;
      } else {
        assert s.buf != [] && x in s.threads && s.threads[x].BufSleep?;
        var u :| u in s.threads && s.threads[u].Notifying?;
        if step.Pop? || step.LockToPop? || step.LockToPush? {
          OneHolder(s, t, u);
        }
        assert u != t;
        assert s'.threads[u].Notifying?;
      }
    }
  }

  lemma OneHolder<T>(s: State<T>, t: nat, u: nat)
    requires Counts(s) && HoldsLock(At(s, u))
    ensures s.lock && (HoldsLock(At(s, t)) ==> t == u)
  {
    assert u in Holders(s.threads);
    if HoldsLock(At(s, t)) && t != u {
      assert {t, u} <= Holders(s.threads);
      SubsetSize({t, u}, Holders(s.threads));
    }
  }

  lemma {:induction false} SubsetSize(a: set<nat>, b: set<nat>)
    requires a <= b
    ensures |a| <= |b|
    decreases |a|
  {
    if a != {} {
      var x :| x in a;
      SubsetSize(a - {x}, b - {x});
    }
  }

  // ---------------------------------------------------------------- whole runs

  function Start<T>(max: nat): (s: State<T>) {
    State(max, 0, [], false, map[], [], [])
  }

  ghost predicate Run<T>(s: State<T>, steps: seq<Step<T>>, s': State<T>)
    decreases |steps|
  {
    if steps == [] then s == s' else Enabled(s, steps[0]) && Run(Do(s, steps[0]), steps[1..], s')
  }

  lemma {:induction false} RunInv<T>(s: State<T>, steps: seq<Step<T>>, s': State<T>)
    requires Inv(s) && Run(s, steps, s')
    ensures Inv(s') && s'.max == s.max
    decreases |steps|
  {
    hide Inv;
    if steps != [] {
      StepInv(s, steps[0]);
      RunInv(Do(s, steps[0]), steps[1..], s');
    }
  }

  /** Every run of any number of senders and receivers: order, bound, the semaphore's assertion, and no lost wake-up. */
  lemma ChannelSafe<T>(max: nat, steps: seq<Step<T>>, s: State<T>)
    requires Run(Start(max), steps, s)
    ensures s.popped <= s.pushed
    ensures |s.buf| <= max && s.cnt == |s.buf| + |Transit(s.threads)| <= max
    ensures forall t :: At(s, t).Popped? ==> s.cnt > 0
    ensures s.buf != [] && !s.lock ==> forall t :: !At(s, t).BufSleep?
    ensures s.cnt < max ==> forall t :: !At(s, t).SemSleep?
  {
    var s0: State<T> := Start(max);
    assert Holders(s0.threads) == {} && Transit(s0.threads) == {};
    RunInv(s0, steps, s);
    forall t | At(s, t).Popped? ensures s.cnt > 0 {
      HolderLocks(s, t);
    }
    if s.buf != [] && !s.lock {
      forall t ensures !At(s, t).BufSleep? {
        if At(s, t).BufSleep? {
          var u :| u in s.threads && s.threads[u].Notifying?;
          HolderLocks(s, u);
        }
      }
    }
  }

  /** At most one thread holds the buffer. */
  lemma Exclusive<T>(max: nat, steps: seq<Step<T>>, s: State<T>, t: nat, u: nat)
    requires Run(Start(max), steps, s) && HoldsLock(At(s, t)) && HoldsLock(At(s, u))
    ensures t == u && s.lock
  {
    var s0: State<T> := Start(max);
    assert Holders(s0.threads) == {} && Transit(s0.threads) == {};
    RunInv(s0, steps, s);
    OneHolder(s, t, u);
  }

  // ---------------------------------------------------------------- what goes in comes out

  // The item of the last send that thread t began.
  function LastSend<T>(steps: seq<Step<T>>, t: nat): (item: Option<T>) {
    if steps == [] then None
    else
      var step := steps[|steps| - 1];
      if step.Send? && step.t == t then Some(step.item) else LastSend(steps[..|steps| - 1], t)
  }

  /** The items that were given to send, in the order in which their senders push. */
  function Sent<T>(steps: seq<Step<T>>): (items: seq<Option<T>>) {
    if steps == [] then []
    else
      var was, step := steps[..|steps| - 1], steps[|steps| - 1];
      if step.Push? then Sent(was) + [LastSend(was, step.t)] else Sent(was)
  }

  // The state after a run; steps that cannot be taken are passed over.
  function After<T>(max: nat, steps: seq<Step<T>>): (s: State<T>) {
    if steps == [] then Start(max)
    else
      var was, step := After(max, steps[..|steps| - 1]), steps[|steps| - 1];
      if Enabled(was, step) then Do(was, step) else was
  }

  /** The items that receivers return with, in order: a receiver has its item until it has posted the slot. */
  function Returned<T>(max: nat, steps: seq<Step<T>>): (items: seq<Option<T>>) {
    if steps == [] then []
    else
      var was, step := steps[..|steps| - 1], steps[|steps| - 1];
      if step.Post? then Returned(max, was) + Held(After(max, was), step.t) else Returned(max, was)
  }

  function Held<T>(s: State<T>, t: nat): (items: seq<Option<T>>) {
    if At(s, t).Popped? then [Some(At(s, t).item)] else []
  }

  function Somes<T>(xs: seq<T>): (r: seq<Option<T>>)
    ensures |r| == |xs| && forall i :: 0 <= i < |xs| ==> r[i] == Some(xs[i])
  {
    seq(|xs|, i requires 0 <= i < |xs| => Some(xs[i]))
  }

  lemma {:induction false} RunSnoc<T>(s: State<T>, steps: seq<Step<T>>, s': State<T>) returns (mid: State<T>)
    requires Run(s, steps, s') && steps != []
    ensures Run(s, steps[..|steps| - 1], mid) && Enabled(mid, steps[|steps| - 1])
    ensures s' == Do(mid, steps[|steps| - 1])
    decreases |steps|
  {
    hide Do, Enabled;
    if |steps| == 1 {
      mid := s;
      assert Run(Do(s, steps[0]), [], s');
    } else {
      mid := RunSnoc(Do(s, steps[0]), steps[1..], s');
      var was := steps[..|steps| - 1];
      assert was[1..] == steps[1..][..|steps| - 2];
      assert was[0] == steps[0];
    }
  }

  // A sender carries the item it was given.
  ghost predicate Carries<T>(steps: seq<Step<T>>, s: State<T>) {
    forall t <- s.threads ::
      var th := s.threads[t];
      th.AtSem? || th.SemSleep? || th.HasSlot? || th.Pushing? ==> LastSend(steps, t) == Some(th.item)
  }

  // The items popped are those returned with, and the one a receiver still holds.
  ghost predicate Accounted<T>(s: State<T>, returned: seq<Option<T>>) {
    && (forall t <- s.threads :: s.threads[t].Popped? ==> Somes(s.popped) == returned + [Some(s.threads[t].item)])
    && ((forall t <- s.threads :: !s.threads[t].Popped?) ==> Somes(s.popped) == returned)
  }

  lemma CarriesMore<T>(was: seq<Step<T>>, s: State<T>, step: Step<T>)
    requires Carries(was, s) && Enabled(s, step)
    ensures Carries(was + [step], Do(s, step))
  {
    var steps, s' := was + [step], Do(s, step);
    assert steps[..|steps| - 1] == was && steps[|steps| - 1] == step;
    forall t | t in s'.threads
      ensures var th := s'.threads[t];
        th.AtSem? || th.SemSleep? || th.HasSlot? || th.Pushing? ==> LastSend(steps, t) == Some(th.item)
    {
      assert LastSend(steps, t) == if step.Send? && step.t == t then Some(step.item) else LastSend(was, t);
    }
  }

  lemma AccountedMore<T>(s: State<T>, step: Step<T>, returned: seq<Option<T>>)
    requires Counts(s) && Accounted(s, returned) && Enabled(s, step)
    ensures Accounted(Do(s, step), returned + if step.Post? then Held(s, step.t) else [])
  {
    hide Holders, Transit;
    var s', t := Do(s, step), step.t;
    if HoldsLock(At(s, t)) {
      forall u | u in s.threads && s.threads[u].Popped? ensures u == t {
        OneHolder(s, u, t);
      }
    }
    assert returned + [] == returned;
    if step.Pop? && s.buf != [] {
      AccountedPop(s, t, returned);
    } else if step.Post? {
      assert Somes(s.popped) == returned + Held(s, t);
    } else if exists u :: u in s.threads && s.threads[u].Popped? {
      var u :| u in s.threads && s.threads[u].Popped?;
      assert u != t && s'.threads[u] == s.threads[u];
    }
  }

  lemma AccountedPop<T>(s: State<T>, t: nat, returned: seq<Option<T>>)
    requires Accounted(s, returned) && At(s, t).Popping? && s.buf != []
    requires forall u <- s.threads :: s.threads[u].Popped? ==> u == t
    ensures Accounted(Do(s, Pop(t)), returned)
  {
    var s' := Do(s, Pop(t));
    assert forall u <- s.threads :: !s.threads[u].Popped?;
    assert Somes(s'.popped) == Somes(s.popped) + [Some(s.buf[0])];
    assert s'.threads[t] == Popped(s.buf[0]);
  }

  lemma {:induction false} History<T>(max: nat, steps: seq<Step<T>>, s: State<T>)
    requires Run(Start(max), steps, s)
    ensures s == After(max, steps) && Inv(s) && Carries(steps, s)
    ensures Somes(s.pushed) == Sent(steps) && Accounted(s, Returned(max, steps))
    decreases |steps|
  {
    hide Do, Enabled, Inv, Carries, Accounted, Held;
    StartInv<T>(max);
    RunInv(Start(max), steps, s);
    if steps != [] {
      var mid := RunSnoc(Start(max), steps, s);
      var was, step := steps[..|steps| - 1], steps[|steps| - 1];
      assert steps == was + [step];
      History(max, was, mid);
      CarriesMore(was, mid, step);
      assert Counts(mid) by { InvCounts(mid); }
      AccountedMore(mid, step, Returned(max, was));
      PushedMore(was, mid, step);
      assert Returned(max, was) + [] == Returned(max, was);
    }
  }

  lemma StartInv<T>(max: nat)
    ensures Inv(Start<T>(max)) && Carries([], Start<T>(max)) && Accounted(Start<T>(max), [])
  {
    var s: State<T> := Start(max);
    assert Holders(s.threads) == {} && Transit(s.threads) == {};
  }

  lemma InvCounts<T>(s: State<T>)
    requires Inv(s)
    ensures Counts(s)
  {
  }

  lemma PushedMore<T>(was: seq<Step<T>>, s: State<T>, step: Step<T>)
    requires Carries(was, s) && Enabled(s, step) && Somes(s.pushed) == Sent(was)
    ensures Somes(Do(s, step).pushed) == Sent(was + [step])
  {
    assert (was + [step])[..|was|] == was;
    if step.Push? {
      assert step.t in s.threads;
    }
  }

  /** On every run the items receivers return with are, in order, the first of the items given to send. */
  lemma OutAsIn<T>(max: nat, steps: seq<Step<T>>, s: State<T>)
    requires Run(Start(max), steps, s)
    ensures Returned(max, steps) <= Sent(steps)
    ensures (forall t :: !HoldsLock(At(s, t))) ==> |Sent(steps)| == |Returned(max, steps)| + |s.buf|
  {
    History(max, steps, s);
    assert Somes(s.popped) <= Somes(s.pushed);
    if t :| t in s.threads && s.threads[t].Popped? {
      assert HoldsLock(At(s, t));
    }
  }

  // ---------------------------------------------------------------- calls that complete

  lemma RunFirst<T>(s: State<T>, step: Step<T>, steps: seq<Step<T>>, s': State<T>)
    requires Enabled(s, step) && Run(Do(s, step), steps, s')
    ensures Run(s, [step] + steps, s')
  {
    hide Do, Enabled;
    assert ([step] + steps)[1..] == steps;
  }

  /** With a slot left and the buffer unlocked, a send runs through and appends its item. */
  lemma SendCompletes<T>(s: State<T>, t: nat, item: T) returns (steps: seq<Step<T>>, s': State<T>)
    requires At(s, t).Idle? && s.cnt < s.max && !s.lock
    ensures Run(s, steps, s') && forall step <- steps :: step.t == t
    ensures s'.buf == s.buf + [item] && s'.cnt == s.cnt + 1 && !s'.lock && s'.max == s.max && At(s', t).Idle?
    ensures forall u <- s.threads :: u != t ==>
      u in s'.threads && s'.threads[u] == if s.threads[u].BufSleep? then AtLock else s.threads[u]
  {
    var s1 := Do(s, Send(t, item));
    var s2 := Do(s1, TakeSlot(t));
    var s3 := Do(s2, LockToPush(t));
    var s4 := Do(s3, Push(t));
    var s5 := Do(s4, Notify(t));
    s' := Do(s5, Unlock(t));
    var r1 := [Unlock(t)];
    var r2 := [Notify(t)] + r1;
    var r3 := [Push(t)] + r2;
    var r4 := [LockToPush(t)] + r3;
    var r5 := [TakeSlot(t)] + r4;
    steps := [Send(t, item)] + r5;
    assert Run(s5, r1, s') by { assert r1 == [Unlock(t)] + []; RunFirst(s5, Unlock(t), [], s'); }
    RunFirst(s4, Notify(t), r1, s');
    RunFirst(s3, Push(t), r2, s');
    RunFirst(s2, LockToPush(t), r3, s');
    RunFirst(s1, TakeSlot(t), r4, s');
    RunFirst(s, Send(t, item), r5, s');
  }

  /** With an item there and the buffer unlocked, a receive takes the first item, */
  lemma ReceiveTakes<T>(s: State<T>, t: nat) returns (steps: seq<Step<T>>, s': State<T>)
    requires At(s, t).Idle? && s.buf != [] && !s.lock
    ensures Run(s, steps, s') && At(s', t) == Popped(s.buf[0])
    ensures s'.buf == s.buf[1..] && s'.cnt == s.cnt && s'.lock && s'.max == s.max
  {
    var s1 := Do(s, Receive(t));
    var s2 := Do(s1, LockToPop(t));
    s' := Do(s2, Pop(t));
    var r1 := [Pop(t)];
    var r2 := [LockToPop(t)] + r1;
    steps := [Receive(t)] + r2;
    assert Run(s2, r1, s') by { assert r1 == [Pop(t)] + []; RunFirst(s2, Pop(t), [], s'); }
    RunFirst(s1, LockToPop(t), r1, s');
    RunFirst(s, Receive(t), r2, s');
  }

  /** and returns, giving its slot back and waking the senders that wait for one. */
  lemma ReceiveReturns<T>(s: State<T>, t: nat) returns (steps: seq<Step<T>>, s': State<T>)
    requires At(s, t).Popped? && s.cnt > 0
    ensures Run(s, steps, s') && At(s', t).Idle?
    ensures s'.buf == s.buf && s'.cnt == s.cnt - 1 && !s'.lock && s'.max == s.max
    ensures forall u <- s.threads :: u != t ==>
      u in s'.threads && s'.threads[u] == if s.threads[u].SemSleep? then AtSem(s.threads[u].item) else s.threads[u]
  {
    var s1 := Do(s, Post(t));
    s' := Do(s1, Unlock(t));
    var r1 := [Unlock(t)];
    steps := [Post(t)] + r1;
    assert Run(s1, r1, s') by { assert r1 == [Unlock(t)] + []; RunFirst(s1, Unlock(t), [], s'); }
    RunFirst(s, Post(t), r1, s');
  }
}
