/**
 The reader-writer spin lock: any number of guards being taken, upgraded and dropped, every
 access to the two atomics a step of its own.
 */
module RwLock {

  // Progress of one guard.
  datatype Guard =
    | Outside
    | Counted        // try_read: counted, writer flag not yet tested
    | Refused        // try_read: writer seen, count not yet taken back
    | Reading
    | ReadDrop       // read guard being dropped: count checked, not yet taken back
    | Flagged        // try_write: flag set, readers not yet tested
    | Upgrading      // try_upgrade: flag set by a reader, readers not yet tested
    | Upgraded       // try_upgrade: write guard made, old read guard not yet dropped
    | Writing
    | WriteDrop      // write guard being dropped: flag checked, not yet cleared

  datatype State = State(rcnt: nat, wcnt: bool, guards: map<nat, Guard>)

  datatype Step =
    | ReadCount(g: nat)
    | ReadTest(g: nat)
    | ReadBack(g: nat)
    | WriteFlag(g: nat, spurious: bool)     // compare-exchange, which may fail for no reason
    | WriteTest(g: nat)
    | UpgradeFlag(g: nat, spurious: bool)
    | UpgradeTest(g: nat)
    | UpgradeDrop(g: nat)
    | DropReadCheck(g: nat)
    | DropRead(g: nat)
    | DropWriteCheck(g: nat)
    | DropWrite(g: nat)

  function At(s: State, g: nat): (x: Guard) {
    if g in s.guards then s.guards[g] else Outside
  }

  // Guards that have incremented the reader count.
  predicate IsCounted(x: Guard) {
    x.Counted? || x.Refused? || x.Reading? || x.ReadDrop? || x.Upgrading? || x.Upgraded?
  }

  // Guards that have set the writer flag.
  predicate IsOwner(x: Guard) {
    x.Flagged? || x.Upgrading? || x.Upgraded? || x.Writing? || x.WriteDrop?
  }

  /** A read guard that gives access to the data. */
  predicate Reads(x: Guard) {
    x.Reading? || x.ReadDrop? || x.Upgrading?
  }

  /** A write guard that gives access to the data. */
  predicate Writes(x: Guard) {
    x.Upgraded? || x.Writing? || x.WriteDrop?
  }

  predicate Enabled(s: State, step: Step) {
    var x := At(s, step.g);
    match step
    case ReadCount(_) => x.Outside?
    case ReadTest(_) => x.Counted?
    case ReadBack(_) => x.Refused?
    case WriteFlag(_, _) => x.Outside?
    case WriteTest(_) => x.Flagged?
    case UpgradeFlag(_, _) => x.Reading?
    case UpgradeTest(_) => x.Upgrading?
    case UpgradeDrop(_) => x.Upgraded?
    case DropReadCheck(_) => x.Reading?
    case DropRead(_) => x.ReadDrop?
    case DropWriteCheck(_) => x.Writing?
    case DropWrite(_) => x.WriteDrop?
  }

  function Less(n: nat): (m: nat) {
    if n > 0 then n - 1 else 0
  }

  function Do(s: State, step: Step): (s': State) {
    var g := step.g;
    match step
    case ReadCount(_) => s.(rcnt := s.rcnt + 1, guards := s.guards[g := Counted])
    case ReadTest(_) => s.(guards := s.guards[g := if s.wcnt then Refused else Reading])
    case ReadBack(_) => s.(rcnt := Less(s.rcnt), guards := s.guards[g := Outside])
    case WriteFlag(_, spurious) =>
      if s.wcnt || spurious then s else s.(wcnt := true, guards := s.guards[g := Flagged])
    case WriteTest(_) => s.(guards := s.guards[g := if s.rcnt < 1 then Writing else Outside])  // the flag stays set
    case UpgradeFlag(_, spurious) =>
      if s.wcnt || spurious then s else s.(wcnt := true, guards := s.guards[g := Upgrading])
    case UpgradeTest(_) => s.(guards := s.guards[g := if s.rcnt == 1 then Upgraded else Reading])
    case UpgradeDrop(_) => s.(rcnt := Less(s.rcnt), guards := s.guards[g := Writing])
    case DropReadCheck(_) => s.(guards := s.guards[g := ReadDrop])
    case DropRead(_) => s.(rcnt := Less(s.rcnt), guards := s.guards[g := Outside])
    case DropWriteCheck(_) => s.(guards := s.guards[g := WriteDrop])
    case DropWrite(_) => s.(wcnt := false, guards := s.guards[g := Outside])
  }

  // ---------------------------------------------------------------- invariant

  function CountedSet(guards: map<nat, Guard>): (gs: set<nat>) {
    set g | g in guards && IsCounted(guards[g])
  }

  ghost predicate Inv(s: State) {
    && s.rcnt == |CountedSet(s.guards)|
    && (forall g <- s.guards :: IsOwner(s.guards[g]) ==> s.wcnt)
    && (forall g, h :: g in s.guards && h in s.guards && IsOwner(s.guards[g]) && IsOwner(s.guards[h]) ==> g == h)
    && (forall g, h :: g in s.guards && h in s.guards && Writes(s.guards[g]) && Reads(s.guards[h]) ==> g == h)
  }

  lemma CountedMoves(guards: map<nat, Guard>, g: nat, x: Guard)
    ensures var was := g in guards && IsCounted(guards[g]);
      |CountedSet(guards[g := x])| == |CountedSet(guards)| - (if was then 1 else 0) + (if IsCounted(x) then 1 else 0)
  {
    var a, b := CountedSet(guards), CountedSet(guards[g := x]);
    assert b == if IsCounted(x) then a + {g} else a - {g};
    if g in a {
      assert a + {g} == a;
    } else {
      assert a - {g} == a;
    }
  }

  // Few counted guards leave no room for a reader.
  lemma NoRoom(s: State, h: nat)
    requires s.rcnt == |CountedSet(s.guards)| && h in s.guards && IsCounted(s.guards[h])
    ensures s.rcnt >= 1
    ensures s.rcnt == 1 ==> CountedSet(s.guards) == {h}
  {
    var a := CountedSet(s.guards);
    assert h in a;
    if s.rcnt == 1 {
      assert |a - {h}| == 0;
      assert a == {h} + (a - {h});
    }
  }

  lemma StepInv(s: State, step: Step)
    requires Inv(s) && Enabled(s, step)
    ensures Inv(Do(s, step))
    // the assertion in the read guard's drop, also when an upgrade drops the old guard
    ensures step.DropReadCheck? || step.UpgradeDrop? ==> s.rcnt > 0
    ensures step.DropWriteCheck? ==> s.wcnt   // and in the write guard's
  {
    var s', g := Do(s, step), step.g;
    if IsCounted(At(s, g)) {
      NoRoom(s, g);
    }
    CountedMoves(s.guards, g, At(s', g));
    StepOwners(s, step);
    StepExcludes(s, step);
  }

  lemma StepOwners(s: State, step: Step)
    requires Inv(s) && Enabled(s, step)
    ensures var s' := Do(s, step);
      && (forall g <- s'.guards :: IsOwner(s'.guards[g]) ==> s'.wcnt)
      && (forall g, h :: g in s'.guards && h in s'.guards && IsOwner(s'.guards[g]) && IsOwner(s'.guards[h]) ==> g == h)
  {
    hide CountedSet;
  }

  lemma StepExcludes(s: State, step: Step)
    requires Inv(s) && Enabled(s, step)
    ensures var s' := Do(s, step);
      forall g, h :: g in s'.guards && h in s'.guards && Writes(s'.guards[g]) && Reads(s'.guards[h]) ==> g == h
  {
    var s' := Do(s, step);
    forall g, h | g in s'.guards && h in s'.guards && Writes(s'.guards[g]) && Reads(s'.guards[h]) ensures g == h {
      if (step.WriteTest? || step.UpgradeTest?) && h in s.guards && IsCounted(s.guards[h]) {
        NoRoom(s, h);
        if step.UpgradeTest? {
          assert step.g in CountedSet(s.guards);
        }
      }
    }
  }

  // ---------------------------------------------------------------- whole runs

  const START := State(0, false, map[])

  ghost predicate Run(s: State, steps: seq<Step>, s': State)
    decreases |steps|
  {
    if steps == [] then s == s' else Enabled(s, steps[0]) && Run(Do(s, steps[0]), steps[1..], s')
  }

  lemma {:induction false} RunInv(s: State, steps: seq<Step>, s': State)
    requires Inv(s) && Run(s, steps, s')
    ensures Inv(s')
    decreases |steps|
  {
    hide Inv;
    if steps != [] {
      StepInv(s, steps[0]);
      RunInv(Do(s, steps[0]), steps[1..], s');
    }
  }

  /** In every interleaving there is at most one write guard, and beside it no read guard. */
  lemma Exclusion(steps: seq<Step>, s: State, g: nat, h: nat)
    requires Run(START, steps, s) && Writes(At(s, g)) && g != h
    ensures !Writes(At(s, h)) && !Reads(At(s, h))
    ensures s.wcnt
  {
    assert CountedSet(START.guards) == {};
    RunInv(START, steps, s);
  }

  /** Safety is all there is: a writer that finds a reader leaves the flag set, and nobody gets in any more. */
  lemma FlagCanStick() returns (steps: seq<Step>, s: State)
    ensures Run(START, steps, s) && Stuck(s) && s.rcnt == 0
  {
    var s1 := Do(START, ReadCount(0));
    var s2 := Do(s1, ReadTest(0));
    var s3 := Do(s2, WriteFlag(1, false));
    var s4 := Do(s3, WriteTest(1));
    var s5 := Do(s4, DropReadCheck(0));
    s := Do(s5, DropRead(0));
    var t1 := [DropRead(0)];
    var t2 := [DropReadCheck(0)] + t1;
    var t3 := [WriteTest(1)] + t2;
    var t4 := [WriteFlag(1, false)] + t3;
    var t5 := [ReadTest(0)] + t4;
    steps := [ReadCount(0)] + t5;
    assert Run(s5, t1, s) by { assert t1 == [DropRead(0)] + []; RunFirst(s5, DropRead(0), [], s); }
    RunFirst(s4, DropReadCheck(0), t1, s);
    RunFirst(s3, WriteTest(1), t2, s);
    RunFirst(s2, WriteFlag(1, false), t3, s);
    RunFirst(s1, ReadTest(0), t4, s);
    RunFirst(START, ReadCount(0), t5, s);
  }

  // ---------------------------------------------------------------- when the flag is left behind

  /** The flag is set, but by nobody who could clear it. */
  ghost predicate Unowned(s: State) {
    s.wcnt && forall g <- s.guards :: !IsOwner(s.guards[g])
  }

  // The second test of a writer or an upgrade finds a reader in the way.
  predicate FailedTest(s: State, step: Step) {
    (step.WriteTest? && s.rcnt >= 1) || (step.UpgradeTest? && s.rcnt != 1)
  }

  predicate SomeFailed(s: State, steps: seq<Step>)
    decreases |steps|
  {
    steps != [] && (FailedTest(s, steps[0]) || SomeFailed(Do(s, steps[0]), steps[1..]))
  }

  lemma UnownedStep(s: State, step: Step)
    requires Inv(s) && Enabled(s, step)
    ensures Unowned(Do(s, step)) <==> Unowned(s) || FailedTest(s, step)
  {
    hide CountedSet;
    var s', g := Do(s, step), step.g;
    assert At(s', g) == if g in s'.guards then s'.guards[g] else Outside;
    if Unowned(s) {
      assert !IsOwner(At(s, g));
      assert forall h <- s'.guards :: h == g || s'.guards[h] == s.guards[h];
    } else if FailedTest(s, step) {
      assert IsOwner(s.guards[g]);
    } else if s'.wcnt {
      if s.wcnt {
        var h :| h in s.guards && IsOwner(s.guards[h]);
        assert h in s'.guards && (h != g ==> s'.guards[h] == s.guards[h]);
      }
    }
  }

  lemma {:induction false} UnownedRun(s: State, steps: seq<Step>, t: State)
    requires Inv(s) && Run(s, steps, t)
    ensures Unowned(t) <==> Unowned(s) || SomeFailed(s, steps)
    decreases |steps|
  {
    hide Inv, Unowned, FailedTest;
    if steps != [] {
      StepInv(s, steps[0]);
      UnownedStep(s, steps[0]);
      UnownedRun(Do(s, steps[0]), steps[1..], t);
    }
  }

  /** The flag is left behind exactly on the runs in which some second test failed; on all others it is free
      whenever nobody owns it. */
  lemma StuckExactly(steps: seq<Step>, s: State)
    requires Run(START, steps, s)
    ensures Unowned(s) <==> SomeFailed(START, steps)
    ensures !SomeFailed(START, steps) && (forall g <- s.guards :: s.guards[g].Outside?) ==> !s.wcnt
  {
    assert CountedSet(START.guards) == {};
    UnownedRun(START, steps, s);
  }

  /** Once left behind, the flag refuses every guard that does not exist yet, for the rest of the run. */
  lemma {:induction false} NoNewGuards(s: State, steps: seq<Step>, t: State, g: nat)
    requires Inv(s) && Unowned(s) && Run(s, steps, t)
    ensures Unowned(t) && !Writes(At(t, g)) && (Reads(At(t, g)) ==> Reads(At(s, g)))
    decreases |steps|
  {
    if steps != [] {
      StepInv(s, steps[0]);
      UnownedStep(s, steps[0]);
      assert Reads(At(Do(s, steps[0]), g)) ==> Reads(At(s, g));
      hide Inv, Do;
      NoNewGuards(Do(s, steps[0]), steps[1..], t, g);
    }
  }

  /** A set flag that no guard owns is never cleared, and no guard is ever given out again. */
  ghost predicate Stuck(s: State) {
    s.wcnt && forall g :: !IsOwner(At(s, g)) && !Reads(At(s, g))
  }

  lemma {:induction false} StuckForever(s: State, steps: seq<Step>, t: State)
    requires Stuck(s) && Run(s, steps, t)
    ensures Stuck(t)
    decreases |steps|
  {
    if steps != [] {
      StuckStep(s, steps[0]);
      hide Stuck, Do, Enabled;
      StuckForever(Do(s, steps[0]), steps[1..], t);
    }
  }

  lemma StuckStep(s: State, step: Step)
    requires Stuck(s) && Enabled(s, step)
    ensures Stuck(Do(s, step))
  {
    var s' := Do(s, step);
    assert !IsOwner(At(s, step.g)) && !Reads(At(s, step.g));
    forall g ensures !IsOwner(At(s', g)) && !Reads(At(s', g)) {
      assert !IsOwner(At(s, g)) && !Reads(At(s, g));
    }
  }

  lemma RunFirst(s: State, step: Step, steps: seq<Step>, t: State)
    requires Enabled(s, step) && Run(Do(s, step), steps, t)
    ensures Run(s, [step] + steps, t)
  {
    assert ([step] + steps)[1..] == steps;
  }

  // ---------------------------------------------------------------- guards that are granted

  lemma RunTwo(s: State, a: Step, b: Step)
    requires Enabled(s, a) && Enabled(Do(s, a), b)
    ensures Run(s, [a, b], Do(Do(s, a), b))
  {
    var u := Do(Do(s, a), b);
    assert Run(u, [], u);
    RunFirst(Do(s, a), b, [], u);
    assert [b] + [] == [b] && [a] + [b] == [a, b];
    RunFirst(s, a, [b], u);
  }

  /** A reader that meets no other step gets its guard exactly if the writer flag is clear, and otherwise leaves the
      count as it was. */
  lemma ReadGrants(s: State, g: nat) returns (u: State)
    requires At(s, g).Outside?
    ensures Run(s, [ReadCount(g), ReadTest(g)], u)
    ensures !s.wcnt ==> At(u, g).Reading? && u.rcnt == s.rcnt + 1 && !u.wcnt
    ensures s.wcnt ==>
      var v := Do(u, ReadBack(g));
      At(u, g).Refused? && Enabled(u, ReadBack(g)) && At(v, g).Outside? && v.rcnt == s.rcnt && v.wcnt
  {
    RunTwo(s, ReadCount(g), ReadTest(g));
    u := Do(Do(s, ReadCount(g)), ReadTest(g));
  }

  /** A writer that meets no other step, and no spurious failure, gets its guard exactly if the flag is clear and there
      is no reader; a set flag sends it away unchanged. */
  lemma WriteGrants(s: State, g: nat) returns (u: State)
    requires At(s, g).Outside?
    ensures s.wcnt ==> Do(s, WriteFlag(g, false)) == s
    ensures !s.wcnt ==> Run(s, [WriteFlag(g, false), WriteTest(g)], u) && u.wcnt && u.rcnt == s.rcnt
    ensures !s.wcnt ==> (At(u, g).Writing? <==> s.rcnt == 0) && (At(u, g).Outside? <==> s.rcnt > 0)
  {
    u := s;
    if !s.wcnt {
      RunTwo(s, WriteFlag(g, false), WriteTest(g));
      u := Do(Do(s, WriteFlag(g, false)), WriteTest(g));
    }
  }

  /** The only reader can become the writer; with other readers it stays a reader. */
  lemma UpgradeGrants(s: State, g: nat) returns (u: State)
    requires At(s, g).Reading? && !s.wcnt
    ensures Run(s, [UpgradeFlag(g, false), UpgradeTest(g)], u) && u.wcnt && u.rcnt == s.rcnt
    ensures s.rcnt == 1 ==>
      var v := Do(u, UpgradeDrop(g));
      At(u, g).Upgraded? && Enabled(u, UpgradeDrop(g)) && At(v, g).Writing? && v.rcnt == 0 && v.wcnt
    ensures s.rcnt != 1 ==> At(u, g).Reading?
  {
    RunTwo(s, UpgradeFlag(g, false), UpgradeTest(g));
    u := Do(Do(s, UpgradeFlag(g, false)), UpgradeTest(g));
  }

  /** Dropping a write guard clears the flag; dropping a read guard takes one off the count. */
  lemma DropReleases(s: State, g: nat) returns (u: State)
    requires At(s, g).Writing? || (At(s, g).Reading? && s.rcnt > 0)
    ensures At(s, g).Writing? ==> Run(s, [DropWriteCheck(g), DropWrite(g)], u) && !u.wcnt && u.rcnt == s.rcnt
    ensures At(s, g).Reading? ==> Run(s, [DropReadCheck(g), DropRead(g)], u) && u.rcnt == s.rcnt - 1 && u.wcnt == s.wcnt
    ensures At(u, g).Outside?
  {
    if At(s, g).Writing? {
      RunTwo(s, DropWriteCheck(g), DropWrite(g));
      u := Do(Do(s, DropWriteCheck(g)), DropWrite(g));
    } else {
      RunTwo(s, DropReadCheck(g), DropRead(g));
      u := Do(Do(s, DropReadCheck(g)), DropRead(g));
    }
  }
}
