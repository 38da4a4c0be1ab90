/**
 The redo log as a transition system: any number of concurrent operations, every block write
 of commit and recovery a step of its own, and a crash possible between any two steps.
 */
module LogProtocol {
  import opened LogBudget
  import opened LogDisk
  import opened Seqs
  import opened RedoLog

  // One logged write: operation op gave block b the content v.
  datatype Rec = Rec(op: nat, b: nat, v: Data)

  datatype Phase =
    | Running               // operations may run
    | Logging(i: nat)       // commit has written the first i log blocks
    | Installing(i: nat)    // commit has installed the first i blocks
    | Done                  // commit has cleared the header
    | Down                  // after a crash, before the header is read
    | Recovering(i: nat)    // recovery has installed the first i blocks

  datatype State = State(
    disk: Disk,
    phase: Phase,
    lh: Header,
    cache: map<nat, Data>,  // pinned buffers
    outstanding: nat,
    committing: bool,
    // bookkeeping of the proof
    active: map<nat, nat>,  // running operations and the writes each has left
    nextOp: nat,
    firstOp: nat,           // operations from here on are not in any committed group
    pending: seq<Rec>,      // writes since the last commit point
    committed: seq<seq<Rec>>,
    all: seq<Rec>)          // every write ever logged

  datatype Step =
    | Begin
    | Write(op: nat, b: nat, v: Data)
    | End(op: nat)
    | Commit
    | Crash
    | Recover

  predicate Admits(s: State) {
    s.phase == Running && !s.committing && s.lh.n + (s.outstanding + 1) * MAXOPBLOCKS <= LOGSIZE
  }

  /** The conditions on which a write of a running operation panics. */
  predicate WritePanics(s: State, nlog: nat) {
    s.lh.n >= LOGSIZE || s.lh.n + 1 >= nlog || s.outstanding < 1
  }

  predicate Enabled(s: State, step: Step, nlog: nat) {
    match step
    case Begin => Admits(s)
    case Write(op, b, v) =>
      s.phase == Running && op in s.active && s.active[op] > 0 && b in s.disk.home && !WritePanics(s, nlog)
    case End(op) => s.phase == Running && op in s.active
    case Commit => s.phase.Logging? || s.phase.Installing? || s.phase.Done?
    case Crash => true
    case Recover => s.phase.Down? || s.phase.Recovering?
  }

  function Logged(lh: Header): (bs: seq<nat>)
    requires lh.n <= |lh.block|
  {
    lh.block[..lh.n]
  }

  function LogWrite(s: State, op: nat, b: nat, v: Data): (t: State)
    requires op in s.active && s.active[op] > 0 && s.lh.n < |s.lh.block|
  {
    var r := Rec(op, b, v);
    s.(lh := if b in Logged(s.lh) then s.lh else Header(s.lh.n + 1, s.lh.block[s.lh.n := b]),
       cache := s.cache[b := v],
       active := s.active[op := s.active[op] - 1],
       pending := s.pending + [r],
       all := s.all + [r])
  }

  function EndOp(s: State, op: nat): (t: State) {
    var t := s.(outstanding := if s.outstanding > 0 then s.outstanding - 1 else 0, active := s.active - {op});
    if t.outstanding > 0 then t
    else t.(committing := true, phase := if s.lh.n > 0 then Logging(0) else Done)
  }

  function CommitStep(s: State): (t: State)
    requires s.lh.n <= |s.lh.block| && s.lh.n <= |s.disk.log|
    requires forall b :: b in Logged(s.lh) && s.phase.Logging? ==> b in s.cache
  {
    match s.phase
    case Logging(i) =>
      if i < s.lh.n then
        assert s.lh.block[i] in Logged(s.lh);
        s.(disk := WriteLogBlock(s.disk, i, s.cache[s.lh.block[i]]), phase := Logging(i + 1))
      else
        // the commit point
        s.(disk := WriteHeadBlock(s.disk, s.lh), phase := Installing(0),
           committed := s.committed + [s.pending], pending := [], firstOp := s.nextOp)
    case Installing(i) =>
      if i < s.lh.n then
        s.(disk := WriteHomeBlock(s.disk, s.lh.block[i], s.disk.log[i]), phase := Installing(i + 1))
      else
        s.(disk := WriteHeadBlock(s.disk, s.lh.(n := 0)), lh := s.lh.(n := 0), cache := map[], phase := Done)
    case Done => s.(phase := Running, committing := false, lh := s.lh.(n := 0))
    case _ => s
  }

  // Memory is lost; the disk stays.
  function CrashStep(s: State): (t: State) {
    s.(phase := Down, cache := map[], outstanding := 0, committing := false,
       active := map[], firstOp := s.nextOp, pending := [])
  }

  function RecoverStep(s: State): (t: State)
    requires s.lh.n <= |s.lh.block| && s.lh.n <= |s.disk.log|
  {
    match s.phase
    case Down => s.(lh := s.disk.head, phase := Recovering(0))
    case Recovering(i) =>
      if i < s.lh.n then
        s.(disk := WriteHomeBlock(s.disk, s.lh.block[i], s.disk.log[i]), phase := Recovering(i + 1))
      else
        s.(disk := WriteHeadBlock(s.disk, s.lh.(n := 0)), lh := s.lh.(n := 0), phase := Running)
    case _ => s
  }

  ghost predicate Shape(s: State) {
    && DiskOk(s.disk)
    && s.lh.n <= LOGSIZE == |s.lh.block|
    && (s.phase.Logging? ==> forall b :: b in Logged(s.lh) ==> b in s.cache)
  }

  ghost function Do(s: State, step: Step): (t: State)
    requires Shape(s)
  {
    match step
    case Begin =>
      s.(outstanding := s.outstanding + 1, active := s.active[s.nextOp := MAXOPBLOCKS], nextOp := s.nextOp + 1)
    case Write(op, b, v) =>
      if op in s.active && s.active[op] > 0 && s.lh.n < LOGSIZE then LogWrite(s, op, b, v) else s
    case End(op) => EndOp(s, op)
    case Commit => CommitStep(s)
    case Crash => CrashStep(s)
    case Recover => RecoverStep(s)
  }

  // ---------------------------------------------------------------- what groups mean

  // The last content written to each block.
  function Latest(rs: seq<Rec>): (m: map<nat, Data>) {
    if rs == [] then map[] else Latest(rs[..|rs| - 1])[rs[|rs| - 1].b := rs[|rs| - 1].v]
  }

  // Home blocks after whole groups, in order.
  function Replay(home: map<nat, Data>, gs: seq<seq<Rec>>): (r: map<nat, Data>) {
    if gs == [] then home else Replay(home, gs[..|gs| - 1]) + Latest(gs[|gs| - 1])
  }

  // The writes of one operation, in order.
  function Of(rs: seq<Rec>, op: nat): (r: seq<Rec>) {
    if rs == [] then []
    else Of(rs[..|rs| - 1], op) + (if rs[|rs| - 1].op == op then [rs[|rs| - 1]] else [])
  }

  // ---------------------------------------------------------------- the invariant

  /** Reservation and exclusion. */
  ghost predicate MemInv(phase: Phase, n: nat, outstanding: nat, committing: bool, active: map<nat, nat>) {
    && outstanding == |active|
    && (forall op <- active :: active[op] <= MAXOPBLOCKS)
    && (phase != Running ==> active == map[])
    && (committing <==> phase.Logging? || phase.Installing? || phase.Done?)
    && (phase == Running ==> n + Budget(active) <= LOGSIZE)
    && (phase == Running && outstanding == 0 ==> n == 0)
  }

  // The pinned buffers are the logged blocks and hold the pending writes.
  ghost predicate CacheInv(home: map<nat, Data>, bs: seq<nat>, cache: map<nat, Data>, pending: seq<Rec>) {
    && NoDup(bs)
    && (forall b :: b in cache <==> b in bs)
    && cache == Latest(pending)
    && (forall b :: b in cache ==> b in home)
  }

  ghost predicate Installed(d: Disk, i: nat)
    requires DiskOk(d)
  {
    && i <= d.head.n
    && forall j :: 0 <= j < i ==> d.home[d.head.block[j]] == d.log[j]
  }

  /** How far commit or recovery has come. */
  ghost predicate LogInv(disk: Disk, phase: Phase, lh: Header, cache: map<nat, Data>, pending: seq<Rec>)
    requires DiskOk(disk) && lh.n <= LOGSIZE == |lh.block|
  {
    match phase
    case Running => disk.head.n == 0 && CacheInv(disk.home, Logged(lh), cache, pending)
    case Logging(i) =>
      && disk.head.n == 0 && CacheInv(disk.home, Logged(lh), cache, pending) && i <= lh.n
      && forall j :: 0 <= j < i ==> lh.block[j] in cache && disk.log[j] == cache[lh.block[j]]
    case Installing(i) => disk.head == lh && Installed(disk, i) && pending == []
    case Done => disk.head.n == 0 && lh.n == 0 && pending == [] && cache == map[]
    case Down => pending == [] && cache == map[]
    case Recovering(i) => disk.head == lh && Installed(disk, i) && pending == [] && cache == map[]
  }

  /** The disk means exactly the committed groups. */
  ghost predicate DiskInv(disk: Disk, committed: seq<seq<Rec>>, home0: map<nat, Data>)
    requires DiskOk(disk)
  {
    && NoDup(Logged(disk.head))
    && disk.home.Keys == home0.Keys
    && Durable(disk) == Replay(home0, committed)
  }

  /** Each operation's writes are together in one group, or in none. */
  ghost predicate HistInv(active: set<nat>, nextOp: nat, firstOp: nat,
                          pending: seq<Rec>, committed: seq<seq<Rec>>, all: seq<Rec>) {
    && firstOp <= nextOp
    && (forall op <- active :: firstOp <= op < nextOp)
    && (forall r <- all :: r.op < nextOp)
    && (forall op: nat :: firstOp <= op ==> Of(all, op) == Of(pending, op))
    && (forall op: nat :: op < firstOp ==> Of(pending, op) == [])
    && (forall g <- committed :: forall op: nat :: Of(g, op) != [] ==> op < firstOp && Of(g, op) == Of(all, op))
  }

  ghost predicate Inv(s: State, home0: map<nat, Data>) {
    && Shape(s)
    && MemInv(s.phase, s.lh.n, s.outstanding, s.committing, s.active)
    && LogInv(s.disk, s.phase, s.lh, s.cache, s.pending)
    && DiskInv(s.disk, s.committed, home0)
    && HistInv(s.active.Keys, s.nextOp, s.firstOp, s.pending, s.committed, s.all)
  }

  // ---------------------------------------------------------------- steps of operations

  lemma BeginMem(n: nat, outstanding: nat, active: map<nat, nat>, op: nat)
    requires MemInv(Running, n, outstanding, false, active) && op !in active
    requires n + (outstanding + 1) * MAXOPBLOCKS <= LOGSIZE
    ensures MemInv(Running, n, outstanding + 1, false, active[op := MAXOPBLOCKS])
  {
    assert active[op := MAXOPBLOCKS].Keys == active.Keys + {op};
    assert active - {op} == active;
    BudgetSet(active, op, MAXOPBLOCKS);
    BudgetBound(active);
  }

  lemma BeginHist(s: State)
    requires HistInv(s.active.Keys, s.nextOp, s.firstOp, s.pending, s.committed, s.all)
    ensures s.nextOp !in s.active
    ensures HistInv(s.active.Keys + {s.nextOp}, s.nextOp + 1, s.firstOp, s.pending, s.committed, s.all)
  {
    hide Of;
  }

  lemma BeginKeeps(s: State, home0: map<nat, Data>)
    requires Inv(s, home0) && Admits(s)
    ensures Inv(Do(s, Begin), home0)
  {
    hide LogInv, DiskInv, MemInv, HistInv;
    var t := Do(s, Begin);
    assert t.active.Keys == s.active.Keys + {s.nextOp};
    BeginHist(s);
    BeginMem(s.lh.n, s.outstanding, s.active, s.nextOp);
  }

  lemma WriteMem(n: nat, n': nat, outstanding: nat, active: map<nat, nat>, op: nat)
    requires MemInv(Running, n, outstanding, false, active) && op in active && active[op] > 0 && n' <= n + 1
    ensures MemInv(Running, n', outstanding, false, active[op := active[op] - 1])
    ensures n < LOGSIZE && 0 < outstanding
  {
    assert active[op := active[op] - 1].Keys == active.Keys;
    BudgetSet(active, op, active[op] - 1);
    BudgetWithout(active, op);
  }

  lemma OfAppend(rs: seq<Rec>, r: Rec, op: nat)
    ensures Of(rs + [r], op) == Of(rs, op) + (if r.op == op then [r] else [])
  {
    assert (rs + [r])[..|rs|] == rs;
  }

  lemma WriteHist(s: State, r: Rec)
    requires HistInv(s.active.Keys, s.nextOp, s.firstOp, s.pending, s.committed, s.all) && r.op in s.active
    ensures HistInv(s.active.Keys, s.nextOp, s.firstOp, s.pending + [r], s.committed, s.all + [r])
  {
    forall op: nat
      ensures Of(s.all + [r], op) == Of(s.all, op) + (if r.op == op then [r] else [])
      ensures Of(s.pending + [r], op) == Of(s.pending, op) + (if r.op == op then [r] else [])
    {
      OfAppend(s.all, r, op);
      OfAppend(s.pending, r, op);
    }
    hide Of;
  }

  lemma WriteLogged(disk: Disk, lh: Header, cache: map<nat, Data>, pending: seq<Rec>, r: Rec)
    requires DiskOk(disk) && lh.n < LOGSIZE == |lh.block| && r.b in disk.home
    requires LogInv(disk, Running, lh, cache, pending)
    ensures var lh' := if r.b in Logged(lh) then lh else Header(lh.n + 1, lh.block[lh.n := r.b]);
      LogInv(disk, Running, lh', cache[r.b := r.v], pending + [r])
  {
    assert (pending + [r])[..|pending|] == pending;
    if r.b !in Logged(lh) {
      assert Logged(Header(lh.n + 1, lh.block[lh.n := r.b])) == Logged(lh) + [r.b];
    }
  }

  lemma WriteKeeps(s: State, op: nat, b: nat, v: Data, nlog: nat, home0: map<nat, Data>)
    requires Inv(s, home0) && Enabled(s, Write(op, b, v), nlog)
    ensures Inv(Do(s, Write(op, b, v)), home0)
  {
    hide LogInv, DiskInv, HistInv, MemInv;
    var t := Do(s, Write(op, b, v));
    assert !s.committing by { RunningNotCommitting(s); }
    WriteMem(s.lh.n, t.lh.n, s.outstanding, s.active, op);
    WriteHist(s, Rec(op, b, v));
    WriteLogged(s.disk, s.lh, s.cache, s.pending, Rec(op, b, v));
    assert t.active.Keys == s.active.Keys;
  }

  lemma RunningNotCommitting(s: State)
    requires MemInv(s.phase, s.lh.n, s.outstanding, s.committing, s.active) && s.phase == Running
    ensures !s.committing
  {
  }

  lemma EndMem(n: nat, outstanding: nat, active: map<nat, nat>, op: nat)
    requires MemInv(Running, n, outstanding, false, active) && op in active
    ensures outstanding > 0
    ensures outstanding > 1 ==> MemInv(Running, n, outstanding - 1, false, active - {op})
    ensures outstanding == 1 ==> active - {op} == map[]
  {
    BudgetWithout(active, op);
    assert (active - {op}).Keys == active.Keys - {op};
    if outstanding == 1 {
      assert |(active - {op}).Keys| == 0;
    }
  }

  lemma PendingShows(pending: seq<Rec>)
    requires pending != []
    ensures pending[|pending| - 1].b in Latest(pending)
  {
  }

  lemma EndLogged(s: State)
    requires Shape(s) && s.phase == Running && LogInv(s.disk, Running, s.lh, s.cache, s.pending)
    ensures s.lh.n > 0 ==> LogInv(s.disk, Logging(0), s.lh, s.cache, s.pending)
    ensures s.lh.n > 0 ==> forall b :: b in Logged(s.lh) ==> b in s.cache
    ensures s.lh.n == 0 ==> LogInv(s.disk, Done, s.lh, s.cache, s.pending)
  {
    if s.lh.n == 0 {
      assert s.cache == map[];
      if s.pending != [] {
        PendingShows(s.pending);
      }
    }
  }

  lemma FewerActive(s: State, active: set<nat>)
    requires HistInv(s.active.Keys, s.nextOp, s.firstOp, s.pending, s.committed, s.all) && active <= s.active.Keys
    ensures HistInv(active, s.nextOp, s.firstOp, s.pending, s.committed, s.all)
  {
    hide Of;
  }

  lemma EndKeeps(s: State, op: nat, home0: map<nat, Data>)
    requires Inv(s, home0) && s.phase == Running && op in s.active
    ensures Inv(Do(s, End(op)), home0)
  {
    hide LogInv, DiskInv, HistInv;
    var t := Do(s, End(op));
    EndMem(s.lh.n, s.outstanding, s.active, op);
    EndLogged(s);
    FewerActive(s, t.active.Keys);
  }

  // ---------------------------------------------------------------- steps of commit

  lemma LogBlockKeeps(s: State, i: nat, home0: map<nat, Data>)
    requires Inv(s, home0) && s.phase == Logging(i) && i < s.lh.n
    ensures Inv(CommitStep(s), home0)
  {
    hide HistInv, Replay, Latest;
    assert s.lh.block[i] in Logged(s.lh);
    var t := CommitStep(s);
    DurableIs(s.disk);
    DurableIs(t.disk);
    hide Durable;
  }

  lemma {:induction false} ApplyIsMerge(home: map<nat, Data>, bs: seq<nat>, vs: seq<Data>, cache: map<nat, Data>)
    requires |bs| == |vs| && forall j :: 0 <= j < |bs| ==> bs[j] in cache && vs[j] == cache[bs[j]]
    ensures forall b :: b in Apply(home, bs, vs) <==> b in home || b in bs
    ensures forall b :: b in Apply(home, bs, vs) ==> Apply(home, bs, vs)[b] == if b in bs then cache[b] else home[b]
    decreases |bs|
  {
    if bs != [] {
      var n := |bs| - 1;
      ApplyIsMerge(home, bs[..n], vs[..n], cache);
      assert bs == bs[..n] + [bs[n]];
    }
  }

  lemma MergeAll(home: map<nat, Data>, bs: seq<nat>, vs: seq<Data>, cache: map<nat, Data>)
    requires |bs| == |vs| && forall j :: 0 <= j < |bs| ==> bs[j] in cache && vs[j] == cache[bs[j]]
    requires forall b :: b in cache ==> b in bs && b in home
    ensures Apply(home, bs, vs) == home + cache && (home + cache).Keys == home.Keys
  {
    ApplyIsMerge(home, bs, vs, cache);
    hide Apply;
  }

  lemma ReplayMore(home0: map<nat, Data>, gs: seq<seq<Rec>>, g: seq<Rec>)
    ensures Replay(home0, gs + [g]) == Replay(home0, gs) + Latest(g)
  {
    assert (gs + [g])[..|gs|] == gs;
  }

  lemma CommitPointDisk(s: State, home0: map<nat, Data>)
    requires Shape(s) && s.phase == Logging(s.lh.n)
    requires LogInv(s.disk, s.phase, s.lh, s.cache, s.pending) && DiskInv(s.disk, s.committed, home0)
    ensures var d := WriteHeadBlock(s.disk, s.lh);
      DiskOk(d) && DiskInv(d, s.committed + [s.pending], home0) && Installed(d, 0)
  {
    hide Durable, Apply, Replay, Latest;
    var d := WriteHeadBlock(s.disk, s.lh);
    var bs, vs := Logged(s.lh), s.disk.log[..s.lh.n];
    forall i | 0 <= i < s.lh.n ensures s.lh.block[i] in s.disk.home {
      assert s.lh.block[i] == bs[i] && bs[i] in bs;
    }
    DurableIs(s.disk);
    DurableIs(d);
    MergeAll(s.disk.home, bs, vs, s.cache);
    ReplayMore(home0, s.committed, s.pending);
  }

  lemma CommitPointHist(s: State)
    requires HistInv({}, s.nextOp, s.firstOp, s.pending, s.committed, s.all)
    ensures HistInv({}, s.nextOp, s.nextOp, [], s.committed + [s.pending], s.all)
  {
    forall op: nat | s.nextOp <= op ensures Of(s.all, op) == [] {
      OfNone(s.all, op);
    }
    assert forall op: nat :: Of([], op) == [];
    hide Of;
  }

  lemma {:induction false} OfNone(rs: seq<Rec>, op: nat)
    requires forall r <- rs :: r.op != op
    ensures Of(rs, op) == []
    decreases |rs|
  {
    if rs != [] {
      OfNone(rs[..|rs| - 1], op);
    }
  }

  lemma CommitPointKeeps(s: State, home0: map<nat, Data>)
    requires Inv(s, home0) && s.phase == Logging(s.lh.n)
    ensures Inv(CommitStep(s), home0)
  {
    hide HistInv, DiskInv;
    CommitPointDisk(s, home0);
    CommitPointHist(s);
  }

  lemma SameApply(h1: map<nat, Data>, h2: map<nat, Data>, bs: seq<nat>, vs: seq<Data>)
    requires |bs| == |vs| && h1.Keys == h2.Keys && forall b :: b in h1 && b !in bs ==> h1[b] == h2[b]
    ensures Apply(h1, bs, vs) == Apply(h2, bs, vs)
  {
    hide Apply;
    ApplyAgree(h1, h2, bs, vs);
  }

  // Installing one more block of the group the header names.
  lemma InstallKeeps(d: Disk, i: nat, committed: seq<seq<Rec>>, home0: map<nat, Data>)
    requires DiskOk(d) && DiskInv(d, committed, home0) && Installed(d, i) && i < d.head.n
    ensures var d' := WriteHomeBlock(d, d.head.block[i], d.log[i]);
      DiskOk(d') && DiskInv(d', committed, home0) && Installed(d', i + 1)
  {
    hide Apply, Replay;
    var d' := WriteHomeBlock(d, d.head.block[i], d.log[i]);
    var bs, vs := Logged(d.head), d.log[..d.head.n];
    assert bs[i] == d.head.block[i];
    assert d'.home.Keys == d.home.Keys;
    SameApply(d.home, d'.home, bs, vs);
    forall j | 0 <= j < i + 1 ensures d'.home[d.head.block[j]] == d.log[j] {
      assert bs[j] == d.head.block[j];
    }
  }

  lemma {:induction false} ApplyFixed(home: map<nat, Data>, bs: seq<nat>, vs: seq<Data>)
    requires |bs| == |vs| && forall j :: 0 <= j < |bs| ==> bs[j] in home && home[bs[j]] == vs[j]
    ensures Apply(home, bs, vs) == home
    decreases |bs|
  {
    if bs != [] {
      ApplyFixed(home, bs[..|bs| - 1], vs[..|bs| - 1]);
    }
  }

  // Clearing the header once all blocks of its group are installed.
  lemma ClearKeeps(d: Disk, committed: seq<seq<Rec>>, home0: map<nat, Data>)
    requires DiskOk(d) && DiskInv(d, committed, home0) && Installed(d, d.head.n)
    ensures var d' := WriteHeadBlock(d, d.head.(n := 0));
      DiskOk(d') && DiskInv(d', committed, home0)
  {
    var d' := WriteHeadBlock(d, d.head.(n := 0));
    DurableIs(d);
    DurableIs(d');
    ApplyFixed(d.home, Logged(d.head), d.log[..d.head.n]);
  }

  lemma NothingLatest()
    ensures Latest([]) == map[]
  {
  }

  lemma CommitKeeps(s: State, home0: map<nat, Data>)
    requires Inv(s, home0) && Enabled(s, Commit, 0)
    ensures Inv(Do(s, Commit), home0)
  {
    hide Latest, HistInv, DiskInv;
    match s.phase {
      case Logging(i) =>
        if i < s.lh.n {
          LogBlockKeeps(s, i, home0);
        } else {
          CommitPointKeeps(s, home0);
        }
      case Installing(i) =>
        if i < s.lh.n {
          InstallKeeps(s.disk, i, s.committed, home0);
        } else {
          ClearKeeps(s.disk, s.committed, home0);
        }
      case Done =>
        assert Latest([]) == map[] by { NothingLatest(); }
        assert Logged(s.lh) == [];
    }
  }

  // ---------------------------------------------------------------- crash and recovery

  lemma CrashHist(s: State)
    requires HistInv(s.active.Keys, s.nextOp, s.firstOp, s.pending, s.committed, s.all)
    ensures HistInv({}, s.nextOp, s.nextOp, [], s.committed, s.all)
  {
    forall op: nat | s.nextOp <= op ensures Of(s.all, op) == [] {
      OfNone(s.all, op);
    }
    assert forall op: nat :: Of([], op) == [];
    hide Of;
  }

  lemma CrashKeeps(s: State, home0: map<nat, Data>)
    requires Inv(s, home0)
    ensures Inv(Do(s, Crash), home0)
  {
    hide DiskInv, HistInv;
    CrashHist(s);
  }

  lemma RecoverKeeps(s: State, home0: map<nat, Data>)
    requires Inv(s, home0) && Enabled(s, Recover, 0)
    ensures Inv(Do(s, Recover), home0)
  {
    hide DiskInv, HistInv;
    if s.phase.Recovering? {
      if s.phase.i < s.lh.n {
        InstallKeeps(s.disk, s.phase.i, s.committed, home0);
      } else {
        ClearKeeps(s.disk, s.committed, home0);
      }
    }
  }

  // ---------------------------------------------------------------- whole runs

  ghost predicate Run(s: State, steps: seq<Step>, t: State, nlog: nat)
    decreases |steps|
  {
    if steps == [] then s == t
    else Shape(s) && Enabled(s, steps[0], nlog) && Run(Do(s, steps[0]), steps[1..], t, nlog)
  }

  // A freshly made disk, before the first mount.
  ghost predicate IsStart(s: State) {
    && DiskOk(s.disk) && s.disk.head.n == 0
    && s.lh == s.disk.head && s.phase == Down && s.cache == map[]
    && s.outstanding == 0 && !s.committing && s.active == map[]
    && s.nextOp == s.firstOp == 0 && s.pending == [] && s.committed == [] && s.all == []
  }

  lemma StartInv(s: State)
    requires IsStart(s)
    ensures Inv(s, s.disk.home)
  {
    DurableIs(s.disk);
  }

  lemma StepKeeps(s: State, step: Step, nlog: nat, home0: map<nat, Data>)
    requires Inv(s, home0) && Enabled(s, step, nlog)
    ensures Inv(Do(s, step), home0)
  {
    hide Inv, Do;
    match step {
      case Begin => BeginKeeps(s, home0);
      case Write(op, b, v) => WriteKeeps(s, op, b, v, nlog, home0);
      case End(op) => EndKeeps(s, op, home0);
      case Commit => CommitKeeps(s, home0);
      case Crash => CrashKeeps(s, home0);
      case Recover => RecoverKeeps(s, home0);
    }
  }

  lemma StepGrows(s: State, step: Step)
    requires Shape(s)
    ensures s.committed <= Do(s, step).committed
  {
  }

  lemma {:induction false} RunInv(s: State, steps: seq<Step>, t: State, nlog: nat, home0: map<nat, Data>)
    requires Inv(s, home0) && Run(s, steps, t, nlog)
    ensures Inv(t, home0)
    ensures s.committed <= t.committed
    decreases |steps|
  {
    hide Inv, Do, Shape, Enabled;
    if steps != [] {
      StepKeeps(s, steps[0], nlog, home0);
      StepGrows(s, steps[0]);
      RunInv(Do(s, steps[0]), steps[1..], t, nlog, home0);
    }
  }

  /** Crash atomicity: whatever happened, a recovery now would leave exactly the committed groups. */
  lemma CrashAtomic(s0: State, steps: seq<Step>, t: State, nlog: nat)
    requires IsStart(s0) && Run(s0, steps, t, nlog)
    ensures DiskOk(t.disk) && Durable(t.disk) == Replay(s0.disk.home, t.committed)
    // while operations run, in particular after each completed recovery, the home blocks are that already
    ensures t.phase == Running ==> t.disk.home == Replay(s0.disk.home, t.committed)
  {
    StartInv(s0);
    RunInv(s0, steps, t, nlog, s0.disk.home);
    DurableIs(t.disk);
  }

  /** No operation is half applied: a group holds all writes of its operations, all of which have ended. */
  lemma WholeOperations(s0: State, steps: seq<Step>, t: State, nlog: nat, g: seq<Rec>, op: nat)
    requires IsStart(s0) && Run(s0, steps, t, nlog) && g in t.committed && Of(g, op) != []
    ensures Of(g, op) == Of(t.all, op) && op !in t.active
  {
    StartInv(s0);
    RunInv(s0, steps, t, nlog, s0.disk.home);
  }

  /** Committed groups are never lost: they stay, in order, through every later step and crash. */
  lemma CommittedStay(s0: State, steps: seq<Step>, t: State, more: seq<Step>, u: State, nlog: nat)
    requires IsStart(s0) && Run(s0, steps, t, nlog) && Run(t, more, u, nlog)
    ensures t.committed <= u.committed
  {
    StartInv(s0);
    RunInv(s0, steps, t, nlog, s0.disk.home);
    RunInv(t, more, u, nlog, s0.disk.home);
  }

  /** Reservation: space is left for every write still due, so no write of a log of more than LOGSIZE blocks panics. */
  lemma NoPanic(s0: State, steps: seq<Step>, t: State, nlog: nat, op: nat)
    requires IsStart(s0) && Run(s0, steps, t, nlog) && nlog > LOGSIZE
    requires op in t.active && t.active[op] > 0
    ensures t.phase == Running && !WritePanics(t, nlog)
  {
    StartInv(s0);
    RunInv(s0, steps, t, nlog, s0.disk.home);
    WriteMem(t.lh.n, t.lh.n, t.outstanding, t.active, op);
  }

  /** Exclusion and progress: commit runs alone, logged blocks are distinct, and an idle log admits an operation. */
  lemma Exclusion(s0: State, steps: seq<Step>, t: State, nlog: nat)
    requires IsStart(s0) && Run(s0, steps, t, nlog)
    ensures t.outstanding == |t.active|
    ensures t.committing ==> t.outstanding == 0
    ensures t.phase == Running ==> t.lh.n <= |t.lh.block| && NoDup(Logged(t.lh)) && t.lh.n + Budget(t.active) <= LOGSIZE
    ensures t.phase == Running && t.outstanding == 0 ==> Admits(t)
  {
    StartInv(s0);
    RunInv(s0, steps, t, nlog, s0.disk.home);
  }

  // ---------------------------------------------------------------- durability

  // The writes of a run, in order.
  function Writes(steps: seq<Step>): (rs: seq<Rec>) {
    if steps == [] then []
    else WriteOf(steps[0]) + Writes(steps[1..])
  }

  function WriteOf(step: Step): (rs: seq<Rec>) {
    if step.Write? then [Rec(step.op, step.b, step.v)] else []
  }

  function Flat(gs: seq<seq<Rec>>): (rs: seq<Rec>) {
    if gs == [] then [] else Flat(gs[..|gs| - 1]) + gs[|gs| - 1]
  }

  lemma {:induction false} FlatAppend(a: seq<seq<Rec>>, b: seq<seq<Rec>>)
    ensures Flat(a + b) == Flat(a) + Flat(b)
    decreases |b|
  {
    if b == [] {
      assert a + b == a;
    } else {
      var n := |b| - 1;
      assert (a + b)[..|a + b| - 1] == a + b[..n] && (a + b)[|a + b| - 1] == b[n];
      FlatAppend(a, b[..n]);
      assert Flat(a) + Flat(b[..n]) + b[n] == Flat(a) + (Flat(b[..n]) + b[n]);
    }
  }

  // A step that is no crash moves writes from pending to a group, or adds one, and drops none.
  lemma WritesKept(s: State, step: Step, nlog: nat)
    requires Shape(s) && Enabled(s, step, nlog) && step != Crash
    ensures var t := Do(s, step);
      s.committed <= t.committed && s.pending + WriteOf(step) == Flat(t.committed[|s.committed|..]) + t.pending
  {
    var t := Do(s, step);
    assert s.pending + [] == s.pending;
    if t.committed == s.committed {
      assert t.committed[|s.committed|..] == [];
    } else {
      assert t.committed[|s.committed|..] == [s.pending];
      assert Flat([s.pending]) == s.pending;
    }
  }

  lemma Rejoin(p: seq<Rec>, w: seq<Rec>, ws: seq<Rec>, a: seq<Rec>, q: seq<Rec>, b: seq<Rec>, r: seq<Rec>)
    requires p + w == a + q && q + ws == b + r
    ensures p + (w + ws) == a + b + r
  {
    assert p + (w + ws) == (a + q) + ws;
    assert (a + q) + ws == a + (q + ws);
  }

  lemma {:induction false} RunKeepsWrites(s: State, steps: seq<Step>, t: State, nlog: nat)
    requires Run(s, steps, t, nlog) && Crash !in steps
    ensures s.committed <= t.committed
    ensures s.pending + Writes(steps) == Flat(t.committed[|s.committed|..]) + t.pending
    decreases |steps|
  {
    hide Do, Shape, Enabled, Flat, WriteOf;
    if steps == [] {
      assert t.committed[|s.committed|..] == [];
      FlatNone();
    } else {
      var u := Do(s, steps[0]);
      WritesKept(s, steps[0], nlog);
      RunKeepsWrites(u, steps[1..], t, nlog);
      var a, b := u.committed[|s.committed|..], t.committed[|u.committed|..];
      FlatAppend(a, b);
      assert t.committed[|s.committed|..] == a + b;
      Rejoin(s.pending, WriteOf(steps[0]), Writes(steps[1..]), Flat(a), u.pending, Flat(b), t.pending);
    }
  }

  lemma FlatNone()
    ensures Flat([]) == []
  {
  }

  lemma NonePending(s: State, home0: map<nat, Data>)
    requires Inv(s, home0) && (s.phase == Down || (s.phase == Running && s.outstanding == 0))
    ensures s.pending == []
  {
    if s.pending != [] {
      PendingShows(s.pending);
    }
  }

  /** Durability: when the log is idle, all writes since the last crash are in committed groups, in order. */
  lemma AllWritesCommitted(s0: State, steps: seq<Step>, t: State, more: seq<Step>, u: State, nlog: nat)
    requires IsStart(s0) && Run(s0, steps, t, nlog) && t.phase == Down
    requires Run(t, more, u, nlog) && Crash !in more && u.phase == Running && u.outstanding == 0
    ensures t.committed <= u.committed && Writes(more) == Flat(u.committed[|t.committed|..])
  {
    hide Inv, Run, IsStart, Flat, Writes;
    StartInv(s0);
    RunInv(s0, steps, t, nlog, s0.disk.home);
    RunInv(t, more, u, nlog, s0.disk.home);
    RunKeepsWrites(t, more, u, nlog);
    NonePending(t, s0.disk.home);
    NonePending(u, s0.disk.home);
    assert [] + Writes(more) == Writes(more);
    assert Flat(u.committed[|t.committed|..]) + [] == Flat(u.committed[|t.committed|..]);
  }

  // ---------------------------------------------------------------- what operations and crashes do

  /** An operation can begin exactly if no commit runs and all operations, this one included, could still write
      their limit; it is then one more active operation, with its whole limit left. */
  lemma BeginEnters(s: State, nlog: nat, home0: map<nat, Data>)
    requires Inv(s, home0) && s.phase == Running
    ensures Enabled(s, Begin, nlog) <==> s.lh.n + (|s.active| + 1) * MAXOPBLOCKS <= LOGSIZE
    ensures Enabled(s, Begin, nlog) ==>
      exists op: nat :: op !in s.active && Do(s, Begin).active == s.active[op := MAXOPBLOCKS]
    ensures var t := Do(s, Begin);
      t.phase == Running && t.disk == s.disk && t.lh == s.lh && t.cache == s.cache
  {
    hide LogInv, DiskInv;
    BeginHist(s);
    hide HistInv;
    assert s.nextOp !in s.active;
  }

  /** A write puts the content in the cache and the block in the log, once, and uses up one of the operation's writes;
      the disk stays. */
  lemma WriteLogs(s: State, op: nat, b: nat, v: Data, nlog: nat)
    requires Shape(s) && Enabled(s, Write(op, b, v), nlog)
    ensures var t := Do(s, Write(op, b, v));
      && t.disk == s.disk && t.phase == Running && t.cache == s.cache[b := v]
      && t.active == s.active[op := s.active[op] - 1] && t.outstanding == s.outstanding
      && Logged(t.lh) == if b in Logged(s.lh) then Logged(s.lh) else Logged(s.lh) + [b]
  {
  }

  /** Ending takes exactly that operation out; the last one to end starts the commit. */
  lemma EndLeaves(s: State, op: nat, home0: map<nat, Data>)
    requires Inv(s, home0) && s.phase == Running && op in s.active
    ensures var t := Do(s, End(op));
      && t.active == s.active - {op} && t.outstanding == |t.active| && t.disk == s.disk && t.lh == s.lh
      && t.cache == s.cache && t.pending == s.pending && t.committed == s.committed
      && (if t.active == map[] then t.committing && (s.lh.n > 0 ==> t.phase == Logging(0))
          else t.phase == Running && !t.committing)
  {
    hide LogInv, DiskInv, HistInv;
    EndMem(s.lh.n, s.outstanding, s.active, op);
    assert (s.active - {op}).Keys == s.active.Keys - {op};
  }

  /** A crash can come at any time and loses everything but the disk. */
  lemma CrashForgets(s: State, nlog: nat)
    requires Shape(s)
    ensures Enabled(s, Crash, nlog)
    ensures var t := Do(s, Crash);
      && t.disk == s.disk && t.phase == Down && t.cache == map[] && t.active == map[] && t.outstanding == 0
      && !t.committing && t.pending == [] && t.committed == s.committed
  {
  }

  // ---------------------------------------------------------------- recovery and commit run through

  function Times(step: Step, k: nat): (steps: seq<Step>)
    ensures |steps| == k && forall i :: 0 <= i < k ==> steps[i] == step
  {
    seq(k, _ => step)
  }

  lemma TimesMore(step: Step, k: nat)
    ensures Times(step, k + 1) == [step] + Times(step, k)
  {
  }

  lemma RecoverAdvances(s: State, home0: map<nat, Data>)
    requires Inv(s, home0) && s.phase.Recovering?
    ensures Shape(s) && s.phase.i <= s.lh.n && s.lh == s.disk.head
    ensures var t := Do(s, Recover);
      && t.active == map[] && t.committed == s.committed
      && (s.phase.i < s.lh.n ==> t.phase == Recovering(s.phase.i + 1) && t.lh == s.lh)
      && (s.phase.i == s.lh.n ==> t.phase == Running)
  {
    hide DiskInv, HistInv;
  }

  lemma {:induction false} InstallsAll(s: State, nlog: nat, home0: map<nat, Data>) returns (u: State)
    requires Inv(s, home0) && s.phase.Recovering?
    ensures s.phase.i <= s.lh.n && s.lh == s.disk.head
    ensures Run(s, Times(Recover, s.lh.n - s.phase.i + 1), u, nlog)
    ensures Inv(u, home0) && u.phase == Running && u.active == map[] && u.committed == s.committed
    decreases s.lh.n - s.phase.i
  {
    hide Inv, Do, Shape;
    RecoverAdvances(s, home0);
    RecoverKeeps(s, home0);
    var t, k := Do(s, Recover), s.lh.n - s.phase.i;
    TimesMore(Recover, k);
    if k == 0 {
      u := t;
      assert Run(t, Times(Recover, 0), u, nlog);
    } else {
      u := InstallsAll(t, nlog, home0);
    }
    RunFirst(s, Recover, Times(Recover, k), u, nlog);
  }

  /** Recovery, once it is left alone, runs through: it installs what the disk means, clears the header and lets
      operations run again. */
  lemma RecoveryCompletes(s0: State, steps: seq<Step>, t: State, nlog: nat) returns (u: State)
    requires IsStart(s0) && Run(s0, steps, t, nlog) && t.phase == Down
    ensures DiskOk(t.disk) && Run(t, Times(Recover, t.disk.head.n + 2), u, nlog)
    ensures u.phase == Running && u.disk.head.n == 0 && u.committed == t.committed && Admits(u)
    ensures u.disk.home == Replay(s0.disk.home, t.committed)
  {
    hide Run, LogInv, DiskInv, HistInv, IsStart, Replay;
    StartInv(s0);
    RunInv(s0, steps, t, nlog, s0.disk.home);
    RecoverKeeps(t, s0.disk.home);
    var t1 := Do(t, Recover);
    u := InstallsAll(t1, nlog, s0.disk.home);
    TimesMore(Recover, t.disk.head.n + 1);
    RunFirst(t, Recover, Times(Recover, t.disk.head.n + 1), u, nlog);
    RunJoin(s0, steps, t, Times(Recover, t.disk.head.n + 2), u, nlog);
    CrashAtomic(s0, steps + Times(Recover, t.disk.head.n + 2), u, nlog);
    IdleState(u, s0.disk.home);
  }

  lemma {:induction false} RunJoin(s: State, a: seq<Step>, t: State, b: seq<Step>, u: State, nlog: nat)
    requires Run(s, a, t, nlog) && Run(t, b, u, nlog)
    ensures Run(s, a + b, u, nlog)
    decreases |a|
  {
    hide Do, Shape, Enabled;
    if a == [] {
      assert a + b == b;
    } else {
      assert (a + b)[1..] == a[1..] + b;
      RunJoin(Do(s, a[0]), a[1..], t, b, u, nlog);
    }
  }

  lemma {:induction false} RunPrefix(s: State, steps: seq<Step>, t: State, nlog: nat, k: nat) returns (mid: State)
    requires Run(s, steps, t, nlog) && k <= |steps|
    ensures Run(s, steps[..k], mid, nlog) && Run(mid, steps[k..], t, nlog)
    decreases |steps|
  {
    hide Do, Shape, Enabled;
    if k == 0 {
      mid := s;
      assert steps[0..] == steps;
    } else {
      mid := RunPrefix(Do(s, steps[0]), steps[1..], t, nlog, k - 1);
      assert steps[..k][1..] == steps[1..][..k - 1] && steps[k..] == steps[1..][k - 1..];
    }
  }

  /** A crash after any of its steps leaves a state from which recovery runs through again, to the same home blocks. */
  lemma RecoveryAgain(s0: State, steps: seq<Step>, t: State, nlog: nat, k: nat) returns (w: State, u: State)
    requires IsStart(s0) && Run(s0, steps, t, nlog) && t.phase == Down && DiskOk(t.disk) && k <= t.disk.head.n + 2
    ensures Run(t, Times(Recover, k) + [Crash], w, nlog) && w.phase == Down && DiskOk(w.disk)
    ensures Run(w, Times(Recover, w.disk.head.n + 2), u, nlog)
    ensures u.phase == Running && u.disk.head.n == 0 && u.disk.home == Replay(s0.disk.home, t.committed)
  {
    hide Run, IsStart, Replay, Inv;
    var done := RecoveryCompletes(s0, steps, t, nlog);
    var all := Times(Recover, t.disk.head.n + 2);
    var v := RunPrefix(t, all, done, nlog, k);
    assert all[..k] == Times(Recover, k);
    StartInv(s0);
    RunInv(s0, steps, t, nlog, s0.disk.home);
    RunInv(t, Times(Recover, k), v, nlog, s0.disk.home);
    RunInv(v, all[k..], done, nlog, s0.disk.home);
    assert v.committed == t.committed;
    assert Shape(v) by { InvShape(v, s0.disk.home); }
    w := Do(v, Crash);
    RunMore(t, Times(Recover, k), v, Crash, nlog);
    var more := Times(Recover, k) + [Crash];
    RunJoin(s0, steps, t, more, w, nlog);
    u := RecoveryCompletes(s0, steps + more, w, nlog);
  }

  lemma InvShape(s: State, home0: map<nat, Data>)
    requires Inv(s, home0)
    ensures Shape(s)
  {
  }

  // Steps a commit still has to make.
  function Remaining(s: State): (k: nat) {
    match s.phase
    case Logging(i) => if i <= s.lh.n then 2 * s.lh.n - i + 3 else 0
    case Installing(i) => if i <= s.lh.n then s.lh.n - i + 2 else 0
    case Done => 1
    case _ => 0
  }

  lemma CommitAdvances(s: State, home0: map<nat, Data>)
    requires Inv(s, home0) && s.committing
    ensures Enabled(s, Commit, 0) && Remaining(s) > 0
    ensures var t := Do(s, Commit);
      && Remaining(t) == Remaining(s) - 1 && (t.committing <==> Remaining(t) > 0)
      && t.active == map[] && (Remaining(t) == 0 ==> t.phase == Running)
      && t.committed + (if t.phase.Logging? then [t.pending] else []) ==
         s.committed + (if s.phase.Logging? then [s.pending] else [])
  {
    hide DiskInv, HistInv;
  }

  /** A commit, once it is left alone, runs through: its group is committed, and the log is empty and takes operations
      again. */
  lemma {:induction false} CommitCompletes(s: State, nlog: nat, home0: map<nat, Data>) returns (u: State)
    requires Inv(s, home0) && s.committing
    ensures Run(s, Times(Commit, Remaining(s)), u, nlog)
    ensures u.phase == Running && !u.committing && Admits(u) && u.active == map[] && u.lh.n == 0 && u.disk.head.n == 0
    ensures u.committed == s.committed + if s.phase.Logging? then [s.pending] else []
    decreases Remaining(s)
  {
    CommitAdvances(s, home0);
    CommitKeeps(s, home0);
    var t, k := Do(s, Commit), Remaining(s) - 1;
    TimesMore(Commit, k);
    if k == 0 {
      u := t;
      assert Run(t, Times(Commit, 0), u, nlog);
      IdleState(u, home0);
    } else {
      u := CommitCompletes(t, nlog, home0);
    }
    hide Inv, Do;
    assert Shape(s) by { InvShape(s, home0); }
    RunFirst(s, Commit, Times(Commit, k), u, nlog);
  }

  lemma IdleState(s: State, home0: map<nat, Data>)
    requires Inv(s, home0) && s.phase == Running && s.active == map[]
    ensures Admits(s) && s.lh.n == 0 && s.disk.head.n == 0
  {
    hide DiskInv, HistInv;
  }

  // ---------------------------------------------------------------- the class commits by these steps

  // Where a commit of n blocks is after k of its block writes.
  function PhaseAt(n: nat, k: nat): (p: Phase) {
    if k <= n then Logging(k) else if k <= 2 * n + 1 then Installing(k - n - 1) else Done
  }

  /** The commit of group h with contents vs, started on disk d, has made the first k block writes of the log class. */
  ghost predicate Along(s: State, d: Disk, h: Header, vs: seq<Data>, k: nat) {
    && DiskOk(d) && h.n <= LOGSIZE == |h.block| && |vs| == h.n && k <= |CommitTrace(d, h, vs)|
    && s.phase == PhaseAt(h.n, k)
    && s.disk == (if k == 0 then d else CommitTrace(d, h, vs)[k - 1])
    && s.lh == (if s.phase == Done then h.(n := 0) else h)
    && (k <= h.n ==> forall i :: 0 <= i < h.n ==> h.block[i] in s.cache && s.cache[h.block[i]] == vs[i])
  }

  lemma AlongStart(s: State, op: nat, home0: map<nat, Data>)
    requires Inv(s, home0) && s.phase == Running && op in s.active && s.outstanding == 1 && s.lh.n > 0
    ensures forall b :: b in Logged(s.lh) ==> b in s.cache
    ensures Along(Do(s, End(op)), s.disk, s.lh, Contents(Logged(s.lh), s.cache), 0)
  {
    hide HistInv, MemInv, DiskInv;
    forall i | 0 <= i < s.lh.n ensures s.lh.block[i] in s.cache {
      assert s.lh.block[i] == Logged(s.lh)[i];
    }
  }

  /** Every block write of the class is one step of the protocol, in the same order and to the same effect. */
  lemma AlongStep(s: State, d: Disk, h: Header, vs: seq<Data>, k: nat)
    requires Shape(s) && Along(s, d, h, vs, k) && k < |CommitTrace(d, h, vs)|
    ensures Along(CommitStep(s), d, h, vs, k + 1)
  {
    if k <= h.n {
      AlongLogging(s, d, h, vs, k);
    } else {
      AlongInstalling(s, d, h, vs, k);
    }
  }

  lemma AlongLogging(s: State, d: Disk, h: Header, vs: seq<Data>, k: nat)
    requires Shape(s) && Along(s, d, h, vs, k) && k <= h.n && k < |CommitTrace(d, h, vs)|
    ensures Along(CommitStep(s), d, h, vs, k + 1)
  {
    hide CommitTrace, Copied, Moved;
    CommitTraceAt(d, h, vs, k);
    if k > 0 {
      CommitTraceAt(d, h, vs, k - 1);
    }
    assert s.disk == Copied(d, vs, k);
  }

  lemma AlongInstalling(s: State, d: Disk, h: Header, vs: seq<Data>, k: nat)
    requires Shape(s) && Along(s, d, h, vs, k) && h.n < k < |CommitTrace(d, h, vs)|
    ensures Along(CommitStep(s), d, h, vs, k + 1)
  {
    hide CommitTrace, Copied, Moved, Apply, DiskOk;
    CommitTraceAt(d, h, vs, k);
    CommitTraceAt(d, h, vs, k - 1);
    assert s.disk == Moved(WriteHeadBlock(Copied(d, vs, h.n), h), k - h.n - 1);
  }

  // ---------------------------------------------------------------- a log area of LOGSIZE blocks

  lemma {:induction false} RunMore(s: State, steps: seq<Step>, t: State, step: Step, nlog: nat)
    requires Run(s, steps, t, nlog) && Shape(t) && Enabled(t, step, nlog)
    ensures Run(s, steps + [step], Do(t, step), nlog)
    decreases |steps|
  {
    hide Do, Shape, Enabled;
    if steps == [] {
      assert Run(Do(t, step), [], Do(t, step), nlog);
    } else {
      assert (steps + [step])[1..] == steps[1..] + [step];
      RunMore(Do(s, steps[0]), steps[1..], t, step, nlog);
    }
  }

  // Writes that operation j has left when the operations have made n writes, ten each in turn.
  function Left(j: nat, n: nat): (r: nat) {
    if n < j * MAXOPBLOCKS then MAXOPBLOCKS
    else if n < (j + 1) * MAXOPBLOCKS then (j + 1) * MAXOPBLOCKS - n
    else 0
  }

  ghost predicate Filled(t: State, n: nat) {
    && Shape(t) && t.phase == Running && t.outstanding == 3 && t.lh.n == n
    && (forall b :: b in Logged(t.lh) ==> b < n)
    && (forall b: nat :: b < LOGSIZE ==> b in t.disk.home)
    && t.active.Keys == {0, 1, 2}
    && (forall j: nat :: j < 3 ==> t.active[j] == Left(j, n))
  }

  function Blank(b: nat): (v: Data) {
    []
  }

  lemma Opened() returns (s0: State, steps: seq<Step>, t: State)
    ensures IsStart(s0) && Filled(t, 0) && forall nlog: nat :: Run(s0, steps, t, nlog)
  {
    var home: map<nat, Data> := map b: nat | b < LOGSIZE :: Blank(b);
    var head := Header(0, seq(LOGSIZE, _ => 0));
    var disk := Disk(head, seq(LOGSIZE, _ => []), home);
    s0 := State(disk, Down, head, map[], 0, false, map[], 0, 0, [], [], []);
    var s1 := Do(s0, Recover);
    var s2 := Do(s1, Recover);
    var s3 := Do(s2, Begin);
    var s4 := Do(s3, Begin);
    t := Do(s4, Begin);
    steps := [Recover] + ([Recover] + ([Begin] + ([Begin] + ([Begin] + []))));
    forall nlog: nat ensures Run(s0, steps, t, nlog) {
      assert Run(t, [], t, nlog);
      RunFirst(s4, Begin, [], t, nlog);
      RunFirst(s3, Begin, [Begin] + [], t, nlog);
      RunFirst(s2, Begin, [Begin] + ([Begin] + []), t, nlog);
      RunFirst(s1, Recover, [Begin] + ([Begin] + ([Begin] + [])), t, nlog);
      RunFirst(s0, Recover, [Recover] + ([Begin] + ([Begin] + ([Begin] + []))), t, nlog);
    }
  }

  lemma RunFirst(s: State, step: Step, steps: seq<Step>, t: State, nlog: nat)
    requires Shape(s) && Enabled(s, step, nlog) && Run(Do(s, step), steps, t, nlog)
    ensures Run(s, [step] + steps, t, nlog)
  {
    hide Do, Shape, Enabled;
    assert ([step] + steps)[1..] == steps;
  }

  lemma LeftAfter(n: nat, op: nat)
    requires op == n / MAXOPBLOCKS < 3
    ensures Left(op, n) > 0 && Left(op, n + 1) == Left(op, n) - 1
    ensures forall j: nat :: j < 3 && j != op ==> Left(j, n + 1) == Left(j, n)
  {
  }

  lemma FillOne(t: State, n: nat, nlog: nat)
    requires Filled(t, n) && n + 1 < nlog <= LOGSIZE
    ensures var step := Write(n / MAXOPBLOCKS, n, []);
      Enabled(t, step, nlog) && Filled(Do(t, step), n + 1)
  {
    var op, u := n / MAXOPBLOCKS, Do(t, Write(n / MAXOPBLOCKS, n, []));
    assert n !in Logged(t.lh);
    assert Logged(u.lh) == Logged(t.lh) + [n];
    LeftAfter(n, op);
    hide Left;
  }

  lemma {:induction false} Fill(nlog: nat, n: nat) returns (s0: State, steps: seq<Step>, t: State)
    requires n < nlog <= LOGSIZE
    ensures IsStart(s0) && Run(s0, steps, t, nlog) && Filled(t, n)
  {
    if n == 0 {
      s0, steps, t := Opened();
    } else {
      s0, steps, t := Fill(nlog, n - 1);
      var step := Write((n - 1) / MAXOPBLOCKS, n - 1, []);
      FillOne(t, n - 1, nlog);
      hide Do, Shape, Enabled, IsStart;
      RunMore(s0, steps, t, step, nlog);
      steps, t := steps + [step], Do(t, step);
    }
  }

  /** With a log area of at most LOGSIZE blocks, as mkfs makes it, a write within its operation's limit can panic. */
  lemma SmallLogPanics(nlog: nat) returns (s0: State, steps: seq<Step>, t: State, op: nat)
    requires 1 <= nlog <= LOGSIZE
    ensures IsStart(s0) && Run(s0, steps, t, nlog)
    ensures t.phase == Running && op in t.active && t.active[op] > 0 && WritePanics(t, nlog)
  {
    s0, steps, t := Fill(nlog, nlog - 1);
    op := (nlog - 1) / MAXOPBLOCKS;
  }
}
