/**
 The redo log: reserving space, absorbing writes, and commit and recovery as sequences of
 single block writes.  The disk records every state it passes through, so that contracts
 can speak about a crash after any one of those writes.
 */
module RedoLog {
  import opened LogBudget
  import opened LogDisk
  import opened Seqs

  class Device {
    var now: Disk
    ghost var trace: seq<Disk>  // the disk after each block write so far

    constructor (d: Disk)
      ensures now == d && trace == []
    {
      now, trace := d, [];
    }

    method WriteLog(i: nat, v: Data)
      requires i < |now.log|
      modifies this
      ensures now == WriteLogBlock(old(now), i, v) && trace == old(trace) + [now]
    {
      now := WriteLogBlock(now, i, v);
      trace := trace + [now];
    }

    method WriteHome(b: nat, v: Data)
      modifies this
      ensures now == WriteHomeBlock(old(now), b, v) && trace == old(trace) + [now]
    {
      now := WriteHomeBlock(now, b, v);
      trace := trace + [now];
    }

    method WriteHead(h: Header)
      modifies this
      ensures now == WriteHeadBlock(old(now), h) && trace == old(trace) + [now]
    {
      now := WriteHeadBlock(now, h);
      trace := trace + [now];
    }
  }

  lemma TracesJoin(t: seq<Disk>, t': seq<Disk>, d: Disk, h: Header, vs: seq<Data>)
    requires DiskOk(d) && h.n <= LOGSIZE == |h.block| && |vs| == h.n > 0
    requires var d1 := WriteHeadBlock(Copied(d, vs, h.n), h);
      t' == t + CopyTrace(d, vs, h.n) + [d1] + MoveTrace(d1, h.n) + [WriteHeadBlock(Moved(d1, h.n), h.(n := 0))]
    ensures var ds := CommitTrace(d, h, vs);
      t' == t + ds && t'[|t|..|t| + h.n] == ds[..h.n] && t'[|t| + h.n..] == ds[h.n..] && t'[|t'| - 1] == ds[|ds| - 1]
  {
    hide Copied, Moved, CopyTrace, MoveTrace;
    assert t' == t + CommitTrace(d, h, vs);
  }

  function Contents(bs: seq<nat>, pinned: map<nat, Data>): (vs: seq<Data>)
    requires forall b :: b in bs ==> b in pinned
    ensures |vs| == |bs| && forall i :: 0 <= i < |bs| ==> vs[i] == pinned[bs[i]]
  {
    seq(|bs|, i requires 0 <= i < |bs| => assert bs[i] in bs; pinned[bs[i]])
  }

  class Log {
    const size: nat             // blocks in the log area, header included
    var outstanding: nat
    var committing: bool
    var lh: Header
    var pinned: map<nat, Data>  // buffers of the logged blocks, held in the cache until installed
    const dev: Device
    ghost var active: map<nat, nat>  // running operations and the writes each has left
    ghost var nextOp: nat
    ghost var kept: bool             // no operation has written more than it may

    /** Space is reserved for every write still due, as long as all operations keep to their limit. */
    ghost predicate Reserved()
      reads this
    {
      && outstanding == |active|
      && (forall op <- active :: op < nextOp && active[op] <= MAXOPBLOCKS)
      && (kept ==> lh.n + Budget(active) <= LOGSIZE)
      && (outstanding == 0 ==> lh.n == 0)
    }

    ghost predicate Valid()
      reads this, dev
    {
      && DiskOk(dev.now) && dev.now.head.n == 0
      && HeaderOk(lh, dev.now.home)
      && NoDup(lh.block[..lh.n])
      && (forall b :: b in pinned <==> b in lh.block[..lh.n])
      && (committing ==> outstanding == 0)
    }

    // The contents commit will log, in log order.
    ghost function Group(): (vs: seq<Data>)
      requires lh.n <= |lh.block| && forall b :: b in lh.block[..lh.n] ==> b in pinned
      reads this
    {
      Contents(lh.block[..lh.n], pinned)
    }

    // Copy the logged blocks, whose copies are on disk, to their home locations.
    method InstallTrans(recovering: bool)
      requires DiskOk(dev.now) && lh == dev.now.head
      modifies this`pinned, dev
      ensures dev.now == old(dev.now).(home := Durable(old(dev.now))) == Moved(old(dev.now), lh.n)
      ensures DiskOk(dev.now) && dev.now.home.Keys == old(dev.now).home.Keys && Durable(dev.now) == dev.now.home
      ensures dev.trace == old(dev.trace) + MoveTrace(old(dev.now), lh.n)
      ensures AllMean(MoveTrace(old(dev.now), lh.n), Durable(old(dev.now)))
      ensures recovering ==> pinned == old(pinned)
      ensures !recovering ==> pinned == old(pinned) - (set b | b in lh.block[..lh.n])
    {
      hide Apply, Durable, Moved, MoveTrace;
      ghost var d, t := dev.now, dev.trace;
      var tail := 0;
      NoneWritten(d, []);
      while tail < lh.n
        invariant 0 <= tail <= lh.n && lh == d.head
        invariant dev.now == Moved(d, tail) && dev.trace == t + MoveTrace(d, tail)
        invariant recovering ==> pinned == old(pinned)
        invariant !recovering ==> pinned == old(pinned) - (set b | b in lh.block[..tail])
      {
        MoveMore(d, tail);
        dev.WriteHome(lh.block[tail], dev.now.log[tail]);
        if !recovering {
          pinned := pinned - {lh.block[tail]};
        }
        tail := tail + 1;
      }
      MovesMean(d, lh.n);
      AllMoved(d);
    }

    // Copy the pinned buffers to the log blocks; nothing on disk refers to them yet.
    method WriteLog()
      requires Valid()
      modifies dev
      ensures Valid() && dev.now == Copied(old(dev.now), Group(), lh.n) && dev.now.log[..lh.n] == Group()
      ensures dev.trace == old(dev.trace) + CopyTrace(old(dev.now), Group(), lh.n)
      ensures AllMean(CopyTrace(old(dev.now), Group(), lh.n), old(dev.now).home)
    {
      hide Durable, CopyTrace;
      ghost var d, t := dev.now, dev.trace;
      var tail := 0;
      NoneWritten(d, Group());
      while tail < lh.n
        invariant 0 <= tail <= lh.n && |dev.now.log| == LOGSIZE
        invariant dev.now == Copied(d, Group(), tail) && dev.trace == t + CopyTrace(d, Group(), tail)
      {
        assert lh.block[..lh.n][tail] == lh.block[tail];
        CopyMore(d, Group(), tail);
        dev.WriteLog(tail, pinned[lh.block[tail]]);
        tail := tail + 1;
      }
      CopiesMean(d, Group(), lh.n);
    }

    // The commit of a group.  A crash after any of its block writes recovers to the home blocks
    // before the group, up to some write, and to the home blocks after the group from there on.  The block
    // writes are those of CommitTrace, one by one.
    method Commit() returns (ghost point: nat)
      requires Valid()
      modifies this`lh, this`pinned, dev
      ensures Valid() && lh.n == 0
      ensures dev.now.home == Apply(old(dev.now).home, old(lh).block[..old(lh).n], old(Group()))
      ensures old(dev.trace) <= dev.trace && |old(dev.trace)| <= point <= |dev.trace|
      ensures AllMean(dev.trace[|old(dev.trace)|..point], old(dev.now).home)
      ensures AllMean(dev.trace[point..], dev.now.home)
      ensures dev.trace == old(dev.trace) + CommitTrace(old(dev.now), old(lh), old(Group()))
      ensures dev.now.home.Keys == old(dev.now).home.Keys
    {
      hide Apply, Durable, Contents, Copied, Moved, CopyTrace, MoveTrace, CommitTrace;
      DurableIs(dev.now);
      point := |dev.trace|;
      if lh.n > 0 {
        ghost var d, t, vs := dev.now, dev.trace, Group();
        CommitMeans(d, lh, vs);
        WriteLog();
        point := |dev.trace|;
        HeadWritten(dev.now, lh, vs);
        dev.WriteHead(lh);
        InstallTrans(false);
        lh := lh.(n := 0);
        dev.WriteHead(lh);
        TracesJoin(t, dev.trace, d, old(lh), vs);
      }
    }

    // Mounting: recover whatever group the disk holds.  A crash inside recovery changes nothing that
    // a later recovery would find.
    constructor (device: Device, nlog: nat)
      requires DiskOk(device.now)
      modifies device
      ensures Valid() && Reserved() && dev == device && size == nlog && outstanding == 0 && !committing && lh.n == 0
      ensures active == map[] && kept
      ensures dev.now.home == Durable(old(device.now))
      ensures old(device.trace) <= dev.trace
      ensures AllMean(dev.trace[|old(device.trace)|..], Durable(old(device.now)))
    {
      dev, size := device, nlog;
      outstanding, committing, pinned := 0, false, map[];
      active, nextOp, kept := map[], 0, true;
      lh := device.now.head;
      new;
      InstallTrans(true);
      ghost var moves := MoveTrace(old(device.now), lh.n);
      lh := lh.(n := 0);
      dev.WriteHead(lh);
      DurableIs(dev.now);
      assert dev.trace[|old(device.trace)|..] == moves + [dev.now];
    }

    // One round of begin_op: enter if the log cannot run out, whatever the operations running still write.
    method TryBegin() returns (admitted: bool, ghost op: nat)
      requires Valid() && Reserved()
      modifies this`outstanding, this`active, this`nextOp
      ensures Valid() && Reserved()
      ensures admitted <==> !committing && lh.n + (old(outstanding) + 1) * MAXOPBLOCKS <= LOGSIZE
      ensures old(outstanding) == 0 && !committing ==> admitted
      ensures admitted ==> op !in old(active) && active == old(active)[op := MAXOPBLOCKS]
      ensures !admitted ==> active == old(active) && outstanding == old(outstanding)
    {
      hide Budget;
      op := nextOp;
      admitted := !committing && lh.n + (outstanding + 1) * MAXOPBLOCKS <= LOGSIZE;
      if admitted {
        outstanding := outstanding + 1;
        BudgetBound(active);
        BudgetSet(active, op, MAXOPBLOCKS);
        assert active - {op} == active;
        assert active[op := MAXOPBLOCKS].Keys == active.Keys + {op};
        active, nextOp := active[op := MAXOPBLOCKS], nextOp + 1;
      }
    }

    // What another thread does to the log while one sleeps.
    method Perform(act: Act)
      requires Valid() && Reserved() && (act.Log? ==> act.b in dev.now.home)
      modifies this, dev
      ensures Valid() && Reserved() && dev.now.home.Keys == old(dev.now).home.Keys
      ensures old(kept) && !act.Log? ==> kept
      // entering adds an operation if there is room, leaving takes one out, and the last to leave empties the log
      ensures act.Enter? ==> lh == old(lh) && committing == old(committing)
      ensures act.Enter? ==>
        var room := !committing && lh.n + (old(outstanding) + 1) * MAXOPBLOCKS <= LOGSIZE;
        outstanding == if room then old(outstanding) + 1 else old(outstanding)
      ensures act.Leave? && old(outstanding) > 0 ==> outstanding == old(outstanding) - 1 && !committing
      ensures act.Leave? ==> if old(outstanding) == 1 then lh.n == 0 else lh == old(lh)
      ensures act.Leave? && old(outstanding) == 0 ==> outstanding == 0 && committing == old(committing)
      // writing changes the log only if it does not panic
      ensures act.Log? ==> outstanding == old(outstanding) && committing == old(committing)
      ensures act.Log? && old(lh).n < LOGSIZE && old(lh).n + 1 < size && outstanding >= 1 ==>
        pinned == old(pinned)[act.b := act.v] && lh.n == old(lh).n + if act.b in old(pinned) then 0 else 1
      ensures act.Log? && !(old(lh).n < LOGSIZE && old(lh).n + 1 < size && outstanding >= 1) ==>
        lh == old(lh) && pinned == old(pinned)
    {
      hide Budget, CommitTrace, Apply, AllMean, Contents, DiskOk, NoDup, HeaderOk;
      match act {
        case Enter =>
          var admitted, op := TryBegin();
        case Log(b, v) =>
          ghost var op :| outstanding > 0 ==> op in active by { SomeOp(active); }
          var ok := Write(b, v, op);
        case Leave =>
          if outstanding > 0 {
            ghost var op :| op in active by { SomeOp(active); }
            ghost var point := EndOp(op);
          }
      }
    }

    // begin_op: sleep until there is room, and then enter.  While it sleeps other threads act; used of the acts
    // were needed.
    method BeginOp(acts: seq<Act>) returns (admitted: bool, used: nat, ghost op: nat)
      requires Valid() && Reserved()
      requires forall i :: 0 <= i < |acts| && acts[i].Log? ==> acts[i].b in dev.now.home
      modifies this, dev
      ensures Valid() && Reserved() && used <= |acts|
      // it enters at once exactly if there is room at once, and waits on only with the log full or committing
      ensures !old(committing) && old(lh).n + (old(outstanding) + 1) * MAXOPBLOCKS <= LOGSIZE <==> admitted && used == 0
      ensures admitted ==> op in active && active[op] == MAXOPBLOCKS && outstanding > 0 && !committing
      ensures admitted && kept ==> lh.n + Budget(active) <= LOGSIZE
      ensures !admitted ==> used == |acts| && (committing || lh.n + (outstanding + 1) * MAXOPBLOCKS > LOGSIZE)
      // it is let in at the latest when all others have left
      ensures !old(committing) && (forall a <- acts :: a.Leave?) && |acts| >= old(outstanding) ==> admitted
    {
      hide Valid, Budget;
      used := 0;
      admitted, op := TryBegin();
      while !admitted && used < |acts|
        invariant Valid() && Reserved() && used <= |acts| && dev.now.home.Keys == old(dev.now).home.Keys
        invariant admitted ==> op in active && active[op] == MAXOPBLOCKS && outstanding > 0 && !committing
        invariant !admitted ==> committing || lh.n + (outstanding + 1) * MAXOPBLOCKS > LOGSIZE
        invariant !old(committing) && old(lh).n + (old(outstanding) + 1) * MAXOPBLOCKS <= LOGSIZE <==>
          admitted && used == 0
        invariant !admitted && !old(committing) && (forall a <- acts :: a.Leave?) ==>
          !committing && outstanding + used == old(outstanding)
      {
        Perform(acts[used]);
        used := used + 1;
        admitted, op := TryBegin();
      }
    }

    // Log a block whose new content is v for operation op; false means the panic for too big a transaction or for
    // no transaction.  An operation within its limit never meets it if the log area has more than LOGSIZE blocks.
    method Write(b: nat, v: Data, ghost op: nat) returns (ok: bool)
      requires Valid() && Reserved() && b in dev.now.home
      modifies this`lh, this`pinned, this`active, this`kept
      ensures Valid() && Reserved()
      ensures ok <==> old(lh).n < LOGSIZE && old(lh).n + 1 < size && outstanding >= 1
      ensures old(kept) && Within(old(active), op) && size > LOGSIZE ==> ok
      ensures kept == (old(kept) && (ok ==> Within(old(active), op)))
      ensures active == if ok && Within(old(active), op) then old(active)[op := old(active)[op] - 1] else old(active)
      ensures !ok ==> lh == old(lh) && pinned == old(pinned)
      ensures ok ==> pinned == old(pinned)[b := v]
      ensures ok && b in old(pinned) ==> lh == old(lh)
      ensures ok && b !in old(pinned) ==>
        lh.n == old(lh).n + 1 && lh.block[..lh.n] == old(lh).block[..old(lh).n] + [b]
    {
      hide Budget;
      if Within(active, op) {
        BudgetWithout(active, op);
        NotEmpty(active, op);
      }
      if lh.n >= LOGSIZE || lh.n + 1 >= size || outstanding < 1 {
        return false;
      }
      Charge(op);
      Absorb(b, v);
      return true;
    }

    // Note the block in the header unless it is there already.
    method Absorb(b: nat, v: Data)
      requires Valid() && b in dev.now.home && lh.n < LOGSIZE
      modifies this`lh, this`pinned
      ensures Valid() && pinned == old(pinned)[b := v] && lh.n <= old(lh).n + 1
      ensures b in old(pinned) ==> lh == old(lh)
      ensures b !in old(pinned) ==>
        lh.n == old(lh).n + 1 && lh.block[..lh.n] == old(lh).block[..old(lh).n] + [b]
    {
      var i := 0;
      while i < lh.n
        invariant 0 <= i <= lh.n && b !in lh.block[..i]
      {
        if lh.block[i] == b {
          assert b in lh.block[..lh.n];
          pinned := pinned[b := v];
          return;  // log absorption
        }
        i := i + 1;
      }
      ghost var was := lh.block[..lh.n];
      lh := Header(lh.n + 1, lh.block[lh.n := b]);
      pinned := pinned[b := v];
      assert lh.block[..lh.n] == was + [b];
    }

    // Take one write off what the operation has left.
    ghost method Charge(op: nat)
      requires Reserved() && outstanding > 0
      modifies this`active, this`kept
      ensures Reserved() && (kept ==> lh.n + 1 + Budget(active) <= LOGSIZE)
      ensures kept == (old(kept) && Within(old(active), op))
      ensures active == if Within(old(active), op) then old(active)[op := old(active)[op] - 1] else old(active)
    {
      hide Budget;
      if Within(active, op) {
        BudgetWithout(active, op);
        BudgetSet(active, op, active[op] - 1);
        assert active[op := active[op] - 1].Keys == active.Keys;
        active := active[op := active[op] - 1];
      } else {
        kept := false;
      }
    }

    // End an operation, committing if it was the last one.
    method EndOp(ghost op: nat) returns (ghost point: nat)
      requires Valid() && Reserved() && op in active
      modifies this`outstanding, this`committing, this`lh, this`pinned, this`active, dev
      ensures Valid() && Reserved() && active == old(active) - {op}
      ensures outstanding == old(outstanding) - 1 && !committing
      ensures dev.now.home.Keys == old(dev.now).home.Keys
      ensures outstanding > 0 ==> lh == old(lh) && pinned == old(pinned) && unchanged(dev)
      ensures outstanding == 0 ==>
        && lh.n == 0
        && dev.now.home == Apply(old(dev.now).home, old(lh).block[..old(lh).n], old(Group()))
        && dev.trace == old(dev.trace) + CommitTrace(old(dev.now), old(lh), old(Group()))
        && |old(dev.trace)| <= point <= |dev.trace|
        && AllMean(dev.trace[|old(dev.trace)|..point], old(dev.now).home)
        && AllMean(dev.trace[point..], dev.now.home)
    {
      hide Budget, CommitTrace;
      point := |dev.trace|;
      BudgetWithout(active, op);
      NotEmpty(active, op);
      active := active - {op};
      outstanding := outstanding - 1;
      if outstanding == 0 {
        committing := true;
        point := Commit();
        committing := false;
        NoBudget(active);
      }
    }
  }

  // The operation runs and has a write left.
  predicate Within(active: map<nat, nat>, op: nat) {
    op in active && active[op] > 0
  }

  // What another thread can do to the log.
  datatype Act = Enter | Log(b: nat, v: Data) | Leave

  lemma NotEmpty(active: map<nat, nat>, op: nat)
    requires op in active
    ensures |active| > 0 && |active - {op}| == |active| - 1
  {
    assert (active - {op}).Keys == active.Keys - {op};
  }

  lemma SomeOp(active: map<nat, nat>)
    ensures |active| > 0 ==> exists op :: op in active
  {
    if |active| > 0 {
      var op :| op in active.Keys;
      assert op in active;
    }
  }

  lemma NoBudget(active: map<nat, nat>)
    requires |active| == 0
    ensures Budget(active) == 0
  {
    assert active.Keys == {};
    assert active == map[];
  }
}
