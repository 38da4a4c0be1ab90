/**
 The console line discipline: a ring of 128 bytes with wrapping read, write and edit indices
 that stands for a queue of committed bytes followed by the line still being edited.
 */
module Console {

  const INPUT_BUF_SIZE := 128
  const WORD := 0x1_0000_0000_0000_0000  // indices wrap at 64 bits

  type Byte = x: nat | x < 256

  const CTRL_D: Byte := 0x04
  const CTRL_P: Byte := 0x10
  const CTRL_U: Byte := 0x15
  const DEL: Byte := 0x7F   // ctrl('H') | 0x7f: the only byte that erases
  const NL: Byte := 0x0A
  const CR: Byte := 0x0D

  // ---------------------------------------------------------------- specification

  // Bytes ready for readers, and the line being edited.
  datatype Queue = Queue(ready: seq<Byte>, line: seq<Byte>)

  predicate EndsLine(c: Byte) {
    c == NL || c == CTRL_D
  }

  /** The queue fits the ring, and the line being edited holds no end of line. */
  predicate QueueOk(q: Queue) {
    && |q.ready| + |q.line| <= INPUT_BUF_SIZE
    && (q.line != [] ==> |q.ready| + |q.line| < INPUT_BUF_SIZE)
    && forall i :: 0 <= i < |q.line| ==> !EndsLine(q.line[i])
  }

  function Typed(q: Queue, c: Byte): (q': Queue) {
    if c == CTRL_P then q
    else if c == CTRL_U then q.(line := [])
    else if c == DEL then q.(line := if q.line == [] then [] else q.line[..|q.line| - 1])
    else if c == 0 || |q.ready| + |q.line| >= INPUT_BUF_SIZE then q
    else
      var b := if c == CR then NL else c;
      var line := q.line + [b];
      if EndsLine(b) || |q.ready| + |line| == INPUT_BUF_SIZE then Queue(q.ready + line, [])
      else q.(line := line)
  }

  function TypedAll(q: Queue, cs: seq<Byte>): (q': Queue) {
    if cs == [] then q else Typed(TypedAll(q, cs[..|cs| - 1]), cs[|cs| - 1])
  }

  lemma TypedOk(q: Queue, c: Byte)
    requires QueueOk(q)
    ensures QueueOk(Typed(q, c)) && q.ready <= Typed(q, c).ready
  {
  }

  // A byte that is neither an editing command nor an end of line.
  predicate Plain(c: Byte) {
    c != 0 && c != CTRL_P && c != CTRL_U && c != DEL && c != CR && !EndsLine(c)
  }

  lemma {:induction false} TypedPlain(q: Queue, cs: seq<Byte>)
    requires forall i :: 0 <= i < |cs| ==> Plain(cs[i])
    requires |q.ready| + |q.line| + |cs| < INPUT_BUF_SIZE
    ensures TypedAll(q, cs) == Queue(q.ready, q.line + cs)
    decreases |cs|
  {
    if cs == [] {
      assert q.line + [] == q.line;
    } else {
      var n := |cs| - 1;
      TypedPlain(q, cs[..n]);
      assert q.line + cs == q.line + cs[..n] + [cs[n]];
    }
  }

  lemma TypedMore(q: Queue, cs: seq<Byte>, c: Byte)
    ensures TypedAll(q, cs + [c]) == Typed(TypedAll(q, cs), c)
  {
    assert (cs + [c])[..|cs|] == cs;
  }

  /** Kill-line erases exactly what was typed since the last commit, erase exactly the last of it. */
  lemma {:induction false} EditingUndoes(q: Queue, cs: seq<Byte>, c: Byte)
    requires q.line == [] && forall i :: 0 <= i < |cs| ==> Plain(cs[i])
    requires Plain(c) && |q.ready| + |cs| + 1 < INPUT_BUF_SIZE
    ensures TypedAll(q, cs + [CTRL_U]) == q
    ensures TypedAll(q, cs + [c, DEL]) == TypedAll(q, cs)
  {
    hide TypedAll;
    TypedPlain(q, cs);
    TypedMore(q, cs, CTRL_U);
    TypedPlain(q, cs + [c]);
    TypedMore(q, cs + [c], DEL);
    assert cs + [c] + [DEL] == cs + [c, DEL];
    assert [] + cs == cs;
  }

  /** A line that fits is committed whole, in order, by its newline. */
  lemma {:induction false} LineCommits(q: Queue, cs: seq<Byte>)
    requires q.line == [] && forall i :: 0 <= i < |cs| ==> Plain(cs[i])
    requires |q.ready| + |cs| < INPUT_BUF_SIZE
    ensures TypedAll(q, cs + [CR]) == Queue(q.ready + cs + [NL], [])
  {
    hide TypedAll;
    TypedPlain(q, cs);
    TypedMore(q, cs, CR);
    assert [] + cs == cs;
    assert q.ready + (cs + [NL]) == q.ready + cs + [NL];
  }

  /** The byte that takes the last place of the ring commits all there is, finished line or not; */
  lemma LastPlaceCommits(q: Queue, c: Byte)
    requires |q.ready| + |q.line| == INPUT_BUF_SIZE - 1 && c != 0 && c != CTRL_P && c != CTRL_U && c != DEL
    ensures Typed(q, c) == Queue(q.ready + q.line + [if c == CR then NL else c], [])
  {
    var b := if c == CR then NL else c;
    assert q.ready + (q.line + [b]) == q.ready + q.line + [b];
  }

  /** and a full ring takes nothing more, nor gives anything back. */
  lemma FullIgnores(q: Queue, c: Byte)
    requires QueueOk(q) && |q.ready| + |q.line| == INPUT_BUF_SIZE
    ensures Typed(q, c) == q
  {
  }

  /** A line too long for the ring is committed in its first part, and the rest of it is lost. */
  lemma {:induction false} LongLine(q: Queue, cs: seq<Byte>, more: seq<Byte>)
    requires q.line == [] && (forall i :: 0 <= i < |cs| ==> Plain(cs[i]))
    requires |q.ready| + |cs| == INPUT_BUF_SIZE && cs != []
    ensures TypedAll(q, cs + more) == Queue(q.ready + cs, [])
    decreases |more|
  {
    if more == [] {
      var n := |cs| - 1;
      TypedPlain(q, cs[..n]);
      assert [] + cs[..n] == cs[..n];
      LastPlaceCommits(Queue(q.ready, cs[..n]), cs[n]);
      assert cs + more == cs && cs == cs[..n] + [cs[n]];
      assert q.ready + cs[..n] + [cs[n]] == q.ready + cs;
    } else {
      var n := |more| - 1;
      LongLine(q, cs, more[..n]);
      assert (cs + more)[..|cs + more| - 1] == cs + more[..n];
      FullIgnores(Queue(q.ready + cs, []), more[n]);
    }
  }

  // ---------------------------------------------------------------- whole runs

  // What happens to the console: a byte is typed, or a reader takes the first ready byte.
  datatype Event = Key(c: Byte) | Took

  // The queue and every byte readers have taken so far.
  datatype World = World(q: Queue, taken: seq<Byte>)

  const START := World(Queue([], []), [])

  function Do(w: World, ev: Event): (w': World) {
    match ev
    case Key(c) => w.(q := Typed(w.q, c))
    case Took => if w.q.ready == [] then w else World(w.q.(ready := w.q.ready[1..]), w.taken + [w.q.ready[0]])
  }

  /** The world after any mix of typing and taking. */
  function After(evs: seq<Event>): (w: World) {
    if evs == [] then START else Do(After(evs[..|evs| - 1]), evs[|evs| - 1])
  }

  // The bytes typed in a run.
  function Keys(evs: seq<Event>): (cs: seq<Byte>) {
    if evs == [] then [] else Keys(evs[..|evs| - 1]) + KeyOf(evs[|evs| - 1])
  }

  function KeyOf(ev: Event): (cs: seq<Byte>) {
    if ev.Key? then [ev.c] else []
  }

  /** The bytes each keystroke of a run makes ready, one after the other. */
  ghost function Committed(evs: seq<Event>): (bs: seq<Byte>) {
    if evs == [] then [] else
      var was := After(evs[..|evs| - 1]).q;
      Committed(evs[..|evs| - 1]) + (if evs[|evs| - 1].Key? then Fresh(was, evs[|evs| - 1].c) else [])
  }

  ghost function Fresh(q: Queue, c: Byte): (bs: seq<Byte>) {
    var now := Typed(q, c).ready;
    if |q.ready| <= |now| then now[|q.ready|..] else now
  }

  lemma AfterMore(evs: seq<Event>, ev: Event)
    ensures After(evs + [ev]) == Do(After(evs), ev)
    ensures Keys(evs + [ev]) == Keys(evs) + KeyOf(ev)
  {
    assert (evs + [ev])[..|evs|] == evs;
  }

  lemma StepInOrder(w: World, ev: Event, committed: seq<Byte>)
    requires QueueOk(w.q) && w.taken + w.q.ready == committed
    ensures var w' := Do(w, ev);
      QueueOk(w'.q) && w'.taken + w'.q.ready == committed + if ev.Key? then Fresh(w.q, ev.c) else []
  {
    if ev.Key? {
      TypedOk(w.q, ev.c);
      hide Typed;
      assert w.q.ready + Fresh(w.q, ev.c) == Typed(w.q, ev.c).ready;
      assert w.taken + (w.q.ready + Fresh(w.q, ev.c)) == committed + Fresh(w.q, ev.c);
    } else if w.q.ready != [] {
      assert w.taken + [w.q.ready[0]] + w.q.ready[1..] == w.taken + w.q.ready;
    }
  }

  /** On every run readers have taken the committed bytes in order, none lost and none twice; the rest is ready. */
  lemma {:induction false} TakenInOrder(evs: seq<Event>)
    ensures QueueOk(After(evs).q)
    ensures After(evs).taken + After(evs).q.ready == Committed(evs)
    ensures After(evs).taken <= Committed(evs)
    decreases |evs|
  {
    if evs != [] {
      var was, ev := After(evs[..|evs| - 1]), evs[|evs| - 1];
      TakenInOrder(evs[..|evs| - 1]);
      StepInOrder(was, ev, Committed(evs[..|evs| - 1]));
    }
  }

  // The line editor alone, with no ring and no readers: what typing a byte makes of it.
  function Edit(q: Queue, c: Byte): (q': Queue) {
    var b := if c == CR then NL else c;
    if c == CTRL_P || c == 0 then q
    else if c == CTRL_U then q.(line := [])
    else if c == DEL then q.(line := if q.line == [] then [] else q.line[..|q.line| - 1])
    else if EndsLine(b) then Queue(q.ready + q.line + [b], [])
    else q.(line := q.line + [b])
  }

  function Edited(cs: seq<Byte>): (q: Queue) {
    if cs == [] then Queue([], []) else Edit(Edited(cs[..|cs| - 1]), cs[|cs| - 1])
  }

  // Every byte typed finds at least two free places in the ring.
  ghost predicate Roomy(evs: seq<Event>) {
    forall i :: 0 <= i < |evs| && evs[i].Key? ==>
      var q := After(evs[..i]).q;
      |q.ready| + |q.line| + 1 < INPUT_BUF_SIZE
  }

  lemma RoomyPrefix(evs: seq<Event>, n: nat)
    requires Roomy(evs) && n <= |evs|
    ensures Roomy(evs[..n])
  {
    hide After;
    forall i | 0 <= i < n && evs[i].Key?
      ensures var q := After(evs[..n][..i]).q; |q.ready| + |q.line| + 1 < INPUT_BUF_SIZE
    {
      assert evs[..n][..i] == evs[..i];
    }
  }

  /** As long as the ring has room, what is committed depends on the bytes typed only, not on when they are read. */
  lemma {:induction false} RoomyRun(evs: seq<Event>)
    requires Roomy(evs)
    ensures Committed(evs) == Edited(Keys(evs)).ready && After(evs).q.line == Edited(Keys(evs)).line
    ensures After(evs).taken <= Edited(Keys(evs)).ready
    decreases |evs|
  {
    hide Roomy, After, Keys, Committed, Edited, QueueOk, Fresh;
    TakenInOrder(evs);
    Unfold(evs);
    if evs != [] {
      var n := |evs| - 1;
      RoomyPrefix(evs, n);
      RoomyRun(evs[..n]);
      RoomyAt(evs, n);
      RoomyStep(After(evs[..n]), evs[n], Committed(evs[..n]), Keys(evs[..n]));
    }
  }

  lemma Unfold(evs: seq<Event>)
    ensures evs == [] ==> After(evs) == START && Keys(evs) == [] && Committed(evs) == []
    ensures Edited([]) == Queue([], [])
    ensures evs != [] ==>
      var was, ev := evs[..|evs| - 1], evs[|evs| - 1];
      && After(evs) == Do(After(was), ev) && Keys(evs) == Keys(was) + KeyOf(ev)
      && Committed(evs) == Committed(was) + if ev.Key? then Fresh(After(was).q, ev.c) else []
  {
  }

  lemma RoomyAt(evs: seq<Event>, i: nat)
    requires Roomy(evs) && i < |evs|
    ensures evs[i].Key? ==> |After(evs[..i]).q.ready| + |After(evs[..i]).q.line| + 1 < INPUT_BUF_SIZE
  {
  }

  lemma RoomyStep(w: World, ev: Event, committed: seq<Byte>, ks: seq<Byte>)
    requires committed == Edited(ks).ready && w.q.line == Edited(ks).line
    requires ev.Key? ==> |w.q.ready| + |w.q.line| + 1 < INPUT_BUF_SIZE
    ensures var ideal := Edited(ks + KeyOf(ev));
      Do(w, ev).q.line == ideal.line && committed + (if ev.Key? then Fresh(w.q, ev.c) else []) == ideal.ready
  {
    hide Typed, Edit, Fresh;
    if ev.Key? {
      assert (ks + [ev.c])[..|ks|] == ks;
      EditIsTyped(w.q, Edited(ks), ev.c);
    } else {
      assert ks + [] == ks;
    }
  }

  /** The editing commands do what they do however full the ring is. */
  lemma CommandsAlways(q: Queue, c: Byte)
    requires c == 0 || c == CTRL_P || c == CTRL_U || c == DEL
    ensures Typed(q, c) == Edit(q, c)
  {
  }

  lemma EditIsTyped(q: Queue, ideal: Queue, c: Byte)
    requires q.line == ideal.line && |q.ready| + |q.line| + 1 < INPUT_BUF_SIZE
    ensures Edit(ideal, c) == Queue(ideal.ready + Fresh(q, c), Typed(q, c).line)
  {
  }

  // ---------------------------------------------------------------- the ring

  function Plus(i: nat, k: nat): (j: nat)
    ensures j < WORD
  {
    (i + k) % WORD
  }

  function Minus(i: nat, k: nat): (j: nat)
    requires i < WORD && k < WORD
    ensures j < WORD
  {
    (i + WORD - k) % WORD
  }

  lemma WrapKeepsSlot(i: nat, k: nat)
    ensures Plus(i, k) % INPUT_BUF_SIZE == (i + k) % INPUT_BUF_SIZE
  {
    var m := i + k;
    var q := m / WORD;
    assert m == q * WORD + m % WORD;
    assert WORD == 0x200_0000_0000_0000 * INPUT_BUF_SIZE;
    assert m == q * 0x200_0000_0000_0000 * INPUT_BUF_SIZE + m % WORD;
  }

  lemma Distance(i: nat, k: nat)
    requires i < WORD && k <= INPUT_BUF_SIZE
    ensures Minus(Plus(i, k), i) == k
    ensures Plus(i, k) == i <==> k == 0
    ensures k > 0 ==> Minus(Plus(i, k), 1) == Plus(i, k - 1)
  {
  }

  lemma StepDown(i: nat)
    requires i < WORD
    ensures Minus(Plus(i, 1), 1) == i
  {
  }

  lemma PlusPlus(i: nat, j: nat, k: nat)
    requires i < WORD && j <= INPUT_BUF_SIZE && k <= INPUT_BUF_SIZE
    ensures Plus(Plus(i, j), k) == Plus(i, j + k)
  {
  }

  lemma SlotsDiffer(r: nat, i: nat, j: nat)
    requires i < j < INPUT_BUF_SIZE
    ensures (r + i) % INPUT_BUF_SIZE != (r + j) % INPUT_BUF_SIZE
  {
  }

  function Slot(r: nat, i: nat): (k: nat)
    ensures k < INPUT_BUF_SIZE
  {
    (r + i) % INPUT_BUF_SIZE
  }

  /** The ring holds xs from index r on. */
  ghost predicate Holds(ring: seq<Byte>, r: nat, xs: seq<Byte>)
    requires |ring| == INPUT_BUF_SIZE
  {
    forall i :: 0 <= i < |xs| ==> ring[Slot(r, i)] == xs[i]
  }

  lemma HoldsPrefix(ring: seq<Byte>, r: nat, xs: seq<Byte>, ys: seq<Byte>)
    requires |ring| == INPUT_BUF_SIZE && Holds(ring, r, xs) && ys <= xs
    ensures Holds(ring, r, ys)
  {
  }

  lemma HoldsMore(ring: seq<Byte>, r: nat, xs: seq<Byte>, b: Byte)
    requires |ring| == INPUT_BUF_SIZE && Holds(ring, r, xs) && |xs| < INPUT_BUF_SIZE
    ensures Holds(ring[Slot(r, |xs|) := b], r, xs + [b])
  {
    forall i | 0 <= i < |xs| ensures Slot(r, i) != Slot(r, |xs|) {
      SlotsDiffer(r, i, |xs|);
    }
    hide Slot;
  }

  lemma HoldsRest(ring: seq<Byte>, r: nat, xs: seq<Byte>)
    requires |ring| == INPUT_BUF_SIZE && Holds(ring, r, xs) && xs != []
    ensures ring[r % INPUT_BUF_SIZE] == xs[0] && Holds(ring, Plus(r, 1), xs[1..])
  {
    assert Slot(r, 0) == r % INPUT_BUF_SIZE;
    forall i | 0 <= i < |xs| - 1 ensures Slot(Plus(r, 1), i) == Slot(r, i + 1) {
      WrapKeepsSlot(r, 1);
      SlotShift(r, Plus(r, 1), i);
    }
    hide Slot;
  }

  lemma SlotShift(r: nat, r1: nat, i: nat)
    requires r1 % INPUT_BUF_SIZE == (r + 1) % INPUT_BUF_SIZE
    ensures Slot(r1, i) == Slot(r, i + 1)
  {
  }

  // How a read ended.
  // Waiting: the arrivals ran out, and the reader sleeps on or, if killed, gives up.
  datatype ReadEnd = Filled | NewLine | EndOfInput | CopyFailed | Waiting

  // What a read takes off the ring beyond the bytes it delivers.
  predicate IsRest(end: ReadEnd, dst: seq<Byte>, rest: seq<Byte>) {
    match end
    case EndOfInput => rest == if dst == [] then [CTRL_D] else []
    case CopyFailed => |rest| == 1 && rest[0] != CTRL_D
    case _ => rest == []
  }

  // One use of the console: a byte is typed, or a process reads while bytes arrive.
  datatype Op = Typing(c: Byte) | Reading(n: nat, room: nat, arrivals: seq<Byte>)

  function NoEof(bs: seq<Byte>): (r: seq<Byte>) {
    if bs == [] then [] else NoEof(bs[..|bs| - 1]) + (if bs[|bs| - 1] == CTRL_D then [] else [bs[|bs| - 1]])
  }

  lemma {:induction false} NoEofAppend(a: seq<Byte>, b: seq<Byte>)
    ensures NoEof(a + b) == NoEof(a) + NoEof(b)
    decreases |b|
  {
    if b == [] {
      assert a + b == a;
    } else {
      assert (a + b)[..|a + b| - 1] == a + b[..|b| - 1];
      NoEofAppend(a, b[..|b| - 1]);
    }
  }

  lemma {:induction false} NoEofPlain(a: seq<Byte>)
    requires CTRL_D !in a
    ensures NoEof(a) == a
  {
    if a != [] {
      NoEofPlain(a[..|a| - 1]);
    }
  }

  class Cons {
    const buf: array<Byte>
    var r: nat
    var w: nat
    var e: nat
    ghost var q: Queue
    ghost var taken: seq<Byte>     // every byte readers have taken off the ring
    ghost var events: seq<Event>   // everything that happened so far

    /** The ring stands for the queue. */
    ghost predicate RingOk()
      reads this`r, this`w, this`e, this`q, buf
    {
      && buf.Length == INPUT_BUF_SIZE && r < WORD && w < WORD && e < WORD
      && QueueOk(q)
      && w == Plus(r, |q.ready|) && e == Plus(r, |q.ready| + |q.line|)
      && Holds(buf[..], r, q.ready + q.line)
    }

    /** And queue and readers are where the events lead. */
    ghost predicate Valid()
      reads this, buf
    {
      RingOk() && World(q, taken) == After(events)
    }

    constructor ()
      ensures Valid() && events == [] && fresh(buf)
    {
      buf := new Byte[INPUT_BUF_SIZE];
      r, w, e := 0, 0, 0;
      q, taken, events := Queue([], []), [], [];
    }

    // Step the edit index back one place.
    method StepBack()
      requires RingOk() && q.line != []
      modifies this`e, this`q
      ensures RingOk() && q == old(q).(line := old(q).line[..|old(q).line| - 1])
    {
      hide Holds;
      Distance(r, |q.ready| + |q.line|);
      ghost var line := q.line[..|q.line| - 1];
      assert q.ready + line <= q.ready + q.line;
      HoldsPrefix(buf[..], r, q.ready + q.line, q.ready + line);
      e := Minus(e, 1);
      q := q.(line := line);
    }

    method Intr(c: Byte)
      requires Valid()
      modifies this`e, this`w, this`q, this`events, buf
      ensures Valid() && q == Typed(old(q), c) && events == old(events) + [Key(c)]
    {
      hide RingOk, After;
      AfterMore(events, Key(c));
      events := events + [Key(c)];
      if c == CTRL_P {
      } else if c == CTRL_U {
        KillLine();
      } else if c == DEL {
        EditAt();
        if e != w {
          StepBack();
        }
      } else {
        HeldBytes();
        if c != 0 && Minus(e, r) < INPUT_BUF_SIZE {
          Store(if c == CR then NL else c);
        }
      }
    }

    // Step back over the whole line being edited; it holds no newline.
    method KillLine()
      requires RingOk()
      modifies this`e, this`q
      ensures RingOk() && q == old(q).(line := [])
    {
      hide RingOk;
      EditAt();
      while e != w && buf[Minus(e, 1) % INPUT_BUF_SIZE] != NL
        invariant RingOk() && q == old(q).(line := q.line) && (e == w <==> q.line == [])
        invariant EditOk() && (q.line != [] ==> buf[Minus(e, 1) % INPUT_BUF_SIZE] != NL)
        decreases |q.line|
      {
        StepBack();
        EditAt();
      }
    }

    // The indices are words, and the ring is there.
    ghost predicate EditOk()
      reads this
    {
      e < WORD && r < WORD && buf.Length == INPUT_BUF_SIZE
    }

    lemma HeldBytes()
      requires RingOk()
      ensures EditOk() && Minus(e, r) == |q.ready| + |q.line|
    {
      Distance(r, |q.ready| + |q.line|);
    }

    // The byte before the edit index is the last of the line.
    lemma EditAt()
      requires RingOk()
      ensures EditOk() && (e == w <==> q.line == [])
      ensures q.line != [] ==> buf[Minus(e, 1) % INPUT_BUF_SIZE] != NL
    {
      var n, k := |q.ready|, |q.line|;
      PlusPlus(r, n, k);
      Distance(w, k);
      if k > 0 {
        Distance(r, n + k);
        WrapKeepsSlot(r, n + k - 1);
        assert buf[..][Slot(r, n + k - 1)] == (q.ready + q.line)[n + k - 1] == q.line[k - 1];
      }
    }

    method Store(b: Byte)
      requires RingOk() && |q.ready| + |q.line| < INPUT_BUF_SIZE
      modifies this`e, this`w, this`q, buf
      ensures RingOk()
      ensures q == var line := old(q).line + [b];
        if EndsLine(b) || |old(q).ready| + |line| == INPUT_BUF_SIZE then Queue(old(q).ready + line, [])
        else old(q).(line := line)
    {
      hide Holds, Plus, Minus;
      ghost var n, line := |q.ready| + |q.line|, q.line + [b];
      PutByte(b);
      Distance(r, n + 1);
      if b == NL || b == CTRL_D || Minus(e, r) == INPUT_BUF_SIZE {
        w := e;
        assert q.ready + line + [] == q.ready + line;
        q := Queue(q.ready + line, []);
      } else {
        q := q.(line := line);
      }
    }

    // Write a byte at the edit index and step over it.
    method PutByte(b: Byte)
      requires RingOk() && |q.ready| + |q.line| < INPUT_BUF_SIZE
      modifies this`e, buf
      ensures e == Plus(r, |q.ready| + |q.line| + 1) && Holds(buf[..], r, q.ready + (q.line + [b]))
    {
      hide Holds, Plus, Minus;
      ghost var n, was := |q.ready| + |q.line|, q.ready + q.line;
      assert q.ready + (q.line + [b]) == was + [b];
      WrapKeepsSlot(r, n);
      HoldsMore(buf[..], r, was, b);
      buf[e % INPUT_BUF_SIZE] := b;
      assert buf[..] == old(buf[..])[Slot(r, n) := b];
      PlusPlus(r, n, 1);
      e := Plus(e, 1);
    }

    // One byte off the ring.
    method Take() returns (c: Byte)
      requires RingOk() && q.ready != []
      modifies this`r, this`q
      ensures RingOk() && c == old(q).ready[0] && q == old(q).(ready := old(q).ready[1..])
      ensures r == Plus(old(r), 1)
    {
      hide Holds;
      HoldsRest(buf[..], r, q.ready + q.line);
      assert (q.ready + q.line)[1..] == q.ready[1..] + q.line;
      PlusPlus(r, 1, |q.ready| - 1);
      PlusPlus(r, 1, |q.ready| + |q.line| - 1);
      c := buf[r % INPUT_BUF_SIZE];
      r := Plus(r, 1);
      q := q.(ready := q.ready[1..]);
    }

    // Take the last byte back.
    method PutBack(ghost c: Byte, ghost q0: Queue, ghost r0: nat)
      requires RingOk() && QueueOk(q0) && r0 < WORD && Holds(buf[..], r0, q0.ready + q0.line)
      requires w == Plus(r0, |q0.ready|) && e == Plus(r0, |q0.ready| + |q0.line|) && r == Plus(r0, 1)
      requires q0.ready == [c] + q.ready && q.line == q0.line
      modifies this`r, this`q
      ensures RingOk() && q == q0
    {
      hide Holds, QueueOk, Plus, Minus;
      StepDown(r0);
      r := Minus(r, 1);
      q := q0;
    }

    // Sleep until there is a byte to read, or the arrivals run out. Between the wake-up and getting the lock
    // back any number of further bytes may arrive.
    method Await(arrivals: seq<Byte>, next0: nat) returns (next: nat)
      requires Valid() && next0 <= |arrivals|
      modifies this`e, this`w, this`q, this`events, buf
      ensures Valid() && old(events) <= events && next0 <= next <= |arrivals|
      ensures Keys(events) == Keys(old(events)) + arrivals[next0..next]
      ensures if next == next0 then q == old(q) else old(q).ready == []
      ensures q.ready == [] ==> next == |arrivals|
    {
      hide Holds, Plus, Minus, After, Keys;
      next := next0;
      ReadAt();
      while r == w && next < |arrivals|
        invariant Valid() && old(events) <= events && next0 <= next <= |arrivals| && (r == w <==> q.ready == [])
        invariant Keys(events) == Keys(old(events)) + arrivals[next0..next]
        invariant if next == next0 then q == old(q) else old(q).ready == []
      {
        Arrive(arrivals, next0, next);
        ReadAt();
        next := next + 1;
      }
      if next > next0 {
        while next < |arrivals|
          invariant Valid() && old(events) <= events && next0 < next <= |arrivals|
          invariant q.ready == [] ==> next == |arrivals|
          invariant Keys(events) == Keys(old(events)) + arrivals[next0..next]
        {
          if * {
            break;
          }
          Arrive(arrivals, next0, next);
          next := next + 1;
        }
      }
    }

    // One more arrival.
    method Arrive(arrivals: seq<Byte>, ghost next0: nat, next: nat)
      requires Valid() && next0 <= next < |arrivals|
      modifies this`e, this`w, this`q, this`events, buf
      ensures Valid() && old(events) <= events && old(q).ready <= q.ready
      ensures forall ks :: Keys(old(events)) == ks + arrivals[next0..next] ==>
        Keys(events) == ks + arrivals[next0..next + 1]
    {
      hide Holds, Plus, Minus, After, Keys;
      TypedOk(q, arrivals[next]);
      AfterMore(events, Key(arrivals[next]));
      Intr(arrivals[next]);
      assert arrivals[next0..next + 1] == arrivals[next0..next] + [arrivals[next]];
    }

    lemma ReadAt()
      requires RingOk()
      ensures r == w <==> q.ready == []
    {
      Distance(r, |q.ready|);
    }

    // The next byte, except that an end of input is left on the ring if bytes were read before it.
    method Next(partial: bool) returns (c: Byte)
      requires Valid() && q.ready != []
      modifies this`r, this`q, this`taken, this`events
      ensures Valid() && c == old(q).ready[0] && old(events) <= events && Keys(events) == Keys(old(events))
      ensures c == CTRL_D && partial ==> q == old(q) && taken == old(taken)
      ensures !(c == CTRL_D && partial) ==>
        q == old(q).(ready := old(q).ready[1..]) && taken == old(taken) + [c]
    {
      hide Holds, QueueOk, Plus, Minus, After, Keys;
      ghost var q0, r0 := q, r;
      c := Take();
      if c == CTRL_D && partial {
        assert q0.ready == [c] + q.ready;
        PutBack(c, q0, r0);
      } else {
        AfterMore(events, Took);
        taken, events := taken + [c], events + [Took];
      }
    }

    // Wait for a byte and take it.
    method Fetch(arrivals: seq<Byte>, next0: nat, partial: bool) returns (waiting: bool, c: Byte, next: nat)
      requires Valid() && next0 <= |arrivals|
      modifies this, buf
      ensures Valid() && old(events) <= events && next0 <= next <= |arrivals|
      ensures forall ks :: Keys(old(events)) == ks + arrivals[..next0] ==> Keys(events) == ks + arrivals[..next]
      ensures next > next0 ==> old(q).ready == []
      ensures waiting ==> next == |arrivals| && q.ready == [] && old(q).ready == [] && taken == old(taken)
      ensures !waiting ==> taken == old(taken) + if c == CTRL_D && partial then [] else [c]
      ensures !waiting && c == CTRL_D && partial ==> q.ready != [] && q.ready[0] == CTRL_D
      ensures !waiting && c != CTRL_D && next == next0 ==> old(q).ready == [c] + q.ready
    {
      hide RingOk, After, Keys;
      c := 0;
      next := Await(arrivals, next0);
      assert arrivals[..next] == arrivals[..next0] + arrivals[next0..next];
      ReadAt();
      waiting := r == w;
      if !waiting {
        c := Next(partial);
      }
    }

    // A read of at most n0 bytes by a process whose memory takes room of them. The arrivals are the bytes typed
    // while it sleeps; next of them were used. The bytes delivered are dst, and rest was taken beyond them.
    method Read(n0: nat, room: nat, arrivals: seq<Byte>)
      returns (dst: seq<Byte>, end: ReadEnd, next: nat, ghost rest: seq<Byte>)
      requires Valid()
      modifies this, buf
      ensures Valid() && old(events) <= events && next <= |arrivals| && |dst| <= n0
      ensures Keys(events) == Keys(old(events)) + arrivals[..next] && taken == old(taken) + dst + rest
      ensures IsRest(end, dst, rest)
      ensures CTRL_D !in dst && forall i :: 0 <= i < |dst| - 1 ==> dst[i] != NL
      // it sleeps only when all that was ready has been delivered
      ensures next > 0 ==> old(q).ready <= dst
      ensures end == Filled ==> |dst| == n0
      ensures end == NewLine ==> dst != [] && dst[|dst| - 1] == NL
      ensures end == EndOfInput && dst != [] ==> q.ready != [] && q.ready[0] == CTRL_D
      ensures |dst| <= room && (end == CopyFailed ==> |dst| == room < n0)
      ensures end == Waiting ==> q.ready == [] && |dst| < n0 && next == |arrivals|
    {
      hide RingOk, After, Keys;
      var n := n0;
      dst, next, rest := [], 0, [];
      while n > 0
        invariant Valid() && old(events) <= events && 0 <= next <= |arrivals|
        invariant 0 <= n && |dst| + n == n0 && |dst| <= room && rest == []
        invariant CTRL_D !in dst && NL !in dst
        invariant taken == old(taken) + dst && Keys(events) == Keys(old(events)) + arrivals[..next]
        invariant if next == 0 then dst + q.ready == old(q).ready else old(q).ready <= dst
      {
        var waiting, c;
        waiting, c, next := Fetch(arrivals, next, n < n0);
        if waiting {
          return dst, Waiting, next, [];
        }
        if c == CTRL_D {
          return dst, EndOfInput, next, if dst == [] then [CTRL_D] else [];
        }
        if |dst| == room {
          return dst, CopyFailed, next, [c];
        }
        assert dst + ([c] + q.ready) == dst + [c] + q.ready;
        dst := dst + [c];
        n := n - 1;
        if c == NL {
          return dst, NewLine, next, [];
        }
      }
      end := Filled;
    }

    // Any sequence of typing and reading. The bytes typed and the bytes delivered are collected; a byte is lost
    // to readers only with a failed copy.
    method Session(ops: seq<Op>) returns (typed: seq<Byte>, got: seq<Byte>, failed: bool)
      requires Valid()
      modifies this, buf
      ensures Valid() && old(events) <= events && Keys(events) == Keys(old(events)) + typed
      ensures old(taken) <= taken <= Committed(events)
      ensures !failed ==> got == NoEof(taken[|old(taken)|..])
    {
      hide RingOk, After, Keys, NoEof;
      typed, got, failed := [], [], false;
      assert taken[|taken|..] == [];
      assert NoEof([]) == [] by { NoEofPlain([]); }
      for i := 0 to |ops|
        invariant Valid() && old(events) <= events && Keys(events) == Keys(old(events)) + typed
        invariant old(taken) <= taken && (!failed ==> got == NoEof(taken[|old(taken)|..]))
      {
        match ops[i] {
          case Typing(c) =>
            AfterMore(events, Key(c));
            Intr(c);
            typed := typed + [c];
          case Reading(n, room, arrivals) =>
            ghost var was := taken;
            var dst, end, next, rest := Read(n, room, arrivals);
            ReadAdds(got, was[|old(taken)|..], dst, rest, end);
            assert taken[|old(taken)|..] == was[|old(taken)|..] + (dst + rest);
            typed, got, failed := typed + arrivals[..next], got + dst, failed || end == CopyFailed;
        }
      }
      TakenInOrder(events);
    }
  }

  lemma ReadAdds(got: seq<Byte>, was: seq<Byte>, dst: seq<Byte>, rest: seq<Byte>, end: ReadEnd)
    requires IsRest(end, dst, rest) && CTRL_D !in dst
    ensures got == NoEof(was) && end != CopyFailed ==> got + dst == NoEof(was + (dst + rest))
  {
    NoEofAppend(was, dst + rest);
    NoEofAppend(dst, rest);
    NoEofPlain(dst);
    assert NoEof([CTRL_D]) == [];
  }
}
