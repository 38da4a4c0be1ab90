/**
 The disk as the redo log sees it: a header block, the log's data blocks and the home blocks,
 and the meaning of a disk, which is what recovery would leave in the home blocks.
 */
module LogDisk {

  const MAXOPBLOCKS := 10
  const LOGSIZE := 30

  type Data = seq<bv8>

  // Block numbers of the logged blocks; only the first n entries count.
  datatype Header = Header(n: nat, block: seq<nat>)

  datatype Disk = Disk(head: Header, log: seq<Data>, home: map<nat, Data>)

  predicate HeaderOk(h: Header, home: map<nat, Data>) {
    && h.n <= LOGSIZE == |h.block|
    && forall i :: 0 <= i < h.n ==> h.block[i] in home
  }

  predicate DiskOk(d: Disk) {
    HeaderOk(d.head, d.home) && |d.log| == LOGSIZE
  }

  // ---------------------------------------------------------------- single block writes

  function WriteLogBlock(d: Disk, i: nat, v: Data): (d': Disk)
    requires i < |d.log|
  {
    d.(log := d.log[i := v])
  }

  function WriteHomeBlock(d: Disk, b: nat, v: Data): (d': Disk) {
    d.(home := d.home[b := v])
  }

  function WriteHeadBlock(d: Disk, h: Header): (d': Disk) {
    d.(head := h)
  }

  // ---------------------------------------------------------------- meaning

  // Home blocks after copying vs to block numbers bs, in order.
  function Apply(home: map<nat, Data>, bs: seq<nat>, vs: seq<Data>): (r: map<nat, Data>)
    requires |bs| == |vs|
  {
    if bs == [] then home
    else
      var n := |bs| - 1;
      Apply(home, bs[..n], vs[..n])[bs[n] := vs[n]]
  }

  /** What a completed recovery leaves in the home blocks. */
  function Durable(d: Disk): (r: map<nat, Data>)
    requires DiskOk(d)
  {
    Apply(d.home, d.head.block[..d.head.n], d.log[..d.head.n])
  }

  lemma DurableIs(d: Disk)
    requires DiskOk(d)
    ensures Durable(d) == Apply(d.home, d.head.block[..d.head.n], d.log[..d.head.n])
    ensures d.head.n == 0 ==> Durable(d) == d.home
    ensures Apply(d.home, d.head.block[..0], d.log[..0]) == d.home
  {
  }

  /** Copying overwrites whatever the copied blocks held before. */
  lemma {:induction false} ApplyAgree(h1: map<nat, Data>, h2: map<nat, Data>, bs: seq<nat>, vs: seq<Data>)
    requires |bs| == |vs| && h1.Keys == h2.Keys
    ensures Apply(h1, bs, vs).Keys == Apply(h2, bs, vs).Keys == h1.Keys + (set b | b in bs)
    ensures forall b :: b in Apply(h1, bs, vs) && (b in bs || h1[b] == h2[b]) ==>
      Apply(h1, bs, vs)[b] == Apply(h2, bs, vs)[b]
    ensures forall b :: b in h1 && b !in bs ==> Apply(h1, bs, vs)[b] == h1[b]
    decreases |bs|
  {
    if bs != [] {
      var n := |bs| - 1;
      ApplyAgree(h1, h2, bs[..n], vs[..n]);
      assert bs == bs[..n] + [bs[n]];
    }
  }

  /** A log installed in part can be installed again from the start. */
  lemma Reapply(home: map<nat, Data>, bs: seq<nat>, vs: seq<Data>, i: nat)
    requires |bs| == |vs| && i <= |bs| && forall b :: b in bs ==> b in home
    ensures Apply(Apply(home, bs[..i], vs[..i]), bs, vs) == Apply(home, bs, vs)
    ensures Apply(home, bs[..i], vs[..i]).Keys == home.Keys
  {
    var part := Apply(home, bs[..i], vs[..i]);
    ApplyAgree(home, home, bs[..i], vs[..i]);
    ApplyAgree(part, home, bs, vs);
  }

  /** A disk on which the first i logged blocks of a committed group are installed means the same. */
  lemma PartlyInstalled(d: Disk, i: nat)
    requires DiskOk(d) && i <= d.head.n
    ensures var d' := d.(home := Apply(d.home, d.head.block[..i], d.log[..i]));
      DiskOk(d') && d'.home.Keys == d.home.Keys && Durable(d') == Durable(d)
  {
    var bs, vs := d.head.block[..d.head.n], d.log[..d.head.n];
    assert bs[..i] == d.head.block[..i] && vs[..i] == d.log[..i];
    Reapply(d.home, bs, vs, i);
  }

  lemma InstallOne(d: Disk, i: nat)
    requires DiskOk(d) && i < d.head.n
    ensures Apply(d.home, d.head.block[..i + 1], d.log[..i + 1]) ==
            Apply(d.home, d.head.block[..i], d.log[..i])[d.head.block[i] := d.log[i]]
  {
    assert d.head.block[..i + 1][..i] == d.head.block[..i] && d.log[..i + 1][..i] == d.log[..i];
  }

  // ---------------------------------------------------------------- the block writes of a commit

  // The first i contents copied to the log.
  function Copied(d: Disk, vs: seq<Data>, i: nat): (d': Disk)
    requires |d.log| == LOGSIZE && i <= |vs| <= LOGSIZE
    ensures |d'.log| == LOGSIZE && d'.home == d.home && d'.head == d.head
  {
    d.(log := vs[..i] + d.log[i..])
  }

  // The first i logged blocks copied home.
  function Moved(d: Disk, i: nat): (d': Disk)
    requires i <= |d.head.block| && i <= |d.log|
    ensures d'.log == d.log && d'.head == d.head
  {
    d.(home := Apply(d.home, d.head.block[..i], d.log[..i]))
  }

  // The disks on the way there, one for each block write.
  function CopyTrace(d: Disk, vs: seq<Data>, n: nat): (ds: seq<Disk>)
    requires |d.log| == LOGSIZE && n <= |vs| <= LOGSIZE
    ensures |ds| == n
  {
    seq(n, i requires 0 <= i < n => Copied(d, vs, i + 1))
  }

  function MoveTrace(d: Disk, n: nat): (ds: seq<Disk>)
    requires n <= |d.head.block| && n <= |d.log|
    ensures |ds| == n
  {
    seq(n, i requires 0 <= i < n => Moved(d, i + 1))
  }

  lemma CopyMore(d: Disk, vs: seq<Data>, i: nat)
    requires |d.log| == LOGSIZE && i < |vs| <= LOGSIZE
    ensures Copied(d, vs, i + 1) == WriteLogBlock(Copied(d, vs, i), i, vs[i])
    ensures CopyTrace(d, vs, i + 1) == CopyTrace(d, vs, i) + [Copied(d, vs, i + 1)]
  {
  }

  lemma MoveMore(d: Disk, i: nat)
    requires DiskOk(d) && i < d.head.n
    ensures Moved(d, i + 1) == WriteHomeBlock(Moved(d, i), d.head.block[i], d.log[i])
    ensures MoveTrace(d, i + 1) == MoveTrace(d, i) + [Moved(d, i + 1)]
  {
    InstallOne(d, i);
  }

  lemma NoneWritten(d: Disk, vs: seq<Data>)
    requires DiskOk(d) && |vs| <= LOGSIZE
    ensures Copied(d, vs, 0) == d == Moved(d, 0) && CopyTrace(d, vs, 0) == [] == MoveTrace(d, 0)
  {
    assert [] + d.log == d.log;
  }

  /** Every disk of a stretch of writes is sound and means home. */
  ghost predicate AllMean(ds: seq<Disk>, home: map<nat, Data>) {
    forall d <- ds :: DiskOk(d) && Durable(d) == home
  }

  /** Copying to the log changes the meaning of no disk without a group, */
  lemma CopiesMean(d: Disk, vs: seq<Data>, n: nat)
    requires DiskOk(d) && d.head.n == 0 && n <= |vs| <= LOGSIZE
    ensures AllMean(CopyTrace(d, vs, n), d.home)
    ensures DiskOk(Copied(d, vs, n)) && Copied(d, vs, n).log[..n] == vs[..n]
  {
    forall x | x in CopyTrace(d, vs, n) ensures DiskOk(x) && Durable(x) == d.home {
      var i :| 0 <= i < n && x == CopyTrace(d, vs, n)[i];
      DurableIs(Copied(d, vs, i + 1));
    }
  }

  /** and installing that of no disk with one. */
  lemma MovesMean(d: Disk, n: nat)
    requires DiskOk(d) && n <= d.head.n
    ensures AllMean(MoveTrace(d, n), Durable(d))
  {
    hide Durable, Apply;
    forall x | x in MoveTrace(d, n) ensures DiskOk(x) && Durable(x) == Durable(d) {
      var i :| 0 <= i < n && x == MoveTrace(d, n)[i];
      PartlyInstalled(d, i + 1);
    }
  }

  /** The disks a commit of group h with contents vs passes through, one for each block write. */
  function CommitTrace(d: Disk, h: Header, vs: seq<Data>): (ds: seq<Disk>)
    requires |d.log| == LOGSIZE && h.n <= LOGSIZE == |h.block| && |vs| == h.n
    ensures |ds| == if h.n == 0 then 0 else 2 * h.n + 2
  {
    if h.n == 0 then []
    else
      var d1 := WriteHeadBlock(Copied(d, vs, h.n), h);
      CopyTrace(d, vs, h.n) + [d1] + MoveTrace(d1, h.n) + [WriteHeadBlock(Moved(d1, h.n), h.(n := 0))]
  }

  lemma CommitTraceAt(d: Disk, h: Header, vs: seq<Data>, k: nat)
    requires DiskOk(d) && h.n <= LOGSIZE == |h.block| && |vs| == h.n && k < |CommitTrace(d, h, vs)|
    ensures var n, d1 := h.n, WriteHeadBlock(Copied(d, vs, h.n), h);
      CommitTrace(d, h, vs)[k] ==
      if k < n then Copied(d, vs, k + 1) else if k == n then d1
      else if k <= 2 * n then Moved(d1, k - n) else WriteHeadBlock(Moved(d1, n), h.(n := 0))
    ensures k < h.n ==> Copied(d, vs, k + 1) == WriteLogBlock(Copied(d, vs, k), k, vs[k])
    ensures Copied(d, vs, 0) == d
    ensures var d1 := WriteHeadBlock(Copied(d, vs, h.n), h);
      Moved(d1, 0) == d1 && (h.n < k <= 2 * h.n ==>
        Moved(d1, k - h.n) == WriteHomeBlock(Moved(d1, k - h.n - 1), h.block[k - h.n - 1], d1.log[k - h.n - 1]))
  {
    var d1 := WriteHeadBlock(Copied(d, vs, h.n), h);
    if h.n < k <= 2 * h.n {
      var i := k - h.n - 1;
      assert h.block[..i + 1][..i] == h.block[..i] && d1.log[..i + 1][..i] == d1.log[..i];
    }
  }

  lemma AllMoved(d: Disk)
    requires DiskOk(d)
    ensures Moved(d, d.head.n) == d.(home := Durable(d)) && DiskOk(Moved(d, d.head.n))
    ensures Moved(d, d.head.n).home.Keys == d.home.Keys
    ensures Durable(Moved(d, d.head.n)) == Moved(d, d.head.n).home
  {
    PartlyInstalled(d, d.head.n);
  }

  // What a disk means once the header of the group it holds is written, and once it is cleared.
  lemma HeadWritten(d: Disk, h: Header, vs: seq<Data>)
    requires DiskOk(d) && HeaderOk(h, d.home) && d.log[..h.n] == vs
    ensures DiskOk(WriteHeadBlock(d, h)) && Durable(WriteHeadBlock(d, h)) == Apply(d.home, h.block[..h.n], vs)
    ensures h.n == 0 ==> Durable(WriteHeadBlock(d, h)) == d.home
  {
  }

  /** The block writes of a commit: up to the header write every disk means the home blocks before the group, from
      it on every disk means the home blocks after it, and the last one holds them. */
  lemma CommitMeans(d: Disk, h: Header, vs: seq<Data>)
    requires DiskOk(d) && d.head.n == 0 && HeaderOk(h, d.home) && |vs| == h.n > 0
    ensures var ds, home := CommitTrace(d, h, vs), Apply(d.home, h.block[..h.n], vs);
      && AllMean(ds[..h.n], d.home) && AllMean(ds[h.n..], home)
      && ds[|ds| - 1].home == home && home.Keys == d.home.Keys && ds[|ds| - 1].head.n == 0
      && DiskOk(ds[|ds| - 1])
  {
    hide Apply, Durable, Moved, CopyTrace, MoveTrace;
    CopiesMean(d, vs, h.n);
    var d0 := Copied(d, vs, h.n);
    hide Copied;
    var d1 := WriteHeadBlock(d0, h);
    var home, copies, moves := Apply(d.home, h.block[..h.n], vs), CopyTrace(d, vs, h.n), MoveTrace(d1, h.n);
    HeadWritten(d0, h, vs);
    MovesMean(d1, h.n);
    AllMoved(d1);
    var d2, h0 := Moved(d1, h.n), h.(n := 0);
    HeadWritten(d2, h0, d2.log[..0]);
    var ds, last := CommitTrace(d, h, vs), WriteHeadBlock(d2, h0);
    assert ds == copies + ([d1] + moves + [last]);
    assert ds[..h.n] == copies && ds[h.n..] == [d1] + moves + [last];
  }
}
