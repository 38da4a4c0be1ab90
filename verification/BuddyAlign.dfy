/**
 When an alignment is met: exactly if it is no larger than the blocks that serve the request. A larger one is
 missed on a run that asks for such blocks until there are none left.
 */
module BuddyAlign {
  import opened Arith
  import opened Wrappers
  import opened BlockTree
  import opened BuddyOps
  import opened BuddyInit
  import opened BuddyMeta
  import opened BuddyRep
  import opened BuddyRuns

  // All live blocks answer the same request.
  predicate OnlyAnswers(sys: Sys, req: Request) {
    forall b <- sys.live :: sys.live[b] == req
  }

  /** Ask for the same thing until alloc fails. */
  lemma {:induction false} Exhaust(sys: Sys, nsize: nat, m: nat, e: nat, req: Request) returns (ops: seq<Op>)
    requires Good(sys, nsize, m, e) && 0 < m && Supported(nsize, req) && OnlyAnswers(sys, req)
    ensures |sys.s.free| == sys.s.nsize
    ensures var t := Run(sys, ops);
      Good(t, nsize, m, e) && OnlyAnswers(t, req) && AllocStep(t.s, FirstK(req.size)).None?
    decreases FreeLeaves(sys.s.free)
  {
    hide Inv, Reserved, FreeLeaves, Leaves, Handed, FirstK, AllocStep;
    var fk := FirstK(req.size);
    GoodShape(sys, nsize, m, e);
    ops := [];
    if AllocStep(sys.s, fk).Some? {
      var t := Next(sys, Alloc(req));
      AllocGood(sys, nsize, m, e, req);
      AllocLeaves(sys.s, fk);
      hide Good, Next;
      var rest := Exhaust(t, nsize, m, e, req);
      ops := [Alloc(req)] + rest;
      assert ops[1..] == rest;
    }
  }

  // A class without a wholly free block has a leaf in use in each of its blocks.
  lemma LeafInUse(s: State, b: Block) returns (x: nat, c: Block)
    requires Inv(s) && b.k <= s.nsize && AllocStep(s, b.k).None? && InTree(s.nsize, b)
    ensures Covers(b, x) && Covers(c, x) && IsUsed(s, c)
  {
    AllocComplete(s, b.k);
    x :| Covers(b, x) && !LeafFree(s, x);
    FirstInTree(s.nsize, b);
    CoversIff(b, x);
    Partition(s, x);
    c :| (IsUsed(s, c) || IsFree(s, c)) && Covers(c, x);
  }

  /** When nothing of the class is left, every block of it between metadata and tail is live. */
  lemma ExhaustedIsLive(sys: Sys, nsize: nat, m: nat, e: nat, req: Request, b: Block)
    requires Good(sys, nsize, m, e) && 0 < m && OnlyAnswers(sys, req)
    requires b.k == FirstK(req.size) <= nsize && AllocStep(sys.s, b.k).None?
    requires InTree(nsize, b) && m <= First(b) && First(b) + Pow2(b.k) <= e
    ensures b in sys.live
  {
    hide Inv, FreeLeaves, Leaves, FirstK, AllocStep, InTree, First;
    var x, c := LeafInUse(sys.s, b);
    CoversIff(b, x);
    CoversIff(c, x);
    if c.k == 0 {
      assert c.i == x;
    }
    assert Handed(sys.s, m, e, c);
    assert c.k == b.k;
  }

  lemma Powers()
    ensures Pow2(7) == 128 && Pow2(12) == MAX_ALIGN && Pow2(4) == 16 && Pow2(5) == 32
  {
    assert Pow2(4) == 16 && Pow2(3) == 8 && Pow2(5) == 32;
    Pow2Add(4, 3);
    Pow2Add(7, 5);
  }

  // The last block of a class below the page size in an arena of whole pages.
  lemma LastBlock(nsize: nat, m: nat, e: nat, k: nat) returns (b: Block)
    requires Fits(nsize, e) && e % 256 == 0 && 4 * m <= e && k <= 7
    ensures b.k == k && b.i % 2 == 1 && InTree(nsize, b) && m <= First(b) && First(b) + Pow2(k) <= e
  {
    hide Pow2, First;
    Powers();
    Pow2Add(7 - k, k);
    Pow2Monotone(k, 7);
    Pow2Monotone(7, nsize - 2);
    var n := HalfPageBlocks(e, e / 256, Pow2(7 - k), Pow2(k));
    b := Block(k, 2 * n - 1);
    LastInTree(nsize, e, 2 * n, k);
    LastFirst(2 * n, k);
  }

  // Whole pages hold an even number of blocks of half a page or less.
  lemma HalfPageBlocks(e: nat, q: nat, g: nat, h: nat) returns (n: nat)
    requires e == 256 * q && q > 0 && g * h == 128
    ensures n > 0 && e == 2 * n * h
  {
    n := q * g;
    assert 2 * n * h == 2 * q * (g * h);
    assert g > 0;
  }

  lemma LastFirst(n: nat, k: nat)
    requires n > 0
    ensures First(Block(k, n - 1)) + Pow2(k) == n * Pow2(k)
  {
  }

  lemma LastInTree(nsize: nat, e: nat, n: nat, k: nat)
    requires k < nsize && e == n * Pow2(k) <= Pow2(nsize - 1)
    ensures n <= Nblk(nsize, k)
  {
    Pow2Add(nsize - 1 - k, k);
    var z := Pow2(nsize - 1 - k);
    if z < n {
      MulMono(z + 1, n, Pow2(k));
    }
  }

  lemma OddNotMultiple(base: nat, i: nat, z: nat)
    requires z > 0 && base % (2 * z) == 0 && i % 2 == 1
    ensures (base + i * z) % (2 * z) != 0
  {
    var d, f, j := 2 * z, base / (2 * z), i / 2;
    assert base == f * d;
    assert i * z == j * d + z by { assert i == 2 * j + 1; }
    assert (f + j) * d == f * d + j * d;
    DivUnique(base + i * z, d, f + j);
  }

  // An odd block is aligned to its own size and to nothing larger.
  lemma OddMisaligned(base: nat, b: Block, a: nat)
    requires base % MAX_ALIGN == 0 && b.i % 2 == 1 && b.k + 5 <= a <= 12
    ensures Addr(base, b) % Pow2(a) != 0
  {
    hide Pow2;
    Powers();
    Pow2Add(b.k, 5);
    var p := Addr(base, b);
    PowerDivides(b.k + 5, 12, base);
    OddNotMultiple(base, b.i, BlkSize(b.k));
    if p % Pow2(a) == 0 {
      PowerDivides(b.k + 5, a, p);
    }
  }

  lemma PowerDivides(a: nat, k: nat, n: nat)
    requires a <= k && n % Pow2(k) == 0
    ensures n % Pow2(a) == 0
  {
    hide Pow2;
    assert n == n / Pow2(k) * Pow2(k);
    Pow2Divides(a, k, n / Pow2(k));
  }

  // Classes smaller than an alignment that alloc accepts.
  lemma SmallClass(k: nat, a: nat)
    requires BlkSize(k) < Pow2(a) <= MAX_ALIGN
    ensures k <= 7 && k + 5 <= a <= 12
  {
    hide Pow2;
    Powers();
    Pow2Add(k, 4);
    if a <= k + 4 {
      Pow2Monotone(a, k + 4);
    }
    if a > 12 {
      Pow2Monotone(12, a);
    }
  }

  /** A larger alignment is missed: some run from the start hands out a misaligned address for the request. */
  lemma MisalignedRun(base: nat, nsize: nat, m: nat, e: nat, req: Request, a: nat) returns (ops: seq<Op>, b: Block)
    requires Fits(nsize, e) && e % 256 == 0 && 0 < m && 4 * m <= e && base % MAX_ALIGN == 0
    requires Supported(nsize, req) && req.align == Pow2(a) && BlkSize(FirstK(req.size)) < req.align
    ensures var sys := Run(Start(nsize, m, e), ops);
      b in sys.live && sys.live[b] == req && Addr(base, b) % req.align != 0
  {
    var fk := FirstK(req.size);
    StartGood(nsize, m, e);
    hide Good, FirstK, Run, Addr, InTree, First, AllocStep, Pow2, Fits, BlkSize, InitState;
    SmallClass(fk, a);
    b := LastBlock(nsize, m, e, fk);
    ops := Exhaust(Start(nsize, m, e), nsize, m, e, req);
    ExhaustedIsLive(Run(Start(nsize, m, e), ops), nsize, m, e, req, b);
    OddMisaligned(base, b, a);
  }

  // On every run every block that answers the request has an aligned address.
  ghost predicate AlwaysAligned(base: nat, nsize: nat, m: nat, e: nat, req: Request)
    requires req.align > 0
  {
    forall ops: seq<Op>, b: Block :: AnswersOn(nsize, m, e, ops, b, req) ==> Addr(base, b) % req.align == 0
  }

  ghost predicate AnswersOn(nsize: nat, m: nat, e: nat, ops: seq<Op>, b: Block, req: Request) {
    var sys := Run(Start(nsize, m, e), ops);
    b in sys.live && sys.live[b] == req
  }

  /** In every arena a request is always aligned exactly if the blocks that serve it are as large as the alignment. */
  lemma AlignedIff(base: nat, nsize: nat, m: nat, e: nat, req: Request, a: nat)
    requires Fits(nsize, e) && e % 256 == 0 && 0 < m && 4 * m <= e && base % MAX_ALIGN == 0
    requires Supported(nsize, req) && req.align == Pow2(a)
    ensures AlwaysAligned(base, nsize, m, e, req) <==> req.align <= BlkSize(FirstK(req.size))
  {
    hide FirstK, Run, Start, Fits, Addr, Pow2, BlkSize;
    if req.align <= BlkSize(FirstK(req.size)) {
      forall ops: seq<Op>, b: Block | AnswersOn(nsize, m, e, ops, b, req) ensures Addr(base, b) % req.align == 0 {
        RunAligned(base, nsize, m, e, ops, b, a);
      }
    } else {
      var ops, b := MisalignedRun(base, nsize, m, e, req, a);
      assert AnswersOn(nsize, m, e, ops, b, req);
    }
  }
}
