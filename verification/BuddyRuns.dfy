/**
 Whole runs of the allocator: any sequence of requests and frees from the start state.

 A request is a size and an alignment; a free names an address that is live at that point.
 */
module BuddyRuns {
  import opened Arith
  import opened Wrappers
  import opened BlockTree
  import opened BuddyOps
  import opened BuddyInit
  import opened BuddyMeta
  import opened BuddyRep

  datatype Request = Request(size: nat, align: nat)

  datatype Op = Alloc(req: Request) | Dealloc(leaf: nat)

  // The allocator's state and, for each block handed out, the request it answers.
  datatype Sys = Sys(s: State, live: map<Block, Request>)

  // A request that alloc does not panic on.
  predicate Supported(nsize: nat, req: Request) {
    req.align <= MAX_ALIGN && FirstK(req.size) <= nsize
  }

  // One operation; requests that fail and frees of addresses that are not live change nothing.
  function Next(sys: Sys, op: Op): (t: Sys)
    requires |sys.s.free| == sys.s.nsize
    ensures |t.s.free| == t.s.nsize
  {
    match op
    case Alloc(req) =>
      if !Supported(sys.s.nsize, req) then sys
      else (
        AllocShape(sys.s, FirstK(req.size));
        match AllocStep(sys.s, FirstK(req.size))
        case None => sys
        case Some((t, c)) => Sys(t, sys.live[c := req]))
    case Dealloc(x) =>
      var b := At(x, SizeOf(sys.s, x, 0));
      if b in sys.live && First(b) == x && b.k < sys.s.nsize then
        FreeShape(sys.s, b);
        Sys(FreeUp(sys.s, b), sys.live - {b})
      else sys
  }

  lemma AllocShape(s: State, fk: nat)
    requires |s.free| == s.nsize && fk <= s.nsize
    ensures AllocStep(s, fk).Some? ==> |AllocStep(s, fk).value.0.free| == AllocStep(s, fk).value.0.nsize
  {
    if FirstFree(s, fk) < s.nsize {
      var k := FirstFree(s, fk);
      SplitShape(Take(s, k), Block(k, s.free[k][0]), fk);
    }
  }

  lemma {:induction false} SplitShape(s: State, b: Block, fk: nat)
    requires |s.free| == s.nsize && fk <= b.k < s.nsize
    ensures |SplitDown(s, b, fk).0.free| == SplitDown(s, b, fk).0.nsize == s.nsize
    decreases b.k
  {
    if b.k > fk {
      SplitShape(SplitOne(s, b), Left(b), fk);
    }
  }

  lemma {:induction false} FreeShape(s: State, b: Block)
    requires |s.free| == s.nsize && b.k < s.nsize
    ensures |FreeUp(s, b).free| == FreeUp(s, b).nsize == s.nsize
    decreases s.nsize - b.k
  {
    if b.k < s.nsize - 1 && Buddy(b) !in s.alloc {
      FreeShape(MergeOne(s, b), Parent(b));
    }
  }

  function Run(sys: Sys, ops: seq<Op>): (t: Sys)
    requires |sys.s.free| == sys.s.nsize
    ensures |t.s.free| == t.s.nsize
    decreases |ops|
  {
    if ops == [] then sys else Run(Next(sys, ops[0]), ops[1..])
  }

  function Start(nsize: nat, m: nat, e: nat): (sys: Sys) {
    Sys(InitState(nsize, m, e), map[])
  }

  // Leaves in a set of blocks.
  ghost function Leaves(bs: set<Block>): (n: nat) {
    if bs == {} then 0 else
      var b :| b in bs;
      Pow2(b.k) + Leaves(bs - {b})
  }

  lemma {:induction false} LeavesWithout(bs: set<Block>, b: Block)
    requires b in bs
    ensures Leaves(bs) == Pow2(b.k) + Leaves(bs - {b})
    decreases |bs|
  {
    var c :| c in bs && Leaves(bs) == Pow2(c.k) + Leaves(bs - {c});
    if c != b {
      LeavesWithout(bs - {c}, b);
      LeavesWithout(bs - {b}, c);
      assert bs - {c} - {b} == bs - {b} - {c};
    }
  }

  /** What every reachable state satisfies. */
  ghost predicate Good(sys: Sys, nsize: nat, m: nat, e: nat) {
    && sys.s.nsize == nsize > 0
    && Inv(sys.s)
    && Reserved(sys.s, m, e)
    // the used blocks are the reserved leaves and the blocks handed out
    && (forall b :: b in sys.live <==> Handed(sys.s, m, e, b))
    && FreeLeaves(sys.s.free) + Leaves(sys.live.Keys) == e - m
    && (forall b <- sys.live :: Supported(nsize, sys.live[b]) && b.k == FirstK(sys.live[b].size))
  }

  lemma StartGood(nsize: nat, m: nat, e: nat)
    requires Fits(nsize, e) && 0 < m && 4 * m <= e
    ensures Good(Start(nsize, m, e), nsize, m, e)
  {
    InitReady(nsize, m, e);
    InitFreeTotal(nsize, m, e);
    var s := InitState(nsize, m, e);
    forall b ensures !Handed(s, m, e, b) {
      InitAlloc(nsize, m, e, b);
      if b.k == 0 && InTree(nsize, b) {
        TouchedMeans(nsize, m, e, b);
        assert First(b) == b.i;
      }
    }
  }

  lemma AllocGood(sys: Sys, nsize: nat, m: nat, e: nat, req: Request)
    requires Good(sys, nsize, m, e) && 0 < m
    ensures Good(Next(sys, Alloc(req)), nsize, m, e)
  {
    hide BitsOk, ListsOk, Reserved, FreeLeaves, Leaves, InTree, FirstK, SplitDown;
    var fk := FirstK(req.size);
    if Supported(nsize, req) && AllocStep(sys.s, fk).Some? {
      var (t, c) := AllocStep(sys.s, fk).value;
      AllocCorrect(sys.s, fk);
      AllocLeaves(sys.s, fk);
      ReservedKept(sys.s, t, m, e, Block(nsize, 0));
      NewIsHanded(sys.s, t, m, e, c);
      var live := sys.live[c := req];
      LeavesWithout(live.Keys, c);
      assert live.Keys - {c} == sys.live.Keys;
      forall b ensures b in live <==> Handed(t, m, e, b) {
        assert b in Used(t) <==> b in Used(sys.s) || b == c;
      }
    }
  }

  lemma NewIsHanded(s: State, t: State, m: nat, e: nat, c: Block)
    requires BitsOk(t) && s.nsize == t.nsize > 0 && Reserved(s, m, e)
    requires IsUsed(t, c) && c !in Used(s)
    ensures Handed(t, m, e, c)
  {
    assert !IsUsed(s, c);
    assert c.k == 0 ==> c == Block(0, c.i);
  }

  lemma FreeGood(sys: Sys, nsize: nat, m: nat, e: nat, x: nat)
    requires Good(sys, nsize, m, e) && 0 < m
    ensures Good(Next(sys, Dealloc(x)), nsize, m, e)
  {
    hide BitsOk, ListsOk, Reserved, FreeLeaves, Leaves, InTree, FirstK, FreeUp, SizeOf;
    var b := At(x, SizeOf(sys.s, x, 0));
    if b in sys.live && First(b) == x && b.k < nsize {
      var t := FreeUp(sys.s, b);
      HandedFacts(sys.s, m, e, b);
      FreeCorrect(sys.s, b, Block(0, 0));
      FreeUpLeaves(sys.s, b, Block(0, 0));
      ReservedKept(sys.s, t, m, e, b);
      LeavesWithout(sys.live.Keys, b);
      var live := sys.live - {b};
      assert live.Keys == sys.live.Keys - {b};
      forall c ensures c in live <==> Handed(t, m, e, c) {
        assert c in Used(t) <==> c in Used(sys.s) && c != b;
      }
    }
  }

  /** Every run, of any length and any mix of operations, stays good. */
  lemma {:induction false} RunGood(sys: Sys, ops: seq<Op>, nsize: nat, m: nat, e: nat)
    requires Good(sys, nsize, m, e) && 0 < m
    ensures Good(Run(sys, ops), nsize, m, e)
    decreases |ops|
  {
    hide Good, Next;
    if ops != [] {
      GoodShape(sys, nsize, m, e);
      match ops[0] {
        case Alloc(req) => AllocGood(sys, nsize, m, e, req);
        case Dealloc(x) => FreeGood(sys, nsize, m, e, x);
      }
      RunGood(Next(sys, ops[0]), ops[1..], nsize, m, e);
    }
  }

  lemma GoodShape(sys: Sys, nsize: nat, m: nat, e: nat)
    requires Good(sys, nsize, m, e)
    ensures |sys.s.free| == sys.s.nsize == nsize
  {
  }

  // ---------------------------------------------------------------- what callers get

  lemma RequestFits(n: nat)
    ensures n <= BlkSize(FirstK(n))
  {
    FirstKSpec(n);
  }

  lemma LiveInBounds(sys: Sys, nsize: nat, m: nat, e: nat, b: Block)
    requires Good(sys, nsize, m, e) && 0 < m && b in sys.live
    ensures m <= First(b) && First(b) + Pow2(b.k) <= e
  {
    HandedFacts(sys.s, m, e, b);
    if e < First(b) + Pow2(b.k) {
      var x := First(b) + Pow2(b.k) - 1;
      FirstInTree(nsize, b);
      CoversIff(b, x);
      assert IsUsed(sys.s, Block(0, x)) && Covers(Block(0, x), x);
      UsedApart(sys.s, b, Block(0, x), x);
    }
  }

  lemma LiveApart(sys: Sys, nsize: nat, m: nat, e: nat, b: Block, c: Block)
    requires Good(sys, nsize, m, e) && b in sys.live && c in sys.live && b != c
    ensures First(b) + Pow2(b.k) <= First(c) || First(c) + Pow2(c.k) <= First(b)
  {
    var x := if First(b) <= First(c) then First(c) else First(b);
    CoversIff(b, x);
    CoversIff(c, x);
    if Covers(b, x) {
      UsedApart(sys.s, b, c, x);
    }
  }

  lemma {:induction false} Pow2Divides(a: nat, k: nat, n: nat)
    requires a <= k
    ensures (n * Pow2(k)) % Pow2(a) == 0
  {
    Pow2Add(k - a, a);
    assert n * Pow2(k) == n * Pow2(k - a) * Pow2(a);
    MultipleMod(n * Pow2(k - a), Pow2(a));
  }

  /** Blocks are aligned to every power of two up to their own size and the page size. */
  lemma BlockAligned(base: nat, b: Block, a: nat)
    requires base % MAX_ALIGN == 0 && Pow2(a) <= MAX_ALIGN && Pow2(a) <= BlkSize(b.k)
    ensures Addr(base, b) % Pow2(a) == 0
  {
    Pow2Add(b.k, 4);
    assert Pow2(4) == 16;
    assert Pow2(12) == MAX_ALIGN by { Pow2Add(8, 4); Pow2Add(4, 4); }
    if a > 12 { Pow2Monotone(12, a); }
    if a > b.k + 4 { Pow2Monotone(b.k + 4, a); }
    var g := base / MAX_ALIGN;
    assert base == g * Pow2(12);
    Pow2Divides(a, 12, g);
    Pow2Divides(a, b.k + 4, b.i);
    SumDivides(base, b.i * BlkSize(b.k), Pow2(a));
  }

  lemma SumDivides(x: nat, y: nat, d: nat)
    requires d > 0 && x % d == 0 && y % d == 0
    ensures (x + y) % d == 0
  {
    assert x + y == (x / d + y / d) * d;
    MultipleMod(x / d + y / d, d);
  }

  // Bytes [p, p + n) of the block that answers a request.
  predicate Answers(base: nat, m: nat, e: nat, b: Block, req: Request) {
    && base + m * LEAF_SIZE <= Addr(base, b)
    && Addr(base, b) + BlkSize(b.k) <= base + e * LEAF_SIZE
    && req.size <= BlkSize(b.k)
  }

  /** Live memory: inside the arena, past the metadata, big enough, pairwise disjoint, and all accounted for. */
  lemma RunSafe(base: nat, nsize: nat, m: nat, e: nat, ops: seq<Op>)
    requires Fits(nsize, e) && 0 < m && 4 * m <= e
    ensures var sys := Run(Start(nsize, m, e), ops);
      && Inv(sys.s)
      && (forall b <- sys.live :: Answers(base, m, e, b, sys.live[b]))
      && (forall b, c :: b in sys.live && c in sys.live && b != c ==>
            Addr(base, b) + BlkSize(b.k) <= Addr(base, c) || Addr(base, c) + BlkSize(c.k) <= Addr(base, b))
      && FreeLeaves(sys.s.free) + Leaves(sys.live.Keys) == e - m
  {
    StartGood(nsize, m, e);
    RunGood(Start(nsize, m, e), ops, nsize, m, e);
    var sys := Run(Start(nsize, m, e), ops);
    hide Run, Start, Inv, Reserved, FreeLeaves, Leaves, Addr, First, Handed;
    forall b | b in sys.live ensures Answers(base, m, e, b, sys.live[b]) {
      LiveInBounds(sys, nsize, m, e, b);
      AddrIsFirst(base, b);
      RequestFits(sys.live[b].size);
    }
    forall b, c | b in sys.live && c in sys.live && b != c
      ensures Addr(base, b) + BlkSize(b.k) <= Addr(base, c) || Addr(base, c) + BlkSize(c.k) <= Addr(base, b)
    {
      LiveApart(sys, nsize, m, e, b, c);
      AddrIsFirst(base, b);
      AddrIsFirst(base, c);
    }
  }

  lemma AtLeast(n: nat, d: nat)
    requires 0 < n && 0 < d && n % d == 0
    ensures d <= n
  {
  }

  /** The note in alloc: a size that is a multiple of the alignment is served by blocks of at least that size. */
  lemma MultipleSuffices(req: Request)
    requires 0 < req.size && 0 < req.align && req.size % req.align == 0
    ensures req.align <= BlkSize(FirstK(req.size))
  {
    AtLeast(req.size, req.align);
    RequestFits(req.size);
  }

  /** A request whose class is at least as big as its alignment gets an aligned address, on every run. */
  lemma RunAligned(base: nat, nsize: nat, m: nat, e: nat, ops: seq<Op>, b: Block, a: nat)
    requires Fits(nsize, e) && 0 < m && 4 * m <= e && base % MAX_ALIGN == 0
    requires var sys := Run(Start(nsize, m, e), ops);
      b in sys.live && sys.live[b].align == Pow2(a) <= BlkSize(FirstK(sys.live[b].size))
    ensures Addr(base, b) % Pow2(a) == 0
  {
    StartGood(nsize, m, e);
    RunGood(Start(nsize, m, e), ops, nsize, m, e);
    var sys := Run(Start(nsize, m, e), ops);
    hide Run, Start, Inv, Reserved, FreeLeaves, Leaves, Handed, FirstK, BlkSize, Pow2, Addr, Fits;
    BlockAligned(base, b, a);
  }

  /** Freeing any live address is understood: the split bits name its block again. */
  lemma LiveAddressDecodes(sys: Sys, nsize: nat, m: nat, e: nat, b: Block)
    requires Good(sys, nsize, m, e) && 0 < m && b in sys.live
    ensures At(First(b), SizeOf(sys.s, First(b), 0)) == b
  {
    HandedFacts(sys.s, m, e, b);
    FirstLeaf(b);
    SizeOfUsed(sys.s, b, First(b), 0);
  }

  /** Freeing a live address takes exactly its block out of the live ones, and out of use. */
  lemma FreeingFrees(sys: Sys, nsize: nat, m: nat, e: nat, b: Block)
    requires Good(sys, nsize, m, e) && 0 < m && b in sys.live
    ensures |sys.s.free| == sys.s.nsize
    ensures var t := Next(sys, Dealloc(First(b)));
      t.live == sys.live - {b} && Used(t.s) == Used(sys.s) - {b}
  {
    hide BitsOk, ListsOk, Reserved, FreeLeaves, Leaves, InTree, FirstK, FreeUp, SizeOf;
    HandedFacts(sys.s, m, e, b);
    LiveAddressDecodes(sys, nsize, m, e, b);
    FreeCorrect(sys.s, b, Block(0, 0));
  }

  /** A request is answered by a new live block exactly if it is supported and some block of its class is wholly free;
      otherwise nothing changes. */
  lemma RequestsServed(sys: Sys, nsize: nat, m: nat, e: nat, req: Request)
    requires Good(sys, nsize, m, e) && 0 < m
    ensures |sys.s.free| == sys.s.nsize
    ensures var t := Next(sys, Alloc(req));
      if Supported(nsize, req) && exists b: Block :: b.k == FirstK(req.size) && InTree(nsize, b) && AllFree(sys.s, b)
      then exists c: Block :: c !in sys.live && c.k == FirstK(req.size) && t.live == sys.live[c := req]
      else t == sys
  {
    hide BitsOk, ListsOk, Reserved, FreeLeaves, Leaves, InTree, FirstK, SplitDown, AllFree;
    if Supported(nsize, req) {
      AllocComplete(sys.s, FirstK(req.size));
      AllocCorrect(sys.s, FirstK(req.size));
    }
  }

  /** An alignment above a page is refused. */
  lemma BigAlignmentRefused(sys: Sys, req: Request)
    requires |sys.s.free| == sys.s.nsize && req.align > 4096
    ensures Next(sys, Alloc(req)) == sys
  {
  }

  // ---------------------------------------------------------------- requests alloc cannot serve

  /** alloc panics exactly on requests of at most 8 bytes or of more than twice the largest block. */
  lemma PanicIff(nsize: nat, req: Request)
    requires 0 < nsize < 64 && req.align <= MAX_ALIGN
    ensures !Supported(nsize, req) <==> req.size <= 8 || BlkSize(nsize) < req.size
  {
    FirstKSpec(req.size);
    if req.size > 8 && FirstK(req.size) <= nsize {
      Pow2Monotone(FirstK(req.size), nsize);
    }
  }

  lemma {:induction false} BuddyIsNext(s: State, b: Block, fk: nat)
    requires |s.free| == s.nsize && fk < b.k < s.nsize
    ensures var (t, c) := SplitDown(s, b, fk);
      |t.free| == t.nsize == s.nsize && c.k == fk && t.free[fk] != [] && Block(fk, t.free[fk][0]) == Buddy(c)
    decreases b.k
  {
    if b.k - 1 > fk {
      BuddyIsNext(SplitOne(s, b), Left(b), fk);
    } else {
      assert SplitDown(SplitOne(s, b), Left(b), fk) == (SplitOne(s, b), Left(b));
    }
  }

  /** Two requests in a row of a class that has to be split are answered by the two halves. */
  lemma TwoHalves(s: State, fk: nat)
    requires |s.free| == s.nsize && fk <= s.nsize && fk < FirstFree(s, fk) < s.nsize
    ensures AllocStep(s, fk).Some?
    ensures var (t, c) := AllocStep(s, fk).value;
      |t.free| == t.nsize == s.nsize && AllocStep(t, fk).Some? && AllocStep(t, fk).value.1 == Buddy(c) && c.k == fk
  {
    var k := FirstFree(s, fk);
    var b := Block(k, s.free[k][0]);
    BuddyIsNext(Take(s, k), b, fk);
    var (t, c) := SplitDown(Take(s, k), b, fk);
    assert AllocStep(s, fk) == Some((t, c));
    assert FirstFree(t, fk) == fk;
  }
}
