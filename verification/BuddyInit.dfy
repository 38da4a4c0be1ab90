/**
 The state the allocator starts in.

 With m leaves of metadata at the front of the arena and leaves e and up unavailable, a block
 is marked when it touches either range.  The free blocks then lie between the two cuts.
 */
module BuddyInit {
  import opened Arith
  import opened Seqs
  import opened BlockTree
  import opened BuddyOps

  // Quotient rounded up.
  function Ceil(n: nat, d: nat): (q: nat)
    requires d > 0
  {
    if n % d != 0 then n / d + 1 else n / d
  }

  lemma CeilBounds(n: nat, d: nat, i: nat)
    requires d > 0
    ensures i < Ceil(n, d) <==> i * d < n
  {
    DivBounds(n, d);
    var q := n / d;
    if i < q {
      MulMono(i + 1, q, d);
    } else {
      MulMono(q, i, d);
      if i > q {
        MulMono(q + 1, i, d);
      }
    }
  }

  lemma FloorBounds(n: nat, d: nat, i: nat)
    requires d > 0
    ensures i < n / d <==> (i + 1) * d <= n
  {
    DivBounds(n, d);
    var q := n / d;
    if i < q {
      MulMono(i + 1, q, d);
    } else {
      MulMono(q, i, d);
    }
  }

  // At class k the blocks with index in [LeftCut, RightCut) are wholly between the cuts.
  function LeftCut(m: nat, k: nat): (i: nat) {
    Ceil(m, Pow2(k))
  }

  function RightCut(e: nat, k: nat): (i: nat) {
    Quot(e, Pow2(k))
  }

  lemma CeilTwice(n: nat, d: nat)
    requires d > 0
    ensures Ceil(n, 2 * d) == (Ceil(n, d) + 1) / 2
  {
    var c, c' := (Ceil(n, d) + 1) / 2, Ceil(n, 2 * d);
    CeilBounds(n, d, 2 * c);
    CeilBounds(n, 2 * d, c);
    CeilBounds(n, d, 2 * c');
    CeilBounds(n, 2 * d, c');
    hide Ceil;
    assert 2 * c * d == c * (2 * d) && 2 * c' * d == c' * (2 * d);
  }

  lemma CutsHalve(m: nat, e: nat, k: nat)
    ensures LeftCut(m, k + 1) == (LeftCut(m, k) + 1) / 2
    ensures RightCut(e, k + 1) == RightCut(e, k) / 2
  {
    hide Ceil;
    CeilTwice(m, Pow2(k));
    DivTwice(e, Pow2(k));
  }

  /** The block touches [0, m) or [e, end). */
  predicate Touched(nsize: nat, m: nat, e: nat, b: Block) {
    InTree(nsize, b) && (b.i < LeftCut(m, b.k) || RightCut(e, b.k) <= b.i)
  }

  lemma TouchedMeans(nsize: nat, m: nat, e: nat, b: Block)
    requires InTree(nsize, b)
    ensures Touched(nsize, m, e, b) <==> First(b) < m || e < First(b) + Pow2(b.k)
  {
    var h := Pow2(b.k);
    CeilBounds(m, h, b.i);
    FloorBounds(e, h, b.i);
    hide Ceil, Pow2;
    assert (b.i + 1) * h == b.i * h + h;
  }

  // Free list left by pushing the free half of the pair at each cut.
  function InitList(l: nat, r: nat): (q: seq<nat>) {
    (if r % 2 == 1 && l < r then [r - 1] else []) + (if l % 2 == 1 && l < r then [l] else [])
  }

  function InitState(nsize: nat, m: nat, e: nat): (s: State)
    ensures s.nsize == nsize && |s.free| == nsize
  {
    var alloc :=
      set k: nat, i: nat | k < nsize && i < Nblk(nsize, k) && Touched(nsize, m, e, Block(k, i)) :: Block(k, i);
    State(nsize, alloc, set b | b in alloc && b.k > 0,
          seq(nsize, k requires k >= 0 => InitList(LeftCut(m, k), RightCut(e, k))))
  }

  lemma InitAlloc(nsize: nat, m: nat, e: nat, b: Block)
    ensures b in InitState(nsize, m, e).alloc <==> Touched(nsize, m, e, b)
  {
    assert b == Block(b.k, b.i);
  }

  lemma ParentInTree(nsize: nat, b: Block)
    requires InTree(nsize, b) && b.k < nsize - 1
    ensures InTree(nsize, Parent(b))
  {
  }

  lemma ChildrenInTree(nsize: nat, b: Block)
    requires InTree(nsize, b) && b.k > 0
    ensures InTree(nsize, Left(b)) && InTree(nsize, Right(b))
  {
  }

  lemma TouchedUp(nsize: nat, m: nat, e: nat, b: Block)
    requires Touched(nsize, m, e, b) && b.k < nsize - 1
    ensures Touched(nsize, m, e, Parent(b))
  {
    CutsHalve(m, e, b.k);
  }

  lemma TouchedDown(nsize: nat, m: nat, e: nat, b: Block)
    requires Touched(nsize, m, e, b) && b.k > 0
    ensures Touched(nsize, m, e, Left(b)) || Touched(nsize, m, e, Right(b))
  {
    CutsHalve(m, e, b.k - 1);
    ChildrenInTree(nsize, b);
  }

  lemma InitBits(nsize: nat, m: nat, e: nat)
    requires nsize > 1 && 0 < m
    ensures BitsOk(InitState(nsize, m, e))
  {
    var s := InitState(nsize, m, e);
    forall b ensures b in s.alloc <==> Touched(nsize, m, e, b) {
      InitAlloc(nsize, m, e, b);
    }
    hide InitState, Touched;
    forall b {:trigger Parent(b)} | b in s.alloc && b.k < nsize - 1 ensures Parent(b) in s.split {
      TouchedUp(nsize, m, e, b);
    }
    forall b {:trigger Left(b)} | b in s.split && b.k > 0 ensures Left(b) in s.alloc || Right(b) in s.alloc {
      TouchedDown(nsize, m, e, b);
    }
  }

  // A block between the cuts whose parent is not is the one at an odd cut.
  lemma AtTheCut(l: nat, r: nat, i: nat)
    ensures i in InitList(l, r) <==> l <= i < r && !((l + 1) / 2 <= i / 2 < r / 2)
    ensures NoDup(InitList(l, r))
    ensures |InitList(l, r)| == Gap(l, r) - 2 * Gap((l + 1) / 2, r / 2)
  {
  }

  function Gap(l: nat, r: nat): (n: nat) {
    if l < r then r - l else 0
  }

  lemma BetweenIsInTree(nsize: nat, e: nat, b: Block)
    requires b.k < nsize && e <= Pow2(nsize - 1) && b.i < RightCut(e, b.k)
    ensures InTree(nsize, b)
  {
    var h := Pow2(b.k);
    FloorBounds(e, h, b.i);
    assert Pow2(nsize - 1) == Nblk(nsize, b.k) * h by {
      Pow2Add(nsize - 1 - b.k, b.k);
      assert nsize - 1 - b.k + b.k == nsize - 1;
    }
    if b.i >= Nblk(nsize, b.k) {
      MulMono(Nblk(nsize, b.k) + 1, b.i + 1, h);
    }
  }

  lemma NoneAtTop(nsize: nat, m: nat, e: nat)
    requires nsize > 1 && 0 < m && e <= Pow2(nsize - 1)
    ensures RightCut(e, nsize - 1) <= LeftCut(m, nsize - 1)
  {
    var n := Pow2(nsize - 1);
    CeilBounds(m, n, 0);
    FloorBounds(e, n, 1);
  }

  lemma InitFreeIff(nsize: nat, m: nat, e: nat, b: Block)
    requires nsize > 1 && 0 < m && e <= Pow2(nsize - 1) && b.k < nsize
    ensures b.i in InitList(LeftCut(m, b.k), RightCut(e, b.k)) <==> IsFree(InitState(nsize, m, e), b)
  {
    var s := InitState(nsize, m, e);
    var l, r := LeftCut(m, b.k), RightCut(e, b.k);
    AtTheCut(l, r, b.i);
    CutsHalve(m, e, b.k);
    InitAlloc(nsize, m, e, b);
    InitAlloc(nsize, m, e, Parent(b));
    assert Parent(b) in s.split <==> Touched(nsize, m, e, Parent(b));
    hide InitState, InitList, LeftCut, RightCut;
    if b.k == nsize - 1 {
      NoneAtTop(nsize, m, e);
    } else if b.i < r {
      BetweenIsInTree(nsize, e, b);
      ParentInTree(nsize, b);
    }
  }

  lemma InitLists(nsize: nat, m: nat, e: nat)
    requires nsize > 1 && 0 < m && e <= Pow2(nsize - 1)
    ensures ListsOk(InitState(nsize, m, e))
  {
    var s := InitState(nsize, m, e);
    forall k, i | 0 <= k < nsize && 0 <= i ensures i in s.free[k] <==> IsFree(s, Block(k, i)) {
      InitFreeIff(nsize, m, e, Block(k, i));
    }
    forall k | 0 <= k < nsize ensures NoDup(s.free[k]) {
      AtTheCut(LeftCut(m, k), RightCut(e, k), 0);
    }
  }

  /** The start state satisfies the buddy invariant. */
  lemma InitInv(nsize: nat, m: nat, e: nat)
    requires nsize > 1 && 0 < m && e <= Pow2(nsize - 1)
    ensures Inv(InitState(nsize, m, e))
  {
    InitBits(nsize, m, e);
    InitLists(nsize, m, e);
  }

  // ---------------------------------------------------------------- the self-check

  lemma Regroup(n: nat, g: nat, g': nat, h: nat)
    requires n == g - 2 * g'
    ensures n * h + g' * (2 * h) == g * h
  {
    assert (n + 2 * g') * h == n * h + 2 * g' * h;
  }

  lemma {:induction false} CutsTelescope(m: nat, e: nat, q: seq<seq<nat>>)
    requires forall k :: 0 <= k < |q| ==> q[k] == InitList(LeftCut(m, k), RightCut(e, k))
    ensures FreeLeaves(q) + Gap(LeftCut(m, |q|), RightCut(e, |q|)) * Pow2(|q|) == Gap(m, e)
    decreases |q|
  {
    if q == [] {
      assert Pow2(0) == 1 && LeftCut(m, 0) == m && RightCut(e, 0) == e;
    } else {
      var k := |q| - 1;
      CutsTelescope(m, e, q[..k]);
      CutsHalve(m, e, k);
      AtTheCut(LeftCut(m, k), RightCut(e, k), 0);
      Regroup(|q[k]|, Gap(LeftCut(m, k), RightCut(e, k)), Gap(LeftCut(m, k + 1), RightCut(e, k + 1)), Pow2(k));
      hide LeftCut, RightCut, InitList, Gap;
    }
  }

  /** The free lists start with exactly the leaves between the metadata and the unavailable tail. */
  lemma InitFreeTotal(nsize: nat, m: nat, e: nat)
    requires nsize > 1 && 0 < m <= e <= Pow2(nsize - 1)
    ensures FreeLeaves(InitState(nsize, m, e).free) == e - m
  {
    var s := InitState(nsize, m, e);
    CutsTelescope(m, e, s.free);
    NoneAtTop(nsize, m, e);
    CutsHalve(m, e, nsize - 1);
    assert Gap(LeftCut(m, nsize), RightCut(e, nsize)) == 0;
  }

  /** Metadata filling at most a quarter of the arena keeps the two cuts in different pairs. */
  lemma PairsDiffer(m: nat, e: nat, k: nat)
    requires 0 < m && 4 * m <= e
    ensures !(LeftCut(m, k) % 2 == 0 && RightCut(e, k) == LeftCut(m, k) + 1)
  {
    var l, r, h := LeftCut(m, k), RightCut(e, k), Pow2(k);
    if l % 2 == 0 && r == l + 1 {
      CeilBounds(m, h, 0);
      CeilBounds(m, h, l - 1);
      FloorBounds(e, h, r);
      hide LeftCut, RightCut, Pow2;
      assert (l - 1) * h < m && e < (l + 2) * h;
      assert 4 * (l - 1) * h == 4 * ((l - 1) * h);
      MulMono(l + 2, 4 * (l - 1), h);
    }
  }

  // ---------------------------------------------------------------- what mark and initfree do

  /** The blocks of every class that touch leaves [lo, hi). */
  predicate Marked(lo: nat, hi: nat, b: Block) {
    RightCut(lo, b.k) <= b.i < LeftCut(hi, b.k)
  }

  lemma MarkedInTree(nsize: nat, lo: nat, hi: nat, b: Block)
    requires b.k < nsize && hi <= Pow2(nsize - 1) && Marked(lo, hi, b)
    ensures InTree(nsize, b)
  {
    var h, n := Pow2(b.k), Nblk(nsize, b.k);
    CeilBounds(hi, h, b.i);
    assert Pow2(nsize - 1) == n * h by {
      Pow2Add(nsize - 1 - b.k, b.k);
      assert nsize - 1 - b.k + b.k == nsize - 1;
    }
    if b.i >= n {
      MulMono(n, b.i, h);
    }
  }

  lemma CutOfWhole(nsize: nat, k: nat)
    requires k < nsize
    ensures LeftCut(Pow2(nsize - 1), k) == Nblk(nsize, k)
  {
    var h, n := Pow2(k), Nblk(nsize, k);
    assert Pow2(nsize - 1) == n * h by {
      Pow2Add(nsize - 1 - k, k);
      assert nsize - 1 - k + k == nsize - 1;
    }
    DivUnique(n * h, h, n);
  }

  /** Marking the metadata and the tail marks exactly the touched blocks. */
  lemma MarksAreTouched(nsize: nat, m: nat, e: nat, b: Block)
    requires nsize > 0 && m <= Pow2(nsize - 1)
    ensures Touched(nsize, m, e, b) <==>
      b.k < nsize && (Marked(0, m, b) || Marked(e, Pow2(nsize - 1), b))
  {
    if b.k < nsize {
      CutOfWhole(nsize, b.k);
      assert RightCut(0, b.k) == 0;
      if Marked(0, m, b) {
        MarkedInTree(nsize, 0, m, b);
      }
    }
  }

  // Index of the free half when exactly one of a pair of buddies is marked.
  function PairFree(alloc: set<Block>, b: Block): (q: seq<nat>) {
    if (b in alloc) == (Buddy(b) in alloc) then []
    else if b in alloc then [Buddy(b).i] else [b.i]
  }

  lemma CutsInTree(nsize: nat, m: nat, e: nat, k: nat)
    requires k < nsize - 1 && m <= Pow2(nsize - 1) && e <= Pow2(nsize - 1)
    ensures LeftCut(m, k) <= Nblk(nsize, k) && RightCut(e, k) <= Nblk(nsize, k)
    ensures Nblk(nsize, k) % 2 == 0
  {
    hide LeftCut, RightCut;
    var l, r, n := LeftCut(m, k), RightCut(e, k), Nblk(nsize, k);
    assert n == 2 * Pow2(nsize - 2 - k);
    if l > 0 {
      MarkedZero(m, k, l - 1);
      MarkedInTree(nsize, 0, m, Block(k, l - 1));
    }
    if r > 0 {
      BetweenIsInTree(nsize, e, Block(k, r - 1));
    }
  }

  lemma MarkedZero(m: nat, k: nat, i: nat)
    requires i < LeftCut(m, k)
    ensures Marked(0, m, Block(k, i))
  {
    assert RightCut(0, k) == 0;
  }

  /** The two pairs at the cuts hold exactly the free blocks of class k, each pushed once. */
  lemma PairsAtCuts(nsize: nat, m: nat, e: nat, k: nat)
    requires k < nsize - 1 && 0 < m && 4 * m <= e <= Pow2(nsize - 1)
    ensures var l, r, alloc := LeftCut(m, k), RightCut(e, k), InitState(nsize, m, e).alloc;
      InitList(l, r) == (if l < r then PairFree(alloc, Block(k, r)) else []) + PairFree(alloc, Block(k, l))
  {
    var l, r, alloc := LeftCut(m, k), RightCut(e, k), InitState(nsize, m, e).alloc;
    CutsInTree(nsize, m, e, k);
    PairsDiffer(m, e, k);
    forall i: nat ensures Block(k, i) in alloc <==> i < Nblk(nsize, k) && (i < l || r <= i) {
      InitAlloc(nsize, m, e, Block(k, i));
    }
    hide InitState, LeftCut, RightCut, Nblk, InitList, PairFree;
    PairsOfCuts(alloc, k, l, r, Nblk(nsize, k));
  }

  lemma PairsOfCuts(alloc: set<Block>, k: nat, l: nat, r: nat, n: nat)
    requires l <= n && r <= n && n % 2 == 0 && !(l % 2 == 0 && r == l + 1)
    requires forall i: nat :: Block(k, i) in alloc <==> i < n && (i < l || r <= i)
    ensures PairFree(alloc, Block(k, l)) == if l % 2 == 1 && l < r then [l] else []
    ensures l < r ==> PairFree(alloc, Block(k, r)) == if r % 2 == 1 then [r - 1] else []
    ensures InitList(l, r) == (if l < r then PairFree(alloc, Block(k, r)) else []) + PairFree(alloc, Block(k, l))
  {
  }
}
