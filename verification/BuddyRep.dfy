/**
 How the allocator's memory represents the block tree: the class of a request, packed bitmaps,
 list heads and nodes at addresses, and what each step of the tree asks of them.
 */
module BuddyRep {
  import opened Arith
  import opened Seqs
  import opened Wrappers
  import opened BlockTree
  import opened BuddyOps
  import opened BuddyInit
  import opened BuddyMeta
  import BitArray
  import ListHeap

  // Bitmaps of one size class; class 0 has no split bitmap.
  datatype SzInfo = SzInfo(alloc: seq<bv8>, split: seq<bv8>)

  datatype InitResult = Ok | InitTwice | AllocatorBug

  datatype AllocResult = Panic | Null | Ptr(p: nat)

  function BlkSize(k: nat): (n: nat)
    ensures n > 0
  {
    Pow2(k) * LEAF_SIZE
  }

  // ---------------------------------------------------------------- class of a request

  // The least power of two, from 2^k up, that is at least n.
  function NextPow2(n: nat, k: nat): (p: nat)
    decreases n - Pow2(k)
  {
    if n <= Pow2(k) then Pow2(k) else NextPow2(n, k + 1)
  }

  // Trailing zero bits of a 64-bit word.
  function TrailingZeros(x: nat): (n: nat) {
    if x == 0 then 64 else if x % 2 == 1 then 0 else 1 + TrailingZeros(x / 2)
  }

  function FirstK(n: nat): (k: nat) {
    TrailingZeros(NextPow2(n, 0) / LEAF_SIZE)
  }

  lemma {:induction false} NextPow2Spec(n: nat, k: nat) returns (j: nat)
    ensures j >= k && NextPow2(n, k) == Pow2(j) && n <= Pow2(j)
    ensures j > k ==> Pow2(j - 1) < n
    decreases n - Pow2(k)
  {
    if n <= Pow2(k) {
      j := k;
    } else {
      j := NextPow2Spec(n, k + 1);
    }
  }

  lemma {:induction false} TrailingZerosOfPow2(k: nat)
    ensures TrailingZeros(Pow2(k)) == k
  {
    if k > 0 {
      TrailingZerosOfPow2(k - 1);
    }
  }

  lemma {:induction false} FirstKIs(n: nat, j: nat)
    requires NextPow2(n, 0) == Pow2(j)
    ensures FirstK(n) == if j < 4 then 64 else j - 4
  {
    hide NextPow2;
    assert Pow2(4) == 16 && Pow2(3) == 8;
    if j < 4 {
      Pow2Monotone(j, 3);
    } else {
      Pow2Add(4, j - 4);
      assert Pow2(j) / LEAF_SIZE == Pow2(j - 4);
      TrailingZerosOfPow2(j - 4);
    }
  }

  /** FirstK is the least class whose blocks hold n bytes, exactly for n above 8. */
  lemma {:induction false} FirstKSpec(n: nat)
    ensures n <= 8 ==> FirstK(n) == 64
    ensures n > 8 ==> n <= BlkSize(FirstK(n)) && forall k :: n <= BlkSize(k) ==> FirstK(n) <= k
  {
    var j := NextPow2Spec(n, 0);
    FirstKIs(n, j);
    hide FirstK, NextPow2;
    assert Pow2(4) == 16 && Pow2(3) == 8;
    if n <= 8 {
      if j > 3 {
        Pow2Monotone(3, j - 1);
      }
    } else {
      if j < 4 {
        Pow2Monotone(j, 3);
      }
      Pow2Add(j - 4, 4);
      forall k | n <= BlkSize(k) ensures j - 4 <= k {
        if k < j - 4 {
          Pow2Add(k, 4);
          Pow2Monotone(k + 4, j - 1);
        }
      }
    }
  }

  // ---------------------------------------------------------------- representation

  // The list head of class k is the first part of the k-th size record.
  function Head(base: nat, k: nat): (a: nat) {
    base + k * SZINFO_SIZE
  }

  function Addr(base: nat, b: Block): (a: nat)
    ensures a >= base
  {
    base + b.i * BlkSize(b.k)
  }

  lemma AddrIsFirst(base: nat, b: Block)
    ensures Addr(base, b) == base + First(b) * LEAF_SIZE
  {
    assert b.i * (Pow2(b.k) * LEAF_SIZE) == b.i * Pow2(b.k) * LEAF_SIZE;
  }

  function Addrs(base: nat, k: nat, q: seq<nat>): (a: seq<nat>)
    ensures |a| == |q|
  {
    seq(|q|, j requires 0 <= j < |q| => Addr(base, Block(k, q[j])))
  }

  ghost predicate BitsRep(sizes: seq<SzInfo>, nsize: nat, alloc: set<Block>, split: set<Block>) {
    && |sizes| == nsize
    && (forall k :: 0 <= k < nsize ==>
          Nblk(nsize, k) <= 8 * |sizes[k].alloc| && (k > 0 ==> Nblk(nsize, k) <= 8 * |sizes[k].split|))
    && (forall k, i: nat :: 0 <= k < nsize ==> (BitArray.IsSet(sizes[k].alloc, i) <==> Block(k, i) in alloc))
    && (forall k, i: nat :: 0 <= k < nsize ==> (BitArray.IsSet(sizes[k].split, i) <==> Block(k, i) in split))
  }

  ghost predicate ListRep(rings: map<nat, seq<nat>>, base: nat, free: seq<seq<nat>>) {
    && (forall h :: h in rings <==> exists k :: 0 <= k < |free| && h == Head(base, k))
    && (forall k :: 0 <= k < |free| ==> rings[Head(base, k)] == Addrs(base, k, free[k]))
  }

  lemma ListHas(rings: map<nat, seq<nat>>, base: nat, free: seq<seq<nat>>, k: nat)
    requires ListRep(rings, base, free) && k < |free|
    ensures Head(base, k) in rings && rings[Head(base, k)] == Addrs(base, k, free[k])
  {
  }

  function WithAlloc(sizes: seq<SzInfo>, b: Block, v: bool): (t: seq<SzInfo>)
    requires b.k < |sizes| && b.i / 8 < |sizes[b.k].alloc|
  {
    sizes[b.k := sizes[b.k].(alloc := BitArray.Set(sizes[b.k].alloc, b.i, v))]
  }

  function WithSplit(sizes: seq<SzInfo>, b: Block, v: bool): (t: seq<SzInfo>)
    requires b.k < |sizes| && b.i / 8 < |sizes[b.k].split|
  {
    sizes[b.k := sizes[b.k].(split := BitArray.Set(sizes[b.k].split, b.i, v))]
  }

  function Put(bits: set<Block>, b: Block, v: bool): (r: set<Block>) {
    if v then bits + {b} else bits - {b}
  }

  lemma SetAllocRep(sizes: seq<SzInfo>, s: State, b: Block, v: bool)
    requires BitsRep(sizes, s.nsize, s.alloc, s.split) && InTree(s.nsize, b)
    ensures b.i / 8 < |sizes[b.k].alloc|
    ensures BitsRep(WithAlloc(sizes, b, v), s.nsize, Put(s.alloc, b, v), s.split)
  {
    var t := WithAlloc(sizes, b, v);
    forall k, i: nat | 0 <= k < s.nsize
      ensures BitArray.IsSet(t[k].alloc, i) <==> Block(k, i) in Put(s.alloc, b, v)
    {
      BitArray.SetChangesOne(sizes[b.k].alloc, b.i, v, i);
    }
  }

  lemma SetSplitRep(sizes: seq<SzInfo>, s: State, b: Block, v: bool)
    requires BitsRep(sizes, s.nsize, s.alloc, s.split) && InTree(s.nsize, b) && b.k > 0
    ensures b.i / 8 < |sizes[b.k].split|
    ensures BitsRep(WithSplit(sizes, b, v), s.nsize, s.alloc, Put(s.split, b, v))
  {
    var t := WithSplit(sizes, b, v);
    forall k, i: nat | 0 <= k < s.nsize
      ensures BitArray.IsSet(t[k].split, i) <==> Block(k, i) in Put(s.split, b, v)
    {
      BitArray.SetChangesOne(sizes[b.k].split, b.i, v, i);
    }
  }

  lemma HeadsDiffer(base: nat, j: nat, k: nat)
    ensures Head(base, j) == Head(base, k) <==> j == k
  {
  }

  lemma ListUpdateRep(rings: map<nat, seq<nat>>, base: nat, free: seq<seq<nat>>, k: nat, q: seq<nat>)
    requires ListRep(rings, base, free) && k < |free|
    ensures ListRep(rings[Head(base, k) := Addrs(base, k, q)], base, free[k := q])
  {
    var rings', free' := rings[Head(base, k) := Addrs(base, k, q)], free[k := q];
    forall j | 0 <= j < |free'| ensures rings'[Head(base, j)] == Addrs(base, j, free'[j]) {
      HeadsDiffer(base, j, k);
    }
  }

  lemma AddrsInjective(base: nat, k: nat, i: nat, j: nat)
    ensures Addr(base, Block(k, i)) == Addr(base, Block(k, j)) <==> i == j
  {
    if i < j {
      MulMono(i + 1, j, BlkSize(k));
    } else if j < i {
      MulMono(j + 1, i, BlkSize(k));
    }
  }

  lemma {:induction false} AddrsWithout(base: nat, k: nat, q: seq<nat>, i: nat)
    ensures Addrs(base, k, Without(q, i)) == Without(Addrs(base, k, q), Addr(base, Block(k, i)))
  {
    if q != [] {
      AddrsInjective(base, k, q[0], i);
      assert Addrs(base, k, q)[1..] == Addrs(base, k, q[1..]);
      if q[0] != i {
        AddrsWithout(base, k, q[1..], i);
        assert Addrs(base, k, [q[0]] + Without(q[1..], i)) ==
          [Addr(base, Block(k, q[0]))] + Addrs(base, k, Without(q[1..], i));
      }
    }
  }

  /** A block past the size records that starts where no free block starts is on no list. */
  lemma OnNoList(rings: map<nat, seq<nat>>, base: nat, s: State, b: Block)
    requires ListRep(rings, base, s.free)
    requires |s.free| * SZINFO_SIZE <= First(b) * LEAF_SIZE
    requires forall c: Block :: c.k < |s.free| && c.i in s.free[c.k] ==> First(c) != First(b)
    ensures ListHeap.Unlinked(rings, Addr(base, b))
  {
    var a := Addr(base, b);
    AddrIsFirst(base, b);
    forall h | h in rings ensures a != h && a !in rings[h] {
      var k :| 0 <= k < |s.free| && h == Head(base, k);
      forall j | 0 <= j < |s.free[k]| ensures rings[h][j] != a {
        AddrIsFirst(base, Block(k, s.free[k][j]));
      }
    }
  }

  function BlkIndex(base: nat, k: nat, p: nat): (i: nat)
    requires base <= p
  {
    Quot(p - base, BlkSize(k))
  }

  lemma IndexOfAddr(base: nat, b: Block)
    ensures BlkIndex(base, b.k, Addr(base, b)) == b.i
  {
    DivUnique(b.i * BlkSize(b.k), BlkSize(b.k), b.i);
  }

  lemma HalvesAddr(base: nat, b: Block)
    requires b.k > 0
    ensures Addr(base, Left(b)) == Addr(base, b)
    ensures Addr(base, Right(b)) == Addr(base, b) + BlkSize(b.k - 1)
  {
    FirstLeaf(b);
    AddrIsFirst(base, b);
    AddrIsFirst(base, Left(b));
    AddrIsFirst(base, Right(b));
  }

  /** The leaves of the metadata and of the unavailable tail are in use, one by one. */
  ghost predicate Reserved(s: State, m: nat, e: nat)
    requires s.nsize > 0
  {
    && (forall x: nat :: x < m ==> IsUsed(s, Block(0, x)))
    && (forall x: nat :: e <= x < Nblk(s.nsize, 0) ==> IsUsed(s, Block(0, x)))
  }

  lemma BeyondMeta(s: State, m: nat, e: nat, c: Block)
    requires BitsOk(s) && Reserved(s, m, e)
    requires IsFree(s, c) || (IsUsed(s, c) && (c.k > 0 || c.i >= m))
    ensures First(c) >= m
  {
    if First(c) < m {
      var r := Block(0, First(c));
      FirstLeaf(c);
      assert Covers(r, First(c));
      assert c != r;
      UsedApart(s, r, c, First(c));
    }
  }

  // A block inside a used block starts where no listed block starts.
  lemma NoListedStart(s: State, u: Block, x: nat, c: Block)
    requires Inv(s) && IsUsed(s, u) && Covers(u, x)
    requires c.k < s.nsize && c.i in s.free[c.k]
    ensures First(c) != x
  {
    assert IsFree(s, Block(c.k, c.i));
    FirstLeaf(c);
    UsedApart(s, u, c, x);
  }

  lemma ReservedKept(s: State, t: State, m: nat, e: nat, b: Block)
    requires s.nsize == t.nsize > 0 && Reserved(s, m, e)
    requires Used(s) - {b} <= Used(t) && (b.k > 0 || (m <= b.i < e))
    ensures Reserved(t, m, e)
  {
    forall r | r in Used(s) && r != b ensures IsUsed(t, r) {
      assert r in Used(t);
    }
    forall r | IsUsed(s, r) ensures r in Used(s) {
    }
  }

  lemma SplitKeeps(s: State, m: nat, e: nat, b: Block)
    requires Inv(s) && Reserved(s, m, e) && IsUsed(s, b) && b.k > 0
    ensures Inv(SplitOne(s, b)) && Reserved(SplitOne(s, b), m, e)
  {
    SplitInv(s, b);
    SplitUsed(s, b);
    ReservedKept(s, SplitOne(s, b), m, e, b);
  }

  lemma SplitPushable(s: State, m: nat, e: nat, b: Block)
    requires Inv(s) && Reserved(s, m, e) && IsUsed(s, b) && b.k > 0
    ensures InTree(s.nsize, b) && InTree(s.nsize, Left(b)) && InTree(s.nsize, Right(b))
    ensures m <= First(Right(b))
    ensures forall c: Block :: c.k < s.nsize && c.i in s.free[c.k] ==> First(c) != First(Right(b))
  {
    ChildrenInTree(s.nsize, b);
    FirstLeaf(b);
    BeyondMeta(s, m, e, b);
    CoversIff(b, First(Right(b)));
    forall c: Block | c.k < s.nsize && c.i in s.free[c.k] ensures First(c) != First(Right(b)) {
      NoListedStart(s, b, First(Right(b)), c);
    }
  }

  /** A used block that is not one of the reserved leaves: memory handed out by alloc. */
  predicate Handed(s: State, m: nat, e: nat, b: Block) {
    IsUsed(s, b) && (b.k > 0 || m <= b.i < e)
  }

  lemma TakeKeeps(s: State, m: nat, e: nat, k: nat)
    requires Inv(s) && Reserved(s, m, e) && k < s.nsize && s.free[k] != []
    ensures InTree(s.nsize, Block(k, s.free[k][0]))
    ensures Inv(Take(s, k)) && Reserved(Take(s, k), m, e) && IsUsed(Take(s, k), Block(k, s.free[k][0]))
  {
    TakeInv(s, k);
    TakeUsed(s, k);
    ReservedKept(s, Take(s, k), m, e, Block(s.nsize, 0));
  }

  lemma HandedFacts(s: State, m: nat, e: nat, b: Block)
    requires Inv(s) && Reserved(s, m, e) && 0 < m && Handed(s, m, e, b)
    ensures InTree(s.nsize, b) && b.k < s.nsize - 1 && InTree(s.nsize, Parent(b))
    ensures IsUsed(s, Block(0, 0)) && b != Block(0, 0)
    ensures m <= First(b)
  {
    assert Nblk(s.nsize, s.nsize - 1) == 1;
    ParentInTree(s.nsize, b);
    BeyondMeta(s, m, e, b);
  }

  lemma MergeKeeps(s: State, m: nat, e: nat, b: Block)
    requires Inv(s) && Reserved(s, m, e) && 0 < m && Handed(s, m, e, b) && Buddy(b) !in s.alloc
    ensures b.k < s.nsize - 2 && Inv(MergeOne(s, b)) && Reserved(MergeOne(s, b), m, e)
    ensures Handed(MergeOne(s, b), m, e, Parent(b))
    ensures Buddy(b).i in s.free[b.k]
  {
    HandedFacts(s, m, e, b);
    MergeStopsBelowRoot(s, b, Block(0, 0));
    MergeInv(s, b);
    MergeUsed(s, b);
    ReservedKept(s, MergeOne(s, b), m, e, b);
    Siblings(b);
    BuddyInTree(s.nsize, b);
    assert IsFree(s, Buddy(b));
  }

  lemma ReleaseKeeps(s: State, m: nat, e: nat, b: Block)
    requires Inv(s) && Reserved(s, m, e) && 0 < m && Handed(s, m, e, b) && Buddy(b) in s.alloc
    ensures Inv(Release(s, b)) && Reserved(Release(s, b), m, e)
    ensures forall c: Block :: c.k < s.nsize && c.i in s.free[c.k] ==> First(c) != First(b)
  {
    HandedFacts(s, m, e, b);
    ReleaseInv(s, b);
    assert Used(s) - {b} <= Used(Release(s, b));
    ReservedKept(s, Release(s, b), m, e, b);
    FirstLeaf(b);
    forall c: Block | c.k < s.nsize && c.i in s.free[c.k] ensures First(c) != First(b) {
      NoListedStart(s, b, First(b), c);
    }
  }

  lemma PairAddr(base: nat, b: Block)
    ensures Addr(base, Parent(b)) == Addr(base, if b.i % 2 == 0 then b else Buddy(b))
  {
    var l := if b.i % 2 == 0 then b else Buddy(b);
    assert Left(Parent(b)) == l;
    HalvesAddr(base, Parent(b));
  }

  lemma DivDiv(n: nat, c: nat, d: nat)
    requires c > 0 && d > 0
    ensures Quot(n, c * d) == Quot(Quot(n, d), c)
  {
    var q := Quot(n, d);
    var r := Quot(q, c);
    var low := r * c;
    MulAssoc(r, c, d);
    MulMono(low, q, d);
    MulMono(q + 1, low + c, d);
    MulDist(low, c, d);
    MulDist(q, 1, d);
    DivUnique(n, c * d, r);
  }

  lemma IndexIsAt(base: nat, p: nat, k: nat)
    requires base <= p
    ensures At(Quot(p - base, LEAF_SIZE), k) == Block(k, BlkIndex(base, k, p))
  {
    DivDiv(p - base, Pow2(k), LEAF_SIZE);
    AtDiv(Quot(p - base, LEAF_SIZE), k);
  }

  lemma HandedSize(s: State, base: nat, m: nat, e: nat, b: Block)
    requires Inv(s) && Reserved(s, m, e) && 0 < m && Handed(s, m, e, b)
    ensures SizeOf(s, Quot(Addr(base, b) - base, LEAF_SIZE), 0) == b.k < s.nsize - 1
  {
    HandedFacts(s, m, e, b);
    AddrIsFirst(base, b);
    assert Quot(Addr(base, b) - base, LEAF_SIZE) == First(b);
    FirstLeaf(b);
    SizeOfUsed(s, b, First(b), 0);
  }

  function BlkIndexNext(base: nat, k: nat, p: nat): (i: nat)
    requires base <= p
  {
    Ceil(p - base, BlkSize(k))
  }

  // Indices computed from addresses are the cuts of the leaf number.
  lemma ScaledFloor(x: nat, h: nat)
    requires h > 0
    ensures Quot(x * LEAF_SIZE, h * LEAF_SIZE) == Quot(x, h)
  {
    var q := Quot(x, h);
    assert q * (h * LEAF_SIZE) == q * h * LEAF_SIZE;
    DivUnique(x * LEAF_SIZE, h * LEAF_SIZE, q);
  }

  lemma ScaledCeil(x: nat, h: nat)
    requires h > 0
    ensures Ceil(x * LEAF_SIZE, h * LEAF_SIZE) == Ceil(x, h)
  {
    hide Ceil;
    var c, c' := Ceil(x, h), Ceil(x * LEAF_SIZE, h * LEAF_SIZE);
    CeilBounds(x, h, c);
    CeilBounds(x, h, c');
    CeilBounds(x * LEAF_SIZE, h * LEAF_SIZE, c);
    CeilBounds(x * LEAF_SIZE, h * LEAF_SIZE, c');
    assert c * (h * LEAF_SIZE) == c * h * LEAF_SIZE && c' * (h * LEAF_SIZE) == c' * h * LEAF_SIZE;
  }

  lemma IndexIsCut(base: nat, k: nat, x: nat)
    ensures BlkIndex(base, k, base + x * LEAF_SIZE) == RightCut(x, k)
    ensures BlkIndexNext(base, k, base + x * LEAF_SIZE) == LeftCut(x, k)
  {
    hide Quot, Ceil;
    ScaledFloor(x, Pow2(k));
    ScaledCeil(x, Pow2(k));
  }

  lemma InitReady(nsize: nat, m: nat, e: nat)
    requires Fits(nsize, e) && 0 < m && 4 * m <= e
    ensures Inv(InitState(nsize, m, e)) && Reserved(InitState(nsize, m, e), m, e)
  {
    InitInv(nsize, m, e);
    var s := InitState(nsize, m, e);
    assert Pow2(0) == 1;
    forall x: nat | x < m || e <= x < Nblk(nsize, 0) ensures IsUsed(s, Block(0, x)) {
      InitAlloc(nsize, m, e, Block(0, x));
      TouchedMeans(nsize, m, e, Block(0, x));
    }
  }

  // The lists when initfree has done the classes below k.
  function ListsBelow(nsize: nat, m: nat, e: nat, k: nat): (free: seq<seq<nat>>)
    ensures |free| == nsize
  {
    seq(nsize, j requires 0 <= j < nsize => if j < k then InitState(nsize, m, e).free[j] else [])
  }

  /** A block free at the start begins past the metadata and where no other free block begins. */
  lemma InitPushable(nsize: nat, m: nat, e: nat, b: Block, c: Block)
    requires nsize > 1 && 0 < m && e <= Pow2(nsize - 1)
    requires b.k < nsize && b.i in InitState(nsize, m, e).free[b.k]
    requires c.k < nsize && c.i in InitState(nsize, m, e).free[c.k]
    ensures m <= First(b) && (c != b ==> First(c) != First(b))
  {
    var s := InitState(nsize, m, e);
    InitInv(nsize, m, e);
    assert IsFree(s, Block(b.k, b.i)) && IsFree(s, Block(c.k, c.i));
    hide InitState;
    FirstLeaf(b);
    FirstLeaf(c);
    if c != b {
      FreeApart(s, b, c, First(b));
    }
    InitAlloc(nsize, m, e, b);
    TouchedMeans(nsize, m, e, b);
  }

  lemma PairsPushable(nsize: nat, m: nat, e: nat, k: nat)
    requires k < nsize - 1 && 0 < m && 4 * m <= e <= Pow2(nsize - 1)
    ensures var s, l, r := InitState(nsize, m, e), LeftCut(m, k), RightCut(e, k);
      var q, q' := PairFree(s.alloc, Block(k, l)), PairFree(s.alloc, Block(k, r));
      && s.free[k] == (if l < r then q' else []) + q
      && (forall i :: i in q ==> i in s.free[k])
      && (l < r ==> forall i :: i in q' ==> i in s.free[k] && i !in q)
  {
    var l, r := LeftCut(m, k), RightCut(e, k);
    PairsAtCuts(nsize, m, e, k);
    AtTheCut(l, r, 0);
    var s := InitState(nsize, m, e);
    assert s.free[k] == InitList(l, r);
    hide InitState, InitList, LeftCut, RightCut;
    var q, q' := PairFree(s.alloc, Block(k, l)), PairFree(s.alloc, Block(k, r));
    hide PairFree;
    assert l < r ==> forall i :: i in q' ==> i !in q;
  }

  lemma {:induction false} EmptyLeaves(free: seq<seq<nat>>)
    requires forall k :: 0 <= k < |free| ==> free[k] == []
    ensures FreeLeaves(free) == 0
  {
    if free != [] {
      EmptyLeaves(free[..|free| - 1]);
    }
  }

  lemma NothingListed(nsize: nat, m: nat, e: nat)
    ensures FreeLeaves(ListsBelow(nsize, m, e, 0)) == 0
  {
    EmptyLeaves(ListsBelow(nsize, m, e, 0));
  }

  lemma InBytes(a: nat, n: nat, h: nat)
    ensures (a + n * h) * LEAF_SIZE == a * LEAF_SIZE + n * (h * LEAF_SIZE)
  {
  }

  lemma ListsStep(nsize: nat, m: nat, e: nat, k: nat)
    requires k < nsize
    ensures var was, q := ListsBelow(nsize, m, e, k), InitState(nsize, m, e).free;
      && was[k] == [] && ListsBelow(nsize, m, e, k + 1) == was[k := q[k]]
      && forall j, i :: 0 <= j < nsize && i in was[j] ==> i in q[j]
  {
  }

  lemma {:induction false} ListClass(nsize: nat, m: nat, e: nat, k: nat)
    requires k < nsize
    ensures FreeLeaves(ListsBelow(nsize, m, e, k + 1)) * LEAF_SIZE ==
      FreeLeaves(ListsBelow(nsize, m, e, k)) * LEAF_SIZE + |InitState(nsize, m, e).free[k]| * BlkSize(k)
  {
    hide FreeLeaves, InitState, ListsBelow, Pow2;
    var was, q := ListsBelow(nsize, m, e, k), InitState(nsize, m, e).free[k];
    ListsStep(nsize, m, e, k);
    FreeLeavesUpdate(was, k, q);
    InBytes(FreeLeaves(was), |q|, Pow2(k));
  }

  lemma TopUnlisted(nsize: nat, m: nat, e: nat)
    requires nsize > 1 && 0 < m && e <= Pow2(nsize - 1)
    ensures ListsBelow(nsize, m, e, nsize - 1) == InitState(nsize, m, e).free
  {
    NoneAtTop(nsize, m, e);
    var s, free := InitState(nsize, m, e), ListsBelow(nsize, m, e, nsize - 1);
    forall j | 0 <= j < nsize ensures free[j] == s.free[j] {
      assert j == nsize - 1 ==> InitList(LeftCut(m, j), RightCut(e, j)) == [];
    }
  }

  function NoLists(nsize: nat): (free: seq<seq<nat>>)
    ensures |free| == nsize
  {
    seq(nsize, _ => [])
  }

  ghost predicate Zeroed(a: seq<bv8>) {
    forall j :: 0 <= j < |a| ==> a[j] == 0
  }

  ghost predicate AllocCarved(sizes: seq<SzInfo>, nsize: nat, k: nat) {
    && k <= |sizes| == nsize
    && forall j :: 0 <= j < k ==> Zeroed(sizes[j].alloc) && Nblk(nsize, j) <= 8 * |sizes[j].alloc|
  }

  ghost predicate SplitCarved(sizes: seq<SzInfo>, nsize: nat, k: nat) {
    && k <= |sizes| == nsize
    && (forall j :: 0 <= j < nsize ==> Zeroed(sizes[j].split))
    && forall j :: 0 < j < k ==> Nblk(nsize, j) <= 8 * |sizes[j].split|
  }

  lemma NoneCarved(nsize: nat)
    requires nsize > 0
    ensures var sizes := seq(nsize, _ => SzInfo([], [])); AllocCarved(sizes, nsize, 0) && SplitCarved(sizes, nsize, 1)
    ensures BitmapBytes(0) == 0
  {
  }

  // One more alloc bitmap laid out.
  lemma CarvedMore(sizes: seq<SzInfo>, nsize: nat, k: nat)
    requires AllocCarved(sizes, nsize, k) && SplitCarved(sizes, nsize, 1) && k < nsize
    ensures var sz := BitmapSize(Pow2(nsize - 1 - k));
      var sizes' := sizes[k := sizes[k].(alloc := seq(sz, _ => 0))];
      && AllocCarved(sizes', nsize, k + 1) && SplitCarved(sizes', nsize, 1)
      && BitmapBytes(nsize - k) == BitmapBytes(nsize - (k + 1)) + sz
  {
    hide BitmapSize;
  }

  lemma NoHeads(base: nat)
    ensures ListRep(map[], base, NoLists(0))
  {
  }

  lemma HeadAdded(rings: map<nat, seq<nat>>, base: nat, k: nat)
    requires ListRep(rings, base, NoLists(k))
    ensures ListHeap.Unlinked(rings, Head(base, k))
    ensures ListRep(rings[Head(base, k) := []], base, NoLists(k + 1))
  {
    forall h | h in rings ensures rings[h] == [] && h != Head(base, k) {
      var j :| 0 <= j < k && h == Head(base, j);
      HeadsDiffer(base, j, k);
    }
    var rings' := rings[Head(base, k) := []];
    forall h ensures h in rings' <==> exists j :: 0 <= j < k + 1 && h == Head(base, j) {
    }
  }

  lemma ChosenSizes(size: nat, lg: nat, nsize: nat)
    requires size % MAX_ALIGN == 0 && MAX_ALIGN <= size
    requires Pow2(lg) <= Quot(size, LEAF_SIZE) < Pow2(lg + 1)
    requires nsize == if size > BlkSize(lg) then lg + 2 else lg + 1
    ensures var e := Quot(size, LEAF_SIZE);
      e % 256 == 0 && Fits(nsize, e) && size == e * LEAF_SIZE
  {
    hide Quot;
    var e, g := Quot(size, LEAF_SIZE), size / MAX_ALIGN;
    assert size == MAX_ALIGN * g;
    assert e == 256 * g;
    assert Pow2(8) == 256 by { Pow2Add(4, 4); assert Pow2(4) == 16; }
    if lg < 8 {
      Pow2Monotone(lg + 1, 8);
    }
  }

  // The number of classes for an arena of the given size.
  method ChooseSizes(size: nat) returns (nsize: nat)
    requires size % MAX_ALIGN == 0 && MAX_ALIGN <= size
    ensures var e := Quot(size, LEAF_SIZE);
      Fits(nsize, e) && e % 256 == 0 && size == e * LEAF_SIZE
  {
    var lg := Log2(Quot(size, LEAF_SIZE));
    nsize := lg + 1;
    if size > BlkSize(nsize - 1) {
      nsize := nsize + 1;
    }
    ChosenSizes(size, lg, nsize);
  }

  lemma WholePages(base: nat, end: nat)
    requires base % MAX_ALIGN == 0 && end % MAX_ALIGN == 0 && base <= end
    ensures (end - base) % MAX_ALIGN == 0
  {
  }

  // The whole pages between two addresses.
  lemma Arena(base0: nat, end0: nat)
    requires base0 > 0 && RoundUp(base0, MAX_ALIGN) + MAX_ALIGN <= RoundDown(end0, MAX_ALIGN)
    ensures var base, end := RoundUp(base0, MAX_ALIGN), RoundDown(end0, MAX_ALIGN);
      base % MAX_ALIGN == 0 && (end - base) % MAX_ALIGN == 0 && MAX_ALIGN <= end - base
  {
    hide RoundUp, RoundDown;
    WholePages(RoundUp(base0, MAX_ALIGN), RoundDown(end0, MAX_ALIGN));
  }

  lemma LeavesOf(e: nat)
    ensures Quot(e * LEAF_SIZE, LEAF_SIZE) == e
  {
    DivUnique(e * LEAF_SIZE, LEAF_SIZE, e);
  }

  lemma RoundUpExact(n: nat, q: nat)
    requires n == q * LEAF_SIZE && n > 0
    ensures RoundUp(n, LEAF_SIZE) == n
  {
  }

  lemma RoundUpShift(base: nat, n: nat)
    requires base % MAX_ALIGN == 0 && n > 0
    ensures RoundUp(base + n, LEAF_SIZE) == base + RoundUp(n, LEAF_SIZE)
  {
    var g, q := base / MAX_ALIGN, Quot(n - 1, LEAF_SIZE);
    assert base == 256 * g * LEAF_SIZE;
    DivUnique(base + n - 1, LEAF_SIZE, 256 * g + q);
  }

  lemma MarkedState(s: State, nsize: nat, m: nat, e: nat)
    requires nsize > 0 && m <= Pow2(nsize - 1) && s.nsize == nsize && s.free == NoLists(nsize)
    requires s.split == set b | b in s.alloc && b.k > 0
    requires forall b: Block :: b in s.alloc <==>
      (b.k < nsize && Marked(0, m, b)) || (b.k < nsize && Marked(e, Pow2(nsize - 1), b))
    ensures s == InitState(nsize, m, e).(free := ListsBelow(nsize, m, e, 0))
  {
    var t := InitState(nsize, m, e);
    forall b: Block ensures b in s.alloc <==> b in t.alloc {
      InitAlloc(nsize, m, e, b);
      MarksAreTouched(nsize, m, e, b);
    }
    assert s.alloc == t.alloc;
    assert s.free == ListsBelow(nsize, m, e, 0);
  }

  lemma ZeroedRep(sizes: seq<SzInfo>, nsize: nat)
    requires AllocCarved(sizes, nsize, nsize) && SplitCarved(sizes, nsize, nsize)
    ensures BitsRep(sizes, nsize, {}, {})
  {
    forall k, i: nat | 0 <= k < nsize
      ensures !BitArray.IsSet(sizes[k].alloc, i) && !BitArray.IsSet(sizes[k].split, i)
    {
      assert sizes[k].alloc == seq(|sizes[k].alloc|, _ => 0);
      assert sizes[k].split == seq(|sizes[k].split|, _ => 0);
      BitArray.ZeroedIsClear(|sizes[k].alloc|, i);
      BitArray.ZeroedIsClear(|sizes[k].split|, i);
    }
  }
}
