/**
 The buddy allocator itself: packed bitmaps, linked free lists, and the loops of alloc,
 size, dealloc and init, each proved against the block tree.
 */
module BuddyAllocator {
  import opened Arith
  import opened Seqs
  import opened Wrappers
  import opened BlockTree
  import opened BuddyOps
  import opened BuddyInit
  import opened BuddyMeta
  import opened BuddyRep
  import BitArray
  import ListHeap

  class BuddyAllocator {
    var initialized: bool
    var base: nat
    var end: nat
    var nsize: nat
    var sizes: seq<SzInfo>        // empty until init has carved it
    const lists: ListHeap.Heap
    ghost var st: State
    ghost var meta: nat           // leaves taken by the allocator's own data

    // Bitmaps and lists represent the ghost state.
    ghost predicate Rep()
      reads this, lists
    {
      && |sizes| == st.nsize == nsize == |st.free|
      && BitsRep(sizes, nsize, st.alloc, st.split)
      && lists.Valid()
      && ListRep(lists.rings, base, st.free)
    }

    ghost function Top(): nat
      reads this
    {
      if base <= end then (end - base) / LEAF_SIZE else 0
    }

    ghost predicate Ready()
      reads this, lists
    {
      && Rep()
      && Inv(st)
      && base % MAX_ALIGN == 0
      && nsize * SZINFO_SIZE <= meta * LEAF_SIZE
      && 0 < meta
      && Reserved(st, meta, Top())
    }

    ghost predicate Valid()
      reads this, lists
    {
      if sizes == [] then !initialized && lists.Valid() && lists.rings == map[] else initialized && Ready()
    }

    constructor ()
      ensures Valid() && sizes == [] && fresh(lists)
    {
      initialized := false;
      base, end, nsize, sizes := 0, 0, 0, [];
      lists := new ListHeap.Heap();
      st, meta := State(0, {}, {}, []), 0;
    }


    method SetAlloc(b: Block, v: bool)
      requires Rep() && InTree(nsize, b)
      modifies this`sizes, this`st
      ensures Rep() && st == old(st).(alloc := Put(old(st).alloc, b, v))
    {
      SetAllocRep(sizes, st, b, v);
      sizes := WithAlloc(sizes, b, v);
      st := st.(alloc := Put(st.alloc, b, v));
    }

    method IsAllocated(b: Block) returns (r: bool)
      requires Rep() && b.k < nsize
      ensures r <==> b in st.alloc
    {
      r := BitArray.IsSet(sizes[b.k].alloc, b.i);
    }

    method IsSplit(b: Block) returns (r: bool)
      requires Rep() && b.k < nsize
      ensures r <==> b in st.split
    {
      r := BitArray.IsSet(sizes[b.k].split, b.i);
    }

    method SetSplit(b: Block, v: bool)
      requires Rep() && InTree(nsize, b) && b.k > 0
      modifies this`sizes, this`st
      ensures Rep() && st == old(st).(split := Put(old(st).split, b, v))
    {
      SetSplitRep(sizes, st, b, v);
      sizes := WithSplit(sizes, b, v);
      st := st.(split := Put(st.split, b, v));
    }

    method PushBlock(k: nat, p: nat, ghost b: Block)
      requires Rep() && b.k == k < nsize && p == Addr(base, b)
      requires nsize * SZINFO_SIZE <= First(b) * LEAF_SIZE
      requires forall c: Block :: c.k < nsize && c.i in st.free[c.k] ==> First(c) != First(b)
      modifies this`st, lists
      ensures Rep() && st == PushFree(old(st), b)
    {
      hide BitsRep, ListRep, Addr, First;
      OnNoList(lists.rings, base, st, b);
      ListHas(lists.rings, base, st.free, k);
      lists.Push(Head(base, k), p);
      ListUpdateRep(old(lists.rings), base, st.free, k, [b.i] + st.free[k]);
      assert Addrs(base, k, [b.i] + st.free[k]) == [p] + Addrs(base, k, st.free[k]);
      st := PushFree(st, b);
    }

    method PopBlock(k: nat) returns (p: nat)
      requires Rep() && k < nsize && st.free[k] != []
      modifies this`st, lists
      ensures Rep() && st == old(st).(free := old(st).free[k := old(st).free[k][1..]])
      ensures p == Addr(base, Block(k, old(st).free[k][0]))
    {
      hide BitsRep, ListRep, Addr;
      ListHas(lists.rings, base, st.free, k);
      var r := lists.Pop(Head(base, k));
      p := r.value;
      ghost var q := st.free[k];
      ListUpdateRep(old(lists.rings), base, st.free, k, q[1..]);
      assert Addrs(base, k, q[1..]) == Addrs(base, k, q)[1..];
      st := st.(free := st.free[k := q[1..]]);
    }

    method RemoveBlock(p: nat, ghost b: Block)
      requires Rep() && b.k < nsize && p == Addr(base, b) && b.i in st.free[b.k]
      modifies this`st, lists
      ensures Rep() && st == old(st).(free := old(st).free[b.k := Without(old(st).free[b.k], b.i)])
    {
      hide BitsRep, ListRep, Addr;
      ghost var q := st.free[b.k];
      ListHas(lists.rings, base, st.free, b.k);
      ghost var j :| 0 <= j < |q| && q[j] == b.i;
      assert Addrs(base, b.k, q)[j] == p;
      hide Addrs;
      lists.Remove(p, Head(base, b.k));
      AddrsWithout(base, b.k, q, b.i);
      ListUpdateRep(old(lists.rings), base, st.free, b.k, Without(q, b.i));
      st := st.(free := st.free[b.k := Without(q, b.i)]);
    }

    // The free list search of alloc.
    method FindFree(fk: nat) returns (k: nat)
      requires Rep() && fk <= nsize
      ensures k == FirstFree(st, fk)
    {
      k := fk;
      while k < nsize
        invariant fk <= k <= nsize
        invariant FirstFree(st, fk) == FirstFree(st, k)
      {
        var empty := lists.IsEmpty(Head(base, k));
        assert empty <==> st.free[k] == [];
        if !empty {
          break;
        }
        k := k + 1;
      }
    }

    // Halve used block b, whose address is p: the right half goes on its free list.
    method SplitStep(k: nat, p: nat, ghost b: Block)
      requires Ready() && b.k == k > 0 && IsUsed(st, b) && p == Addr(base, b)
      modifies this`sizes, this`st, lists
      ensures Ready() && st == SplitOne(old(st), b)
    {
      hide BitsOk, ListsOk, Reserved, BitsRep, ListRep, BlkIndex, Addr, First, InTree;
      ghost var s := st;
      HalvesAddr(base, b);
      IndexOfAddr(base, b);
      IndexOfAddr(base, Left(b));
      SplitPushable(s, meta, Top(), b);
      SplitKeeps(s, meta, Top(), b);
      var q := p + BlkSize(k - 1);
      SetSplit(Block(k, BlkIndex(base, k, p)), true);
      SetAlloc(Block(k - 1, BlkIndex(base, k - 1, p)), true);
      PushBlock(k - 1, q, Right(b));
      assert st == SplitOne(s, b);
    }

    // Pop a block of class k and halve it down to class fk.
    method TakeAndSplit(k0: nat, fk: nat) returns (p: nat, ghost c: Block)
      requires Ready() && fk <= k0 < nsize && st.free[k0] != []
      modifies this`sizes, this`st, lists
      ensures Ready() && (st, c) == SplitDown(Take(old(st), k0), Block(k0, old(st).free[k0][0]), fk)
      ensures p == Addr(base, c)
    {
      hide BitsOk, ListsOk, Reserved, BitsRep, ListRep, BlkIndex, Addr, First, InTree;
      ghost var s, b := st, Block(k0, st.free[k0][0]);
      TakeKeeps(s, meta, Top(), k0);
      IndexOfAddr(base, b);
      p := PopBlock(k0);
      SetAlloc(Block(k0, BlkIndex(base, k0, p)), true);
      assert st == Take(s, k0);
      var k := k0;
      c := b;
      while k > fk
        invariant fk <= k <= k0 && c.k == k && Ready() && IsUsed(st, c) && p == Addr(base, c)
        invariant SplitDown(st, c, fk) == SplitDown(Take(s, k0), b, fk)
      {
        ghost var s' := st;
        HalvesAddr(base, c);
        SplitInv(s', c);
        SplitStep(k, p, c);
        c := Left(c);
        k := k - 1;
      }
    }

    method Alloc(size: nat, align: nat) returns (r: AllocResult)
      requires Valid()
      modifies this`sizes, this`st, lists
      ensures Valid() && (sizes == [] <==> old(sizes) == [])
      ensures old(sizes) == [] || align > MAX_ALIGN ==> r == Null && st == old(st)
      ensures old(sizes) != [] && align <= MAX_ALIGN && FirstK(size) > nsize ==> r == Panic && st == old(st)
      ensures old(sizes) != [] && align <= MAX_ALIGN && FirstK(size) <= nsize ==>
        match AllocStep(old(st), FirstK(size))
        case None => r == Null && st == old(st)
        case Some((t, c)) => r == Ptr(Addr(base, c)) && st == t
    {
      hide BitsOk, ListsOk, Reserved, ListRep, BlkIndex, Addr, First, InTree, FirstK;
      if sizes == [] || align > MAX_ALIGN {
        return Null;
      }
      var fk := FirstK(size);
      if fk > nsize {
        return Panic;  // the slice of size classes starts past its end
      }
      var k := FindFree(fk);
      if k >= nsize {
        return Null;
      }
      var p, c := TakeAndSplit(k, fk);
      return Ptr(p);
    }

    // The class of the block at p, read off the split bitmaps.
    method Size(p: nat) returns (k: nat)
      requires sizes == [] || Rep()
      requires base <= p
      ensures k == if sizes == [] then 0 else SizeOf(st, Quot(p - base, LEAF_SIZE), 0)
    {
      hide BitsRep, ListRep, BlkIndex, At, Quot;
      if sizes == [] {
        return 0;
      }
      ghost var x := Quot(p - base, LEAF_SIZE);
      k := 0;
      while k + 1 < nsize
        invariant 0 <= k < nsize
        invariant SizeOf(st, x, 0) == SizeOf(st, x, k)
      {
        IndexIsAt(base, p, k + 1);
        var split := IsSplit(Block(k + 1, BlkIndex(base, k + 1, p)));
        if split {
          return;
        }
        k := k + 1;
      }
      k := 0;
    }

    // Merge block b, its alloc bit already clear, with its free buddy.
    method MergeStep(k: nat, p: nat, ghost b: Block, ghost s: State) returns (p': nat)
      requires Rep() && s.nsize == nsize && b.k == k < nsize - 2 && p == Addr(base, b)
      requires st == s.(alloc := s.alloc - {b})
      requires Buddy(b).i in s.free[k] && InTree(nsize, Parent(b))
      modifies this`sizes, this`st, lists
      ensures Rep() && st == MergeOne(s, b) && p' == Addr(base, Parent(b))
    {
      hide BitsOk, BitsRep, ListRep, BlkIndex, Addr, InTree, Inv;
      IndexOfAddr(base, b);
      IndexOfAddr(base, Parent(b));
      PairAddr(base, b);
      var bi := BlkIndex(base, k, p);
      var buddy := if bi % 2 == 0 then bi + 1 else bi - 1;
      var q := Addr(base, Block(k, buddy));
      RemoveBlock(q, Buddy(b));
      p' := if buddy % 2 == 0 then q else p;
      SetSplit(Block(k + 1, BlkIndex(base, k + 1, p')), false);
      assert st == MergeOne(s, b);
    }

    // One round of dealloc: clear b's alloc bit, then stop or merge with the buddy.
    method Coalesce(k: nat, p: nat, ghost b: Block) returns (stop: bool, p': nat)
      requires Ready() && Handed(st, meta, Top(), b) && b.k == k < nsize - 1 && p == Addr(base, b)
      modifies this`sizes, this`st, lists
      ensures stop <==> Buddy(b) in old(st).alloc
      ensures stop ==> Rep() && st == old(st).(alloc := old(st).alloc - {b}) && p' == p
      ensures !stop ==> Ready() && st == MergeOne(old(st), b) && p' == Addr(base, Parent(b))
      ensures !stop ==> Handed(st, meta, Top(), Parent(b))
    {
      hide BitsOk, ListsOk, Reserved, BitsRep, ListRep, BlkIndex, Addr, First, InTree, Handed;
      ghost var s := st;
      HandedFacts(s, meta, Top(), b);
      IndexOfAddr(base, b);
      Siblings(b);
      var bi := BlkIndex(base, k, p);
      var buddy := if bi % 2 == 0 then bi + 1 else bi - 1;
      SetAlloc(Block(k, bi), false);
      stop := IsAllocated(Block(k, buddy));
      p' := p;
      if !stop {
        MergeKeeps(s, meta, Top(), b);
        p' := MergeStep(k, p, b, s);
      }
    }

    method Dealloc(p0: nat, ghost b0: Block)
      requires Valid()
      requires sizes != [] ==> Handed(st, meta, Top(), b0) && p0 == Addr(base, b0)
      modifies this`sizes, this`st, lists
      ensures Valid() && (sizes == [] <==> old(sizes) == [])
      ensures old(sizes) == [] ==> unchanged(this) && unchanged(lists)
      ensures old(sizes) != [] ==> st == FreeUp(old(st), b0)
    {
      hide BitsOk, ListsOk, Reserved, BitsRep, ListRep, BlkIndex, Addr, First, InTree, SizeOf, Handed;
      if sizes == [] {
        return;
      }
      var p := p0;
      HandedSize(st, base, meta, Top(), b0);
      var fk := Size(p);
      var k := fk;
      ghost var b, s := b0, st;
      while k < nsize - 1
        invariant fk == k == b.k < nsize && p == Addr(base, b) && s == st
        invariant Ready() && Handed(st, meta, Top(), b)
        invariant FreeUp(st, b) == FreeUp(old(st), b0)
      {
        HandedFacts(s, meta, Top(), b);
        var stop;
        stop, p := Coalesce(k, p, b);
        if stop {
          break;
        }
        b, s := Parent(b), st;
        fk := fk + 1;
        k := k + 1;
      }
      HandedFacts(s, meta, Top(), b);
      ReleaseKeeps(s, meta, Top(), b);
      PushBlock(fk, p, b);
    }

    // Mark the blocks of every class that touch leaves [lo, hi).
    method Mark(start: nat, stop: nat, ghost lo: nat, ghost hi: nat)
      requires Rep() && nsize > 0 && start == base + lo * LEAF_SIZE && stop == base + hi * LEAF_SIZE
      requires hi <= Pow2(nsize - 1)
      requires st.split == set b | b in st.alloc && b.k > 0
      modifies this`sizes, this`st
      ensures Rep() && st.free == old(st).free
      ensures st.split == set b | b in st.alloc && b.k > 0
      ensures forall b: Block :: b in st.alloc <==> b in old(st).alloc || (b.k < nsize && Marked(lo, hi, b))
    {
      hide BitsRep, ListRep, BlkIndex, BlkIndexNext, Ceil, RightCut, LeftCut, InTree;
      var k := 0;
      while k < nsize
        invariant 0 <= k <= nsize && Rep() && st.free == old(st).free
        invariant st.split == set b | b in st.alloc && b.k > 0
        invariant forall b: Block :: b in st.alloc <==> b in old(st).alloc || (b.k < k && Marked(lo, hi, b))
      {
        IndexIsCut(base, k, lo);
        IndexIsCut(base, k, hi);
        var bi := BlkIndex(base, k, start);
        var bj := BlkIndexNext(base, k, stop);
        ghost var first := bi;
        while bi < bj
          invariant first <= bi && (bi <= bj || bi == first) && Rep() && st.free == old(st).free
          invariant st.split == set b | b in st.alloc && b.k > 0
          invariant forall b: Block :: b in st.alloc <==>
            b in old(st).alloc || (b.k < k && Marked(lo, hi, b)) || (b.k == k && first <= b.i < bi)
        {
          MarkedInTree(nsize, lo, hi, Block(k, bi));
          if k > 0 {
            SetSplit(Block(k, bi), true);
          }
          SetAlloc(Block(k, bi), true);
          bi := bi + 1;
        }
        k := k + 1;
      }
    }

    // Put the free half of block b's pair, if just one half is marked, on its list.
    method InitFreePair(k: nat, bi: nat, ghost m: nat, ghost e: nat) returns (bytes: nat)
      requires Rep() && k < nsize - 1 && 0 < m && e <= Pow2(nsize - 1) && nsize * SZINFO_SIZE <= m * LEAF_SIZE
      requires st.alloc == InitState(nsize, m, e).alloc
      requires forall j :: 0 <= j < nsize ==> forall i :: i in st.free[j] ==> i in InitState(nsize, m, e).free[j]
      requires forall i :: i in PairFree(st.alloc, Block(k, bi)) ==>
        i in InitState(nsize, m, e).free[k] && i !in st.free[k]
      modifies this`st, lists
      ensures Rep() && st == old(st).(free := old(st).free[k := PairFree(st.alloc, Block(k, bi)) + old(st).free[k]])
      ensures bytes == |PairFree(st.alloc, Block(k, bi))| * BlkSize(k)
    {
      hide BitsRep, ListRep, Addr, First, InitState;
      var buddy := if bi % 2 == 0 then bi + 1 else bi - 1;
      var left := IsAllocated(Block(k, bi));
      var right := IsAllocated(Block(k, buddy));
      if left != right {
        var i := if left then buddy else bi;
        ghost var b := Block(k, i);
        assert PairFree(st.alloc, Block(k, bi)) == [i];
        forall c: Block | c.k < nsize && c.i in st.free[c.k] ensures First(c) != First(b) {
          InitPushable(nsize, m, e, b, c);
        }
        InitPushable(nsize, m, e, b, b);
        PushBlock(k, Addr(base, Block(k, i)), b);
        bytes := BlkSize(k);
      } else {
        assert [] + st.free[k] == st.free[k];
        assert st.free[k := st.free[k]] == st.free;
        bytes := 0;
      }
    }

    // Fill free list k.
    method InitFreeClass(k: nat, left: nat, ghost m: nat, ghost e: nat) returns (bytes: nat)
      requires Rep() && k < nsize - 1 && 0 < m && 4 * m <= e <= Pow2(nsize - 1) && nsize * SZINFO_SIZE <= m * LEAF_SIZE
      requires left == base + m * LEAF_SIZE && end == base + e * LEAF_SIZE
      requires st == InitState(nsize, m, e).(free := ListsBelow(nsize, m, e, k))
      modifies this`st, lists
      ensures Rep() && st == InitState(nsize, m, e).(free := ListsBelow(nsize, m, e, k + 1))
      ensures bytes == |InitState(nsize, m, e).free[k]| * BlkSize(k)
    {
      hide BitsRep, ListRep, InitState, BlkIndex, BlkIndexNext, LeftCut, RightCut, PairFree, BlkSize, ListsBelow;
      ListsStep(nsize, m, e, k);
      IndexIsCut(base, k, m);
      IndexIsCut(base, k, e);
      PairsPushable(nsize, m, e, k);
      var l := BlkIndexNext(base, k, left);
      var r := BlkIndex(base, k, end);
      ghost var was, q := st.free, InitState(nsize, m, e).free[k];
      ghost var q0, q1 := PairFree(st.alloc, Block(k, l)), PairFree(st.alloc, Block(k, r));
      assert q0 + was[k] == q0;
      bytes := InitFreePair(k, l, m, e);
      if l < r {
        var n := InitFreePair(k, r, m, e);
        assert st.free == was[k := q1 + q0];
        bytes := bytes + n;
      } else {
        assert q == [] + q0 == q0;
      }
    }

    // Fill the free lists class by class; returns the bytes put on them.
    method InitFree(left: nat, ghost m: nat, ghost e: nat) returns (free: nat)
      requires Rep() && nsize > 1 && 0 < m && 4 * m <= e <= Pow2(nsize - 1) && nsize * SZINFO_SIZE <= m * LEAF_SIZE
      requires left == base + m * LEAF_SIZE && end == base + e * LEAF_SIZE
      requires st == InitState(nsize, m, e).(free := ListsBelow(nsize, m, e, 0))
      modifies this`st, lists
      ensures Rep() && st == InitState(nsize, m, e)
      ensures free == FreeLeaves(st.free) * LEAF_SIZE
    {
      hide BitsRep, ListRep, InitState, FreeLeaves, ListsBelow;
      var k := 0;
      free := 0;
      NothingListed(nsize, m, e);
      while k < nsize - 1
        invariant 0 <= k <= nsize - 1 && Rep()
        invariant st == InitState(nsize, m, e).(free := ListsBelow(nsize, m, e, k))
        invariant free == FreeLeaves(st.free) * LEAF_SIZE
      {
        ListClass(nsize, m, e, k);
        var n := InitFreeClass(k, left, m, e);
        free := free + n;
        k := k + 1;
      }
      TopUnlisted(nsize, m, e);
    }

    // Lay out the list heads and the alloc bitmaps, all zero, from p0 up.
    method CarveAlloc(p0: nat) returns (p: nat)
      requires lists.Valid() && lists.rings == map[] && nsize > 0
      modifies this`sizes, lists
      ensures lists.Valid() && ListRep(lists.rings, base, NoLists(nsize))
      ensures AllocCarved(sizes, nsize, nsize) && SplitCarved(sizes, nsize, 1)
      ensures p == p0 + BitmapBytes(nsize)
    {
      hide ListRep, BitmapSize, AllocCarved, SplitCarved, BitmapBytes, Pow2;
      NoHeads(base);
      sizes := seq(nsize, _ => SzInfo([], []));
      NoneCarved(nsize);
      p := p0;
      var k := 0;
      while k < nsize
        invariant 0 <= k <= nsize && lists.Valid() && ListRep(lists.rings, base, NoLists(k))
        invariant |sizes| == nsize && AllocCarved(sizes, nsize, k) && SplitCarved(sizes, nsize, 1)
        invariant p == p0 + BitmapBytes(nsize) - BitmapBytes(nsize - k)
      {
        HeadAdded(lists.rings, base, k);
        lists.Init(Head(base, k));
        var sz := BitmapSize(Pow2(nsize - 1 - k));
        CarvedMore(sizes, nsize, k);
        sizes := sizes[k := sizes[k].(alloc := seq(sz, _ => 0))];
        p := p + sz;
        k := k + 1;
      }
    }

    // Lay out the split bitmaps, all zero, from p0 up; class 0 has none.
    method CarveSplit(p0: nat) returns (p: nat)
      requires nsize > 0 && AllocCarved(sizes, nsize, nsize) && SplitCarved(sizes, nsize, 1)
      modifies this`sizes
      ensures AllocCarved(sizes, nsize, nsize) && SplitCarved(sizes, nsize, nsize)
      ensures p == p0 + BitmapBytes(nsize - 1)
    {
      hide BitmapSize;
      p := p0;
      var k := 1;
      while k < nsize
        invariant 1 <= k <= nsize && AllocCarved(sizes, nsize, nsize) && SplitCarved(sizes, nsize, k)
        invariant p == p0 + BitmapBytes(nsize - 1) - BitmapBytes(nsize - k)
      {
        var sz := BitmapSize(Pow2(nsize - 1 - k));
        sizes := sizes[k := sizes[k].(split := seq(sz, _ => 0))];
        p := p + sz;
        k := k + 1;
      }
    }

    // Mark the metadata [base, p) and the tail past end; returns the bytes of the tail.
    method MarkArena(p: nat, ghost e: nat) returns (unavailable: nat)
      requires Rep() && nsize > 0 && st == State(nsize, {}, {}, NoLists(nsize))
      requires p == base + meta * LEAF_SIZE && meta <= Pow2(nsize - 1)
      requires end == base + e * LEAF_SIZE && e <= Pow2(nsize - 1)
      modifies this`sizes, this`st, this`end
      ensures Rep() && st == InitState(nsize, meta, e).(free := ListsBelow(nsize, meta, e, 0))
      ensures end == base + e * LEAF_SIZE && unavailable == (Pow2(nsize - 1) - e) * LEAF_SIZE
    {
      hide BitsRep, ListRep, InitState, ListsBelow, Marked, Pow2, RoundUp;
      Mark(base, p, 0, meta);
      unavailable := BlkSize(nsize - 1) - (end - base);
      if unavailable > 0 {
        RoundUpExact(unavailable, Pow2(nsize - 1) - e);
        unavailable := RoundUp(unavailable, LEAF_SIZE);
      }
      Mark(end, base + BlkSize(nsize - 1), e, Pow2(nsize - 1));
      end := base + BlkSize(nsize - 1) - unavailable;
      MarkedState(st, nsize, meta, e);
    }

    // Carve, mark and fill an arena whose bounds and number of classes are set.
    method Build(ghost e: nat) returns (r: InitResult)
      requires lists.Valid() && lists.rings == map[]
      requires base % MAX_ALIGN == 0 && end == base + e * LEAF_SIZE
      requires Fits(nsize, e) && e % 256 == 0
      modifies this`sizes, this`st, this`end, this`meta, this`initialized, lists
      ensures r == Ok && initialized && end == base + e * LEAF_SIZE && meta == MetaLeaves(nsize) && 4 * meta <= e
      ensures Rep() && st == InitState(nsize, meta, e)
    {
      hide BitsRep, ListRep, InitState, FreeLeaves, ListsBelow, BitmapBytes, Pow2, AllocCarved, SplitCarved, RoundUp;
      MetaIsAQuarter(nsize, e);
      var p := CarveAlloc(base + nsize * SZINFO_SIZE);
      p := CarveSplit(p);
      ZeroedRep(sizes, nsize);
      st := State(nsize, {}, {}, NoLists(nsize));
      RoundUpShift(base, p - base);
      p := RoundUp(p, LEAF_SIZE);
      meta := MetaLeaves(nsize);
      var metaBytes := p - base;
      var unavailable := MarkArena(p, e);
      var free := InitFree(p, meta, e);
      InitFreeTotal(nsize, meta, e);
      initialized := free == BlkSize(nsize - 1) - metaBytes - unavailable;
      r := if initialized then Ok else AllocatorBug;
    }

    method Init(base0: nat, end0: nat) returns (r: InitResult)
      requires Valid()
      requires !initialized ==> base0 > 0 && RoundUp(base0, MAX_ALIGN) + MAX_ALIGN <= RoundDown(end0, MAX_ALIGN)
      modifies this, lists
      ensures Valid()
      ensures old(initialized) ==> r == InitTwice && unchanged(this) && unchanged(lists)
      ensures !old(initialized) ==>
        && r == Ok && initialized
        && base == RoundUp(base0, MAX_ALIGN) && end == RoundDown(end0, MAX_ALIGN)
        && Fits(nsize, Top()) && Top() % 256 == 0 && meta == MetaLeaves(nsize) && 4 * meta <= Top()
        && st == InitState(nsize, meta, Top())
    {
      hide BitsRep, ListRep, InitState, Reserved, BitsOk, ListsOk, RoundUp, RoundDown, Fits, MetaLeaves, Pow2, Quot;
      if initialized {
        return InitTwice;
      }
      Arena(base0, end0);
      base := RoundUp(base0, MAX_ALIGN);
      end := RoundDown(end0, MAX_ALIGN);
      nsize := ChooseSizes(end - base);
      ghost var e := Quot(end - base, LEAF_SIZE);
      r := Build(e);
      InitReady(nsize, meta, e);
      assert Top() == e by { LeavesOf(e); }
    }
  }
}
