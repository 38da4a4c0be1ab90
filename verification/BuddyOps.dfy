/**
 The allocator's operations as functions on the block tree, and what they promise:
 the buddy invariant, exact bookkeeping of the blocks in use, and the round trip.
 */
module BuddyOps {
  import opened Arith
  import opened Seqs
  import opened Wrappers
  import opened BlockTree

  // ---------------------------------------------------------------- operations

  // The first class at or above k with a free block; nsize if there is none.
  function FirstFree(s: State, k: nat): (r: nat)
    requires |s.free| == s.nsize && k <= s.nsize
    ensures k <= r <= s.nsize
    ensures r < s.nsize ==> s.free[r] != []
    ensures forall j :: k <= j < r ==> s.free[j] == []
    decreases s.nsize - k
  {
    if k == s.nsize || s.free[k] != [] then k else FirstFree(s, k + 1)
  }

  // Halve a used block until it has class fk, always keeping the left half.
  function SplitDown(s: State, b: Block, fk: nat): (r: (State, Block))
    requires |s.free| == s.nsize && fk <= b.k < s.nsize
    decreases b.k
  {
    if b.k == fk then (s, b) else SplitDown(SplitOne(s, b), Left(b), fk)
  }

  // Allocate a block of class fk.
  function AllocStep(s: State, fk: nat): (r: Option<(State, Block)>)
    requires |s.free| == s.nsize && fk <= s.nsize
  {
    var k := FirstFree(s, fk);
    if k == s.nsize then None else Some(SplitDown(Take(s, k), Block(k, s.free[k][0]), fk))
  }

  // The class of the block that starts at leaf x, read off the split bits from class k up.
  function SizeOf(s: State, x: nat, k: nat): (r: nat)
    decreases s.nsize - k
  {
    if k + 1 >= s.nsize then 0
    else if At(x, k + 1) in s.split then k
    else SizeOf(s, x, k + 1)
  }

  // Free block b, merging upwards while the buddy is free.
  function FreeUp(s: State, b: Block): (t: State)
    requires |s.free| == s.nsize && b.k < s.nsize
    decreases s.nsize - b.k
  {
    if b.k >= s.nsize - 1 then PushFree(s, b)
    else if Buddy(b) in s.alloc then Release(s, b)
    else FreeUp(MergeOne(s, b), Parent(b))
  }

  function Used(s: State): (u: set<Block>) {
    s.alloc - s.split
  }

  // ---------------------------------------------------------------- leaves of a block

  /** The block of class k holding leaf x is found by dividing by the block size. */
  lemma {:induction false} AtDiv(x: nat, k: nat)
    ensures At(x, k).i == x / Pow2(k)
  {
    if k > 0 {
      AtDiv(x, k - 1);
      DivTwice(x, Pow2(k - 1));
    }
  }

  lemma CoversIff(b: Block, x: nat)
    ensures Covers(b, x) <==> First(b) <= x < First(b) + Pow2(b.k)
  {
    AtDiv(x, b.k);
    DivBounds(x, Pow2(b.k));
    if First(b) <= x < First(b) + Pow2(b.k) {
      DivUnique(x, Pow2(b.k), b.i);
    }
  }

  lemma FirstLeaf(b: Block)
    ensures Covers(b, First(b))
    ensures b.k > 0 ==> First(Left(b)) == First(b)
    ensures b.k > 0 ==> First(Right(b)) == First(b) + Pow2(b.k - 1)
  {
    CoversIff(b, First(b));
    if b.k > 0 {
      var h := Pow2(b.k - 1);
      assert b.i * (2 * h) == (2 * b.i) * h;
      assert (2 * b.i + 1) * h == (2 * b.i) * h + h;
    }
  }

  // ---------------------------------------------------------------- paths to the root

  lemma {:induction false} AboveAllocIsSplit(s: State, b: Block, x: nat, k: nat)
    requires BitsOk(s) && b in s.alloc && Covers(b, x) && b.k < k < s.nsize
    ensures At(x, k) in s.split
    decreases k
  {
    if k > b.k + 1 {
      AboveAllocIsSplit(s, b, x, k - 1);
    }
  }

  lemma AboveSplitIsSplit(s: State, b: Block, x: nat, k: nat)
    requires BitsOk(s) && Parent(b) in s.split && Covers(b, x) && b.k < k < s.nsize
    ensures At(x, k) in s.split
  {
    if k > b.k + 1 {
      AboveAllocIsSplit(s, Parent(b), x, k);
    }
  }

  /** A used block and any other used or free block have no leaf in common. */
  lemma UsedApart(s: State, b: Block, c: Block, x: nat)
    requires BitsOk(s) && IsUsed(s, b) && (IsUsed(s, c) || IsFree(s, c)) && b != c
    requires Covers(b, x)
    ensures !Covers(c, x)
  {
    if Covers(c, x) {
      if c.k < b.k {
        if IsUsed(s, c) {
          AboveAllocIsSplit(s, c, x, b.k);
        } else {
          AboveSplitIsSplit(s, c, x, b.k);
        }
      } else if b.k < c.k {
        AboveAllocIsSplit(s, b, x, c.k);
      }
    }
  }

  /** Two different free blocks have no leaf in common. */
  lemma FreeApart(s: State, b: Block, c: Block, x: nat)
    requires BitsOk(s) && IsFree(s, b) && IsFree(s, c) && b != c
    requires Covers(b, x)
    ensures !Covers(c, x)
  {
    if Covers(c, x) {
      if c.k < b.k {
        AboveSplitIsSplit(s, c, x, b.k);
      } else if b.k < c.k {
        AboveSplitIsSplit(s, b, x, c.k);
      }
    }
  }

  lemma {:induction false} AtInTree(nsize: nat, x: nat, k: nat)
    requires k < nsize && x < Nblk(nsize, 0)
    ensures InTree(nsize, At(x, k))
  {
    if k > 0 {
      AtInTree(nsize, x, k - 1);
    }
  }

  lemma {:induction false} FindBelow(s: State, x: nat, k: nat) returns (j: nat)
    requires BitsOk(s) && k < s.nsize && x < Nblk(s.nsize, 0)
    requires At(x, k) in s.alloc
    ensures j <= k && (IsUsed(s, At(x, j)) || IsFree(s, At(x, j)))
    decreases k
  {
    if At(x, k) !in s.split {
      return k;
    }
    AtInTree(s.nsize, x, k - 1);
    if At(x, k - 1) in s.alloc {
      j := FindBelow(s, x, k - 1);
    } else {
      return k - 1;
    }
  }

  /** The used and free blocks tile the arena: every leaf lies in exactly one of them. */
  lemma Partition(s: State, x: nat)
    requires BitsOk(s) && x < Nblk(s.nsize, 0)
    ensures exists b :: (IsUsed(s, b) || IsFree(s, b)) && Covers(b, x)
    ensures forall b, c :: (IsUsed(s, b) || IsFree(s, b)) && (IsUsed(s, c) || IsFree(s, c)) ==>
              Covers(b, x) && Covers(c, x) ==> b == c
  {
    AtInTree(s.nsize, x, s.nsize - 1);
    assert At(x, s.nsize - 1) == Block(s.nsize - 1, 0);
    var j := FindBelow(s, x, s.nsize - 1);
    assert Covers(At(x, j), x);
    forall b, c | (IsUsed(s, b) || IsFree(s, b)) && (IsUsed(s, c) || IsFree(s, c))
                  && Covers(b, x) && Covers(c, x)
      ensures b == c
    {
      if b != c {
        if IsUsed(s, b) {
          UsedApart(s, b, c, x);
        } else if IsUsed(s, c) {
          UsedApart(s, c, b, x);
        } else {
          FreeApart(s, b, c, x);
        }
      }
    }
  }

  // ---------------------------------------------------------------- alloc

  lemma LeftIsClear(s: State, b: Block)
    requires BitsOk(s) && IsUsed(s, b) && b.k > 0
    ensures Left(b) !in s.alloc && Right(b) !in s.alloc
  {
    Siblings(b);
  }

  lemma SplitUsed(s: State, b: Block)
    requires BitsOk(s) && |s.free| == s.nsize && IsUsed(s, b) && b.k > 0
    ensures Used(SplitOne(s, b)) == Used(s) - {b} + {Left(b)}
  {
    LeftIsClear(s, b);
  }

  lemma {:induction false} SplitDownInv(s: State, b: Block, fk: nat)
    requires Inv(s) && IsUsed(s, b) && fk <= b.k < s.nsize
    ensures var (t, c) := SplitDown(s, b, fk);
      && Inv(t) && t.nsize == s.nsize && c.k == fk && IsUsed(t, c)
      && Used(t) == Used(s) - {b} + {c}
      && First(c) == First(b)
    decreases b.k
  {
    hide BitsOk, ListsOk;
    if b.k > fk {
      SplitInv(s, b);
      SplitUsed(s, b);
      SplitDownInv(SplitOne(s, b), Left(b), fk);
      FirstLeaf(b);
      assert Used(SplitOne(s, b)) - {Left(b)} == Used(s) - {b} by { Siblings(b); LeftIsClear(s, b); }
    }
  }

  lemma TakeUsed(s: State, k: nat)
    requires Inv(s) && k < s.nsize && s.free[k] != []
    ensures Used(Take(s, k)) == Used(s) + {Block(k, s.free[k][0])}
  {
    var b := Block(k, s.free[k][0]);
    assert b.i in s.free[k];
    assert IsFree(s, b);
  }

  /** Allocation keeps the invariant and adds exactly one used block, of the class asked for. */
  lemma AllocCorrect(s: State, fk: nat)
    requires Inv(s) && fk <= s.nsize
    ensures AllocStep(s, fk).Some? ==>
      var (t, c) := AllocStep(s, fk).value;
      && Inv(t) && t.nsize == s.nsize && c.k == fk && fk < s.nsize - 1
      && c !in Used(s) && Used(t) == Used(s) + {c}
  {
    hide BitsOk, ListsOk;
    var k := FirstFree(s, fk);
    if k < s.nsize {
      var b := Block(k, s.free[k][0]);
      TakeInv(s, k);
      TakeUsed(s, k);
      SplitDownInv(Take(s, k), b, fk);
      var (t, c) := SplitDown(Take(s, k), b, fk);
      assert Used(t) == Used(s) - {b} + {c};
      FirstLeaf(b);
      FirstLeaf(c);
      if c in Used(s) {
        UsedApart(s, c, b, First(b));
      }
    }
  }

  // ---------------------------------------------------------------- size and dealloc

  /** The split bits alone give back the class of a used block, from any leaf inside it. */
  lemma {:induction false} SizeOfUsed(s: State, b: Block, x: nat, k: nat)
    requires BitsOk(s) && IsUsed(s, b) && Covers(b, x) && k <= b.k < s.nsize - 1
    ensures SizeOf(s, x, k) == b.k
    decreases b.k - k
  {
    if k < b.k {
      if At(x, k + 1) in s.split && k + 1 < b.k {
        AboveAllocIsSplit(s, At(x, k + 1), x, b.k);
      }
      SizeOfUsed(s, b, x, k + 1);
    }
  }

  /** Some other used block keeps the root from being merged back together. */
  lemma MergeStopsBelowRoot(s: State, b: Block, r: Block)
    requires BitsOk(s) && IsUsed(s, b) && IsUsed(s, r) && r != b
    requires b.k < s.nsize - 1 && r.k < s.nsize - 1 && Buddy(b) !in s.alloc
    ensures b.k < s.nsize - 2
  {
    if b.k == s.nsize - 2 {
      var x := First(r);
      FirstLeaf(r);
      assert At(x, b.k) in s.alloc by {
        if r.k < b.k {
          AboveAllocIsSplit(s, r, x, b.k);
        }
      }
      assert Nblk(s.nsize, b.k) == 2 * Pow2(0);
      assert At(x, b.k) == b || At(x, b.k) == Buddy(b);
      UsedApart(s, r, b, x);
    }
  }

  lemma MergeUsed(s: State, b: Block)
    requires BitsOk(s) && |s.free| == s.nsize && IsUsed(s, b)
    requires b.k < s.nsize - 2 && Buddy(b) !in s.alloc
    ensures Used(MergeOne(s, b)) == Used(s) - {b} + {Parent(b)}
    ensures Parent(b) !in Used(s)
  {
  }

  /** Freeing keeps the invariant and takes exactly the freed block out of use. */
  lemma {:induction false} FreeCorrect(s: State, b: Block, r: Block)
    requires Inv(s) && IsUsed(s, b) && b.k < s.nsize - 1
    requires IsUsed(s, r) && r != b && r.k < s.nsize - 1
    ensures Inv(FreeUp(s, b)) && FreeUp(s, b).nsize == s.nsize
    ensures Used(FreeUp(s, b)) == Used(s) - {b}
    decreases s.nsize - b.k
  {
    hide BitsOk, ListsOk;
    if Buddy(b) in s.alloc {
      ReleaseInv(s, b);
      assert Used(Release(s, b)) == Used(s) - {b};
    } else {
      MergeStopsBelowRoot(s, b, r);
      MergeInv(s, b);
      MergeUsed(s, b);
      FreeCorrect(MergeOne(s, b), Parent(b), r);
    }
  }

  // ---------------------------------------------------------------- the round trip

  lemma MergeUndoesSplit(s: State, b: Block)
    requires Inv(s) && IsUsed(s, b) && b.k > 0
    ensures MergeOne(SplitOne(s, b), Left(b)) == s
    ensures Buddy(Left(b)) !in SplitOne(s, b).alloc
  {
    LeftIsClear(s, b);
    Siblings(b);
    var t := SplitOne(s, b);
    var q := s.free[b.k - 1];
    assert Without([2 * b.i + 1] + q, 2 * b.i + 1) == q;
    assert t.free[b.k - 1] == [2 * b.i + 1] + q;
    assert MergeOne(t, Left(b)).free == s.free;
  }

  lemma ReleaseUndoesTake(s: State, k: nat)
    requires Inv(s) && k < s.nsize && s.free[k] != []
    ensures Release(Take(s, k), Block(k, s.free[k][0])) == s
    ensures Buddy(Block(k, s.free[k][0])) in Take(s, k).alloc
  {
    var b := Block(k, s.free[k][0]);
    assert b.i in s.free[k] && IsFree(s, b);
    assert Take(s, k).alloc - {b} == s.alloc;
    assert [s.free[k][0]] + s.free[k][1..] == s.free[k];
    assert Release(Take(s, k), b).free == s.free;
    Siblings(Parent(b));
    Siblings(b);
    assert Left(Parent(b)) == b || Right(Parent(b)) == b;
  }

  lemma {:induction false} FreeUndoesSplits(s: State, b: Block, fk: nat)
    requires Inv(s) && IsUsed(s, b) && fk <= b.k < s.nsize - 1
    ensures var (t, c) := SplitDown(s, b, fk);
      c.k == fk && t.nsize == s.nsize && |t.free| == s.nsize && FreeUp(t, c) == FreeUp(s, b)
    decreases b.k
  {
    hide BitsOk, ListsOk;
    if b.k > fk {
      SplitInv(s, b);
      MergeUndoesSplit(s, b);
      FreeUndoesSplits(SplitOne(s, b), Left(b), fk);
    }
  }

  /** Freeing a block right after allocating it restores every bit and every free list, order included. */
  lemma RoundTrip(s: State, fk: nat)
    requires Inv(s) && fk <= s.nsize
    ensures AllocStep(s, fk).Some? ==>
      var (t, c) := AllocStep(s, fk).value;
      && c.k == fk < t.nsize - 1 && |t.free| == t.nsize
      && SizeOf(t, First(c), 0) == fk
      && FreeUp(t, c) == s
  {
    hide BitsOk, ListsOk;
    var k := FirstFree(s, fk);
    if k < s.nsize {
      var b := Block(k, s.free[k][0]);
      TakeInv(s, k);
      FreeUndoesSplits(Take(s, k), b, fk);
      ReleaseUndoesTake(s, k);
      AllocCorrect(s, fk);
      var (t, c) := AllocStep(s, fk).value;
      FirstLeaf(c);
      SizeOfUsed(t, c, First(c), 0);
    }
  }

  // ---------------------------------------------------------------- completeness of alloc

  ghost predicate LeafFree(s: State, x: nat) {
    exists c :: IsFree(s, c) && Covers(c, x)
  }

  /** Every leaf of block b is free memory. */
  ghost predicate AllFree(s: State, b: Block) {
    forall x :: Covers(b, x) ==> LeafFree(s, x)
  }

  // Block d lies inside block b.
  ghost predicate Inside(d: Block, b: Block) {
    d.k <= b.k && forall x :: Covers(d, x) ==> Covers(b, x)
  }

  lemma {:induction false} AtUp(x: nat, y: nat, j: nat, k: nat)
    requires j <= k && At(x, j) == At(y, j)
    ensures At(x, k) == At(y, k)
  {
    if j < k {
      AtUp(x, y, j, k - 1);
    }
  }

  lemma InsideIf(d: Block, b: Block, x: nat)
    requires d.k <= b.k && Covers(d, x) && Covers(b, x)
    ensures Inside(d, b)
  {
    forall y | Covers(d, y) ensures Covers(b, y) {
      AtUp(x, y, d.k, b.k);
    }
  }

  /** Every block with its alloc bit set has a used block inside. */
  lemma {:induction false} UsedInside(s: State, b: Block) returns (u: Block)
    requires BitsOk(s) && b in s.alloc
    ensures IsUsed(s, u) && Inside(u, b)
    decreases b.k
  {
    if b !in s.split {
      return b;
    }
    var c := if Left(b) in s.alloc then Left(b) else Right(b);
    u := UsedInside(s, c);
    FirstLeaf(c);
    Siblings(b);
    InsideIf(c, b, First(c));
  }

  /** A free block below class b.k inside b sits next to used memory that is also inside b. */
  lemma NeighbourInUse(s: State, b: Block, c: Block, x: nat) returns (y: nat)
    requires BitsOk(s) && IsFree(s, c) && c.k < b.k && Covers(c, x) && Covers(b, x)
    ensures Covers(b, y) && !LeafFree(s, y)
  {
    Siblings(Parent(c));
    Siblings(c);
    assert Left(Parent(c)) == c || Right(Parent(c)) == c;
    var d := Buddy(c);
    FirstLeaf(d);
    AtUp(x, First(d), c.k + 1, b.k);
    InsideIf(d, b, First(d));
    var u := UsedInside(s, d);
    y := First(u);
    FirstLeaf(u);
    forall f | IsFree(s, f) ensures !Covers(f, y) {
      UsedApart(s, u, f, y);
    }
  }

  /** Coalescing is maximal: wholly free memory of class b.k is inside a free block of that class or above. */
  lemma MaximalCoalescing(s: State, b: Block)
    requires BitsOk(s) && InTree(s.nsize, b) && AllFree(s, b)
    ensures exists c :: IsFree(s, c) && c.k >= b.k && Inside(b, c)
  {
    var x := First(b);
    FirstLeaf(b);
    assert LeafFree(s, x);
    var c :| IsFree(s, c) && Covers(c, x);
    if c.k < b.k {
      var y := NeighbourInUse(s, b, c, x);
    } else {
      InsideIf(b, c, x);
    }
  }

  lemma FirstInTree(nsize: nat, b: Block)
    requires InTree(nsize, b)
    ensures First(b) + Pow2(b.k) <= Nblk(nsize, 0)
  {
    var n, h := Nblk(nsize, b.k), Pow2(b.k);
    assert Nblk(nsize, 0) == n * h by {
      Pow2Add(nsize - 1 - b.k, b.k);
      assert nsize - 1 - b.k + b.k == nsize - 1 - 0;
    }
    hide Pow2;
    MulMono(b.i + 1, n, h);
    assert (b.i + 1) * h == b.i * h + h;
  }

  /** Allocation of class fk fails exactly when no block of that class is wholly free. */
  lemma AllocComplete(s: State, fk: nat)
    requires Inv(s) && fk <= s.nsize
    ensures AllocStep(s, fk).None? <==>
      !exists b: Block :: b.k == fk && InTree(s.nsize, b) && AllFree(s, b)
  {
    var k := FirstFree(s, fk);
    if k == s.nsize {
      forall b: Block | b.k == fk && InTree(s.nsize, b) ensures !AllFree(s, b) {
        if AllFree(s, b) {
          MaximalCoalescing(s, b);
        }
      }
    } else {
      var f := Block(k, s.free[k][0]);
      assert f.i in s.free[k] && IsFree(s, f);
      FirstLeaf(f);
      FirstInTree(s.nsize, f);
      AtInTree(s.nsize, First(f), fk);
      var b := At(First(f), fk);
      InsideIf(b, f, First(f));
      assert AllFree(s, b);
    }
  }

  // ---------------------------------------------------------------- which block is split

  /** Splitting a block down to class fk keeps its first leaf, lists the right half of each class on the way, and
      touches no other list. */
  lemma {:induction false} SplitDownLists(s: State, b: Block, fk: nat)
    requires |s.free| == s.nsize && fk <= b.k < s.nsize
    ensures var (t, c) := SplitDown(s, b, fk);
      && |t.free| == s.nsize && c.k == fk && First(c) == First(b)
      && (forall j :: 0 <= j < s.nsize && (j < fk || b.k <= j) ==> t.free[j] == s.free[j])
      && (forall j :: fk <= j < b.k ==> t.free[j] == [Buddy(At(First(b), j)).i] + s.free[j])
    decreases b.k
  {
    if b.k > fk {
      FirstLeaf(b);
      FirstLeaf(Left(b));
      assert At(First(b), b.k - 1) == Left(b) && Buddy(Left(b)) == Right(b);
      SplitDownLists(SplitOne(s, b), Left(b), fk);
    }
  }

  /** Alloc splits the front block of the smallest class that has one and is large enough, hands out its first part,
      and leaves all larger classes, and all smaller than asked for, alone. */
  lemma BestFit(s: State, fk: nat) returns (f: Block)
    requires Inv(s) && fk <= s.nsize && AllocStep(s, fk).Some?
    ensures var (t, c) := AllocStep(s, fk).value;
      && IsFree(s, f) && fk <= f.k && f.i == s.free[f.k][0]
      && (forall g :: IsFree(s, g) && fk <= g.k ==> f.k <= g.k)
      && c.k == fk && Inside(c, f) && First(c) == First(f)
      && |t.free| == s.nsize
      && t.free[f.k] == s.free[f.k][1..]
      && (forall j :: 0 <= j < s.nsize && (j < fk || f.k < j) ==> t.free[j] == s.free[j])
      && (forall j :: fk <= j < f.k ==> t.free[j] == [Buddy(At(First(f), j)).i])
  {
    hide BitsOk, ListsOk, IsFree, Inside, First, At, SplitDown;
    var k := FirstFree(s, fk);
    f := Block(k, s.free[k][0]);
    assert f.i in s.free[k];
    ListedIsFree(s, f);
    SplitDownLists(Take(s, k), f, fk);
    var (t, c) := SplitDown(Take(s, k), f, fk);
    FirstLeaf(f);
    FirstLeaf(c);
    InsideIf(c, f, First(f));
    forall g | IsFree(s, g) && fk <= g.k ensures f.k <= g.k {
      ListedIsFree(s, g);
    }
  }

  lemma ListedIsFree(s: State, g: Block)
    requires Inv(s)
    ensures IsFree(s, g) <==> g.k < s.nsize && g.i in s.free[g.k]
  {
    assert g == Block(g.k, g.i);
  }

  /** So a request served by splitting takes nothing from the classes above: what they could serve they still can. */
  lemma LargerStillServed(s: State, fk: nat, j: nat)
    requires Inv(s) && fk <= s.nsize && AllocStep(s, fk).Some? && j <= s.nsize
    requires exists g :: IsFree(s, g) && fk <= g.k < j
    ensures var (t, _) := AllocStep(s, fk).value;
      |t.free| == t.nsize == s.nsize && (AllocStep(t, j).Some? <==> AllocStep(s, j).Some?)
  {
    var f := BestFit(s, fk);
    AllocCorrect(s, fk);
    hide BitsOk, ListsOk, FirstFree, SplitDown, IsFree, Inside, First;
    var (t, _) := AllocStep(s, fk).value;
    FirstFreeSame(s, t, j);
  }

  lemma {:induction false} FirstFreeSame(s: State, t: State, j: nat)
    requires |s.free| == s.nsize == t.nsize == |t.free| && j <= s.nsize
    requires forall i :: j <= i < s.nsize ==> t.free[i] == s.free[i]
    ensures FirstFree(t, j) == FirstFree(s, j)
    decreases s.nsize - j
  {
    if j < s.nsize {
      FirstFreeSame(s, t, j + 1);
    }
  }

  // ---------------------------------------------------------------- conservation

  /** The free memory, in leaves, that the lists of a state hold. */
  function FreeLeaves(free: seq<seq<nat>>): (n: nat) {
    if free == [] then 0
    else FreeLeaves(free[..|free| - 1]) + |free[|free| - 1]| * Pow2(|free| - 1)
  }

  lemma {:induction false} FreeLeavesUpdate(free: seq<seq<nat>>, k: nat, q: seq<nat>)
    requires k < |free|
    ensures FreeLeaves(free[k := q]) == FreeLeaves(free) + (|q| - |free[k]|) * Pow2(k)
  {
    var n := |free| - 1;
    if k == n {
      assert free[k := q][..n] == free[..n];
      assert |q| * Pow2(k) == |free[k]| * Pow2(k) + (|q| - |free[k]|) * Pow2(k);
    } else {
      assert free[k := q][..n] == free[..n][k := q];
      FreeLeavesUpdate(free[..n], k, q);
    }
  }

  lemma {:induction false} FreeLeavesByOne(free: seq<seq<nat>>, k: nat, q: seq<nat>)
    requires k < |free|
    ensures |q| == |free[k]| + 1 ==> FreeLeaves(free[k := q]) == FreeLeaves(free) + Pow2(k)
    ensures |q| + 1 == |free[k]| ==> FreeLeaves(free[k := q]) + Pow2(k) == FreeLeaves(free)
  {
    hide FreeLeaves, Pow2;
    FreeLeavesUpdate(free, k, q);
  }

  lemma {:induction false} SplitDownLeaves(s: State, b: Block, fk: nat)
    requires |s.free| == s.nsize && fk <= b.k < s.nsize
    ensures |SplitDown(s, b, fk).0.free| == |s.free|
    ensures FreeLeaves(SplitDown(s, b, fk).0.free) == FreeLeaves(s.free) + Pow2(b.k) - Pow2(fk)
    decreases b.k
  {
    if b.k > fk {
      FreeLeavesByOne(s.free, b.k - 1, [Right(b).i] + s.free[b.k - 1]);
      hide FreeLeaves;
      SplitDownLeaves(SplitOne(s, b), Left(b), fk);
    }
  }

  /** Allocating a block of class fk takes exactly its leaves from the free lists. */
  lemma AllocLeaves(s: State, fk: nat)
    requires |s.free| == s.nsize && fk <= s.nsize
    ensures AllocStep(s, fk).Some? ==>
      FreeLeaves(AllocStep(s, fk).value.0.free) == FreeLeaves(s.free) - Pow2(fk)
  {
    var k := FirstFree(s, fk);
    if k < s.nsize {
      FreeLeavesByOne(s.free, k, s.free[k][1..]);
      SplitDownLeaves(Take(s, k), Block(k, s.free[k][0]), fk);
    }
  }

  lemma BuddyInTree(nsize: nat, b: Block)
    requires InTree(nsize, b) && b.k < nsize - 1
    ensures InTree(nsize, Buddy(b))
  {
    assert Nblk(nsize, b.k) == 2 * Pow2(nsize - 2 - b.k);
  }

  lemma BuddyListed(s: State, b: Block)
    requires Inv(s) && IsUsed(s, b) && b.k < s.nsize - 1 && Buddy(b) !in s.alloc
    ensures |Without(s.free[b.k], Buddy(b).i)| == |s.free[b.k]| - 1
  {
    Siblings(b);
    BuddyInTree(s.nsize, b);
    assert IsFree(s, Buddy(b));
    WithoutSpec(s.free[b.k], Buddy(b).i);
  }

  /** Freeing a block puts exactly its leaves back. */
  lemma {:induction false} FreeUpLeaves(s: State, b: Block, r: Block)
    requires Inv(s) && IsUsed(s, b) && b.k < s.nsize - 1
    requires IsUsed(s, r) && r != b && r.k < s.nsize - 1
    ensures FreeLeaves(FreeUp(s, b).free) == FreeLeaves(s.free) + Pow2(b.k)
    decreases s.nsize - b.k
  {
    hide BitsOk, ListsOk, FreeLeaves;
    if Buddy(b) in s.alloc {
      FreeLeavesByOne(s.free, b.k, [b.i] + s.free[b.k]);
    } else {
      MergeStopsBelowRoot(s, b, r);
      MergeInv(s, b);
      MergeUsed(s, b);
      BuddyListed(s, b);
      FreeLeavesByOne(s.free, b.k, Without(s.free[b.k], Buddy(b).i));
      FreeUpLeaves(MergeOne(s, b), Parent(b), r);
    }
  }
}
