/**
 The binary tree of blocks behind the buddy allocator, as values.

 Block(k, i) is the i-th block of size class k.  A state holds, for every block, its
 bit in the alloc and split bitmaps, and for every class the free list, front first.
 */
module BlockTree {
  import opened Arith
  import opened Seqs

  datatype Block = Block(k: nat, i: nat)

  datatype State = State(nsize: nat, alloc: set<Block>, split: set<Block>, free: seq<seq<nat>>)

  function Parent(b: Block): (p: Block) {
    Block(b.k + 1, b.i / 2)
  }

  function Buddy(b: Block): (c: Block) {
    Block(b.k, if b.i % 2 == 0 then b.i + 1 else b.i - 1)
  }

  function Left(b: Block): (c: Block)
    requires b.k > 0
  {
    Block(b.k - 1, 2 * b.i)
  }

  function Right(b: Block): (c: Block)
    requires b.k > 0
  {
    Block(b.k - 1, 2 * b.i + 1)
  }

  // Number of blocks of class k.
  function Nblk(nsize: nat, k: nat): (n: nat)
    requires k < nsize
  {
    Pow2(nsize - 1 - k)
  }

  predicate InTree(nsize: nat, b: Block) {
    b.k < nsize && b.i < Nblk(nsize, b.k)
  }

  // The block of class k that holds leaf x.
  function At(x: nat, k: nat): (b: Block)
    ensures b.k == k
  {
    if k == 0 then Block(0, x) else Parent(At(x, k - 1))
  }

  predicate Covers(b: Block, x: nat) {
    At(x, b.k) == b
  }

  // The first leaf of a block.
  function First(b: Block): (x: nat) {
    b.i * Pow2(b.k)
  }

  /** A block that belongs on its free list: its parent is split and its alloc bit is clear. */
  predicate IsFree(s: State, b: Block) {
    InTree(s.nsize, b) && Parent(b) in s.split && b !in s.alloc
  }

  /** A block that is handed out (or reserved): its alloc bit is set and it is not split. */
  predicate IsUsed(s: State, b: Block) {
    b in s.alloc && b !in s.split
  }

  ghost predicate BitsOk(s: State) {
    && s.nsize > 1
    && (forall b <- s.alloc :: InTree(s.nsize, b))
    && s.split <= s.alloc
    && (forall b <- s.split :: b.k > 0)
    // blocks under an unsplit parent have clear bits
    && (forall b {:trigger Parent(b)} :: b in s.alloc && b.k < s.nsize - 1 ==> Parent(b) in s.split)
    // buddies under a split parent are never both free
    && (forall b {:trigger Left(b)} {:trigger Right(b)} ::
          b in s.split && b.k > 0 ==> Left(b) in s.alloc || Right(b) in s.alloc)
    && Block(s.nsize - 1, 0) in s.split
  }

  ghost predicate ListsOk(s: State) {
    && |s.free| == s.nsize
    && (forall k :: 0 <= k < s.nsize ==> NoDup(s.free[k]))
    && (forall k, i :: 0 <= k < s.nsize && 0 <= i ==> (i in s.free[k] <==> IsFree(s, Block(k, i))))
  }

  /** The buddy invariant: bitmaps and free lists agree, and free buddies are coalesced. */
  ghost predicate Inv(s: State) {
    |s.free| == s.nsize && BitsOk(s) && ListsOk(s)
  }

  // ---------------------------------------------------------------- local steps

  function PushFree(s: State, b: Block): (t: State)
    requires b.k < |s.free|
  {
    s.(free := s.free[b.k := [b.i] + s.free[b.k]])
  }

  // Pop the front of free list k and set its alloc bit.
  function Take(s: State, k: nat): (t: State)
    requires k < |s.free| && s.free[k] != []
  {
    s.(alloc := s.alloc + {Block(k, s.free[k][0])}, free := s.free[k := s.free[k][1..]])
  }

  // Split a used block: its left half is used, its right half goes on the free list.
  function SplitOne(s: State, b: Block): (t: State)
    requires 0 < b.k <= |s.free|
  {
    PushFree(s.(split := s.split + {b}, alloc := s.alloc + {Left(b)}), Right(b))
  }

  // Merge a used block with its free buddy: the parent becomes used.
  function MergeOne(s: State, b: Block): (t: State)
    requires b.k < |s.free|
  {
    s.(alloc := s.alloc - {b},
       split := s.split - {Parent(b)},
       free := s.free[b.k := Without(s.free[b.k], Buddy(b).i)])
  }

  // Clear the alloc bit of a used block and put it on its free list.
  function Release(s: State, b: Block): (t: State)
    requires b.k < |s.free|
  {
    PushFree(s.(alloc := s.alloc - {b}), b)
  }

  /** Only block b changes between free and not free, and only its own list changes. */
  ghost predicate ChangesOnly(s: State, t: State, b: Block) {
    && t.nsize == s.nsize
    && (forall c {:trigger IsFree(t, c)} :: c != b ==> (IsFree(t, c) <==> IsFree(s, c)))
    && b.k < |s.free|
    && |t.free| == |s.free|
    && (forall k :: 0 <= k < |s.free| && k != b.k ==> t.free[k] == s.free[k])
  }

  lemma ListsAfter(s: State, t: State, b: Block)
    requires ListsOk(s) && ChangesOnly(s, t, b)
    requires NoDup(t.free[b.k])
    requires forall i :: i in t.free[b.k] <==> (if i == b.i then IsFree(t, b) else i in s.free[b.k])
    ensures ListsOk(t)
  {
    forall k, i | 0 <= k < t.nsize && 0 <= i
      ensures i in t.free[k] <==> IsFree(t, Block(k, i))
    {
      assert i in s.free[k] <==> IsFree(s, Block(k, i));
    }
  }

  // ---- taking the front of a free list

  lemma TakeBits(s: State, k: nat)
    requires BitsOk(s) && k < |s.free| && s.free[k] != []
    requires IsFree(s, Block(k, s.free[k][0]))
    ensures BitsOk(Take(s, k))
    ensures IsUsed(Take(s, k), Block(k, s.free[k][0]))
    ensures k < s.nsize - 1
  {
  }

  lemma TakeInv(s: State, k: nat)
    requires Inv(s) && k < s.nsize && s.free[k] != []
    ensures Inv(Take(s, k))
    ensures IsFree(s, Block(k, s.free[k][0])) && IsUsed(Take(s, k), Block(k, s.free[k][0]))
    ensures k < s.nsize - 1
  {
    assert s.free[k][0] in s.free[k];
    TakeBits(s, k);
    HeadOfNoDup(s.free[k]);
    ListsAfter(s, Take(s, k), Block(k, s.free[k][0]));
  }

  // ---- splitting a used block

  lemma SplitBits(s: State, b: Block)
    requires BitsOk(s) && |s.free| == s.nsize && IsUsed(s, b) && b.k > 0
    ensures BitsOk(SplitOne(s, b))
    ensures IsUsed(SplitOne(s, b), Left(b)) && IsFree(SplitOne(s, b), Right(b))
    ensures !IsFree(s, Right(b)) && ChangesOnly(s, SplitOne(s, b), Right(b))
  {
    var t := SplitOne(s, b);
    assert Parent(Left(b)) == b && Parent(Right(b)) == b;
    assert Left(b) !in s.alloc && Right(b) !in s.alloc;
    forall c | c != Right(b) ensures IsFree(t, c) <==> IsFree(s, c) {
      if Parent(c) == b {
        assert c == Left(b);
      }
    }
  }

  lemma SplitInv(s: State, b: Block)
    requires Inv(s) && IsUsed(s, b) && b.k > 0
    ensures Inv(SplitOne(s, b))
    ensures IsUsed(SplitOne(s, b), Left(b))
  {
    SplitBits(s, b);
    ListsAfter(s, SplitOne(s, b), Right(b));
  }

  // ---- merging a used block with its free buddy

  lemma Siblings(b: Block)
    ensures Parent(Buddy(b)) == Parent(b) && Buddy(b) != b && Buddy(Buddy(b)) == b
    ensures forall c {:trigger Parent(c)} :: Parent(c) == Parent(b) ==> c == b || c == Buddy(b)
    ensures b.k > 0 ==> Parent(Left(b)) == b && Parent(Right(b)) == b && Buddy(Left(b)) == Right(b)
  {
  }

  lemma MergeBits(s: State, b: Block)
    requires BitsOk(s) && |s.free| == s.nsize && IsUsed(s, b)
    requires b.k < s.nsize - 2 && Buddy(b) !in s.alloc
    ensures BitsOk(MergeOne(s, b))
    ensures IsUsed(MergeOne(s, b), Parent(b))
  {
    var t := MergeOne(s, b);
    Siblings(b);
    forall c | c in t.split && c.k > 0 ensures Left(c) in t.alloc || Right(c) in t.alloc {
      Siblings(c);
    }
    assert t.split <= t.alloc;
  }

  lemma MergeChanges(s: State, b: Block)
    requires BitsOk(s) && |s.free| == s.nsize && IsUsed(s, b)
    requires b.k < s.nsize - 2 && Buddy(b) !in s.alloc
    ensures !IsFree(MergeOne(s, b), Buddy(b)) && ChangesOnly(s, MergeOne(s, b), Buddy(b))
  {
    Siblings(b);
    var t := MergeOne(s, b);
    forall c | c != Buddy(b) ensures IsFree(t, c) <==> IsFree(s, c) {
    }
  }

  lemma MergeInv(s: State, b: Block)
    requires Inv(s) && IsUsed(s, b) && b.k < s.nsize - 2 && Buddy(b) !in s.alloc
    ensures Inv(MergeOne(s, b))
    ensures IsUsed(MergeOne(s, b), Parent(b))
  {
    MergeBits(s, b);
    MergeChanges(s, b);
    WithoutSpec(s.free[b.k], Buddy(b).i);
    ListsAfter(s, MergeOne(s, b), Buddy(b));
  }

  // ---- releasing a used block whose buddy is not free

  lemma ReleaseBits(s: State, b: Block)
    requires BitsOk(s) && |s.free| == s.nsize && IsUsed(s, b)
    requires b.k < s.nsize - 1 && Buddy(b) in s.alloc
    ensures BitsOk(Release(s, b))
    ensures IsFree(Release(s, b), b)
    ensures ChangesOnly(s, Release(s, b), b)
  {
    var t := Release(s, b);
    forall c | c in t.split && c.k > 0 ensures Left(c) in t.alloc || Right(c) in t.alloc {
      Siblings(c);
    }
  }

  lemma ReleaseInv(s: State, b: Block)
    requires Inv(s) && IsUsed(s, b) && b.k < s.nsize - 1 && Buddy(b) in s.alloc
    ensures Inv(Release(s, b))
  {
    ReleaseBits(s, b);
    ListsAfter(s, Release(s, b), b);
  }
}
