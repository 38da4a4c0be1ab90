/**
 One address space: its table pages, its data pages and the pages left to take, with walk,
 mappages, unmap and the growing and shrinking of user memory.
 */
module PageTable {
  import opened Arith
  import opened Wrappers
  import opened Seqs
  import opened Sv39
  import opened TablePages

  // Location of an entry, or why there is none.
  datatype Walked = WalkPanic | NoTable | Slot(t: nat, i: nat)

  datatype MapResult = Mapped | OutOfTables | MapPanic

  datatype GrowResult = Grown(sz: nat) | NoMemory | GrowPanic

  /** Pages [p, p + k) hold entries for consecutive frames from pa with the given flags; the rest is as before. */
  ghost predicate MapsRange(ts: Tables, ts': Tables, root: nat, p: nat, k: nat, pa: nat, attr: nat)
    requires attr < 1024
  {
    forall v: nat :: v < MAXVA ==>
      Lookup(ts', root, v) ==
        (if p <= v / PGSIZE < p + k then Entry(PteOf(pa + (v / PGSIZE - p) * PGSIZE, attr)) else Lookup(ts, root, v))
  }

  lemma MapsOneMore(ts: Tables, ts1: Tables, ts2: Tables, root: nat, p: nat, k: nat, pa: nat, attr: nat)
    requires attr < 1024 && MapsRange(ts, ts1, root, p, k, pa, attr)
    requires ChangesPage(ts1, ts2, root, (p + k) * PGSIZE, PteOf(pa + k * PGSIZE, attr))
    ensures MapsRange(ts, ts2, root, p, k + 1, pa, attr)
  {
    assert (p + k) * PGSIZE / PGSIZE == p + k;
    hide Lookup, PteOf;
  }

  lemma RangeSame(ts: Tables, ts1: Tables, ts2: Tables, root: nat, p: nat, k: nat, pa: nat, attr: nat)
    requires attr < 1024 && MapsRange(ts, ts1, root, p, k, pa, attr) && SameView(ts1, ts2, root)
    ensures MapsRange(ts, ts2, root, p, k, pa, attr)
  {
    hide Lookup, PteOf;
  }

  // The page after a mapped range is free exactly if it was before.
  lemma RangeFree(ts: Tables, ts1: Tables, root: nat, p: nat, k: nat, pa: nat, attr: nat)
    requires attr < 1024 && MapsRange(ts, ts1, root, p, k, pa, attr)
    ensures Free(ts1, root, p + k) <==> Free(ts, root, p + k)
  {
    assert (p + k) * PGSIZE / PGSIZE == p + k;
    hide Lookup, PteOf;
  }

  lemma ViewThenPage(ts: Tables, ts1: Tables, ts2: Tables, root: nat, va: nat, w: nat)
    requires SameView(ts, ts1, root) && ChangesPage(ts1, ts2, root, va, w)
    ensures ChangesPage(ts, ts2, root, va, w)
  {
    hide Lookup;
  }

  // Number of pages touched by [va, va + size).
  function RangePages(va: nat, size: nat): (n: nat)
    ensures n == 0 <==> size == 0
  {
    if size == 0 then 0 else (va + size - 1) / PGSIZE - va / PGSIZE + 1
  }

  /** These are the pages with a byte of the range in them. */
  lemma RangePagesAre(va: nat, size: nat, q: nat)
    ensures va / PGSIZE <= q < va / PGSIZE + RangePages(va, size) <==>
      exists u: nat :: va <= u < va + size && u / PGSIZE == q
  {
    if va / PGSIZE <= q < va / PGSIZE + RangePages(va, size) {
      var u := if q * PGSIZE < va then va else q * PGSIZE;
      assert va <= u < va + size && u / PGSIZE == q;
    }
  }

  /** Page p is below MAXVA and has no entry. */
  ghost predicate Free(ts: Tables, root: nat, p: nat) {
    p * PGSIZE < MAXVA && Lookup(ts, root, p * PGSIZE) == None
  }

  /** Pages [p, p + k) have no entry; the rest is as before. */
  ghost predicate UnmapsRange(ts: Tables, ts': Tables, root: nat, p: nat, k: nat) {
    forall v: nat :: v < MAXVA ==>
      Lookup(ts', root, v) == (if p <= v / PGSIZE < p + k then None else Lookup(ts, root, v))
  }

  // Page q has a leaf entry.
  ghost predicate HasLeaf(ts: Tables, root: nat, q: nat) {
    q * PGSIZE < MAXVA && Lookup(ts, root, q * PGSIZE).Some? && IsLeaf(Lookup(ts, root, q * PGSIZE).value)
  }

  // The frame behind page q.
  ghost function FrameOf(ts: Tables, root: nat, q: nat): (f: nat) {
    match Lookup(ts, root, q * PGSIZE)
    case None => 0
    case Some(w) => ToPa(w)
  }

  ghost function FramesOf(ts: Tables, root: nat, p: nat, k: nat): (fs: set<nat>) {
    set q | p <= q < p + k :: FrameOf(ts, root, q)
  }

  /** The mapped pages of the range have owned frames, a different one each. */
  ghost predicate OwnsRange(ts: Tables, root: nat, frames: set<nat>, p: nat, k: nat) {
    && (forall q :: p <= q < p + k && HasLeaf(ts, root, q) ==> FrameOf(ts, root, q) in frames)
    && (forall q, r :: p <= q < r < p + k && HasLeaf(ts, root, q) && HasLeaf(ts, root, r) ==>
          FrameOf(ts, root, q) != FrameOf(ts, root, r))
  }

  lemma UnmapsOneMore(ts: Tables, ts1: Tables, ts2: Tables, root: nat, p: nat, k: nat)
    requires UnmapsRange(ts, ts1, root, p, k) && ChangesPage(ts1, ts2, root, (p + k) * PGSIZE, 0)
    ensures UnmapsRange(ts, ts2, root, p, k + 1)
  {
    assert (p + k) * PGSIZE / PGSIZE == p + k;
    assert Entry(0) == None;
    hide Lookup;
  }

  lemma RangeKeeps(ts: Tables, ts1: Tables, root: nat, p: nat, k: nat)
    requires UnmapsRange(ts, ts1, root, p, k)
    ensures HasLeaf(ts1, root, p + k) <==> HasLeaf(ts, root, p + k)
    ensures HasLeaf(ts, root, p + k) ==> FrameOf(ts1, root, p + k) == FrameOf(ts, root, p + k)
  {
    assert (p + k) * PGSIZE / PGSIZE == p + k;
    hide Lookup;
  }

  lemma NoneUnmapped(ts: Tables, root: nat, p: nat)
    ensures UnmapsRange(ts, ts, root, p, 0) && FramesOf(ts, root, p, 0) == {}
  {
  }

  lemma LeavesOneMore(ts: Tables, root: nat, p: nat, k: nat)
    requires (forall q :: p <= q < p + k ==> HasLeaf(ts, root, q)) && HasLeaf(ts, root, p + k)
    ensures forall q :: p <= q < p + k + 1 ==> HasLeaf(ts, root, q)
  {
    hide HasLeaf;
  }

  lemma FramesOneMore(ts: Tables, root: nat, p: nat, k: nat)
    ensures FramesOf(ts, root, p, k + 1) == FramesOf(ts, root, p, k) + {FrameOf(ts, root, p + k)}
  {
    hide FrameOf;
    var a, b := FramesOf(ts, root, p, k + 1), FramesOf(ts, root, p, k) + {FrameOf(ts, root, p + k)};
    forall f | f in a ensures f in b {
      var q :| p <= q < p + (k + 1) && f == FrameOf(ts, root, q);
    }
  }

  lemma NoLowNoEntry(ts: Tables, root: nat, va: nat)
    ensures LowTable(ts, root, va) == None ==> Lookup(ts, root, va) == None
  {
  }

  lemma StillOwned(ts: Tables, root: nat, frames: set<nat>, p: nat, n: nat, k: nat)
    requires OwnsRange(ts, root, frames, p, n) && k < n && HasLeaf(ts, root, p + k)
    requires forall q :: p <= q < p + k ==> HasLeaf(ts, root, q)
    ensures FrameOf(ts, root, p + k) in frames - FramesOf(ts, root, p, k)
  {
    hide FrameOf, HasLeaf;
  }

  // Flags of a user page: readable, user, valid, and what the caller adds.
  function UserAttr(xperm: nat): (attr: nat)
    requires xperm < 1024
    ensures attr < 1024
  {
    WithBit(WithBit(WithBit(xperm, PTE_R), PTE_U), PTE_V)
  }

  lemma SetBitU(a: nat)
    ensures HasBit(WithBit(a, PTE_U), PTE_U)
    ensures HasBit(WithBit(a, PTE_U), PTE_R) <==> HasBit(a, PTE_R)
  {
    assert (a + 16) / 16 == a / 16 + 1;
    assert (a + 16) / 2 == a / 2 + 8;
  }

  lemma SetBitV(a: nat)
    ensures WithBit(a, PTE_V) % 2 == 1
    ensures HasBit(WithBit(a, PTE_V), PTE_U) <==> HasBit(a, PTE_U)
    ensures HasBit(WithBit(a, PTE_V), PTE_R) <==> HasBit(a, PTE_R)
  {
    if a % 2 == 0 {
      assert (a + 1) / 2 == a / 2;
      assert (a + 1) / 16 == a / 16;
    }
  }

  lemma UserAttrBits(xperm: nat, f: nat)
    requires xperm < 1024 && f % PGSIZE == 0
    ensures var w := PteOf(f, UserAttr(xperm));
      Entry(w) == Some(w) && IsLeaf(w) && IsU(w) && ToPa(w) == f
  {
    var a1 := WithBit(xperm, PTE_R);
    assert HasBit(a1, PTE_R) by { assert (xperm + 2) / 2 == xperm / 2 + 1; }
    SetBitU(a1);
    SetBitV(WithBit(a1, PTE_U));
    var attr := UserAttr(xperm);
    assert attr % 2 == 1 && HasBit(attr, PTE_U) && HasBit(attr, PTE_R);
    PteRoundTrip(f, attr);
    assert attr != PTE_V by { assert !HasBit(1, PTE_R); }
    hide HasBit, WithBit, PteOf, Flags;
    assert f / PGSIZE * PGSIZE == f;
  }

  lemma SetBits(a: nat, m: nat)
    requires m == 1 || m == 2 || m == 16
    ensures WithBit(a, m) / m % 2 == 1
    ensures WithBit(a, m) / 4 % 2 == a / 4 % 2 && WithBit(a, m) / 8 % 2 == a / 8 % 2
    ensures m != 1 ==> WithBit(a, m) % 2 == a % 2
    ensures m != 2 ==> WithBit(a, m) / 2 % 2 == a / 2 % 2
    ensures m != 16 ==> WithBit(a, m) / 16 % 2 == a / 16 % 2
  {
    var q, e, d, c, b, x := a / 32, a / 16 % 2, a / 8 % 2, a / 4 % 2, a / 2 % 2, a % 2;
    Binary(a);
    if m == 1 {
      Bits(q, e, d, c, b, 1);
    } else if m == 2 {
      Bits(q, e, d, c, 1, x);
    } else {
      Bits(q, 1, d, c, b, x);
    }
  }

  lemma WordBits(q: nat, attr: nat)
    requires attr < 1024
    ensures var w := q * 1024 + attr;
      && w / 1024 == q && w % 2 == attr % 2 && w / 2 % 2 == attr / 2 % 2 && w / 4 % 2 == attr / 4 % 2
      && w / 8 % 2 == attr / 8 % 2 && w / 16 % 2 == attr / 16 % 2
  {
    Binary(attr);
    Bits(32 * q + attr / 32, attr / 16 % 2, attr / 8 % 2, attr / 4 % 2, attr / 2 % 2, attr % 2);
  }

  /** Bit by bit, the entry of a grown page: valid, readable and user, writable and executable exactly as asked, and
      the page number from bit 10 up. */
  lemma GrownEntry(xperm: nat, f: nat)
    requires xperm < 1024
    ensures var w := PteOf(f, UserAttr(xperm));
      && w % 2 == 1 && w / 2 % 2 == 1 && w / 16 % 2 == 1
      && w / 4 % 2 == xperm / 4 % 2 && w / 8 % 2 == xperm / 8 % 2
      && w / 1024 == f / 4096
  {
    hide WithBit;
    var a1 := WithBit(xperm, PTE_R);
    var a2 := WithBit(a1, PTE_U);
    SetBits(xperm, 2);
    SetBits(a1, 16);
    SetBits(a2, 1);
    WordBits(f / PGSIZE, UserAttr(xperm));
  }

  /** The same for mappages with any flags. */
  lemma MappedEntry(perm: nat, f: nat)
    requires perm < 1024
    ensures WithBit(perm, PTE_V) < 1024
    ensures var w := PteOf(f, WithBit(perm, PTE_V));
      && w % 2 == 1 && w / 2 % 2 == perm / 2 % 2 && w / 4 % 2 == perm / 4 % 2 && w / 8 % 2 == perm / 8 % 2
      && w / 16 % 2 == perm / 16 % 2 && w / 1024 == f / 4096
  {
    SetBits(perm, 1);
    WordBits(f / PGSIZE, WithBit(perm, PTE_V));
  }

  // Pages that growing from oldsz to newsz adds.
  function NewPages(oldsz: nat, newsz: nat): (n: nat) {
    if oldsz < newsz then PageUp(newsz) / PGSIZE - PageUp(oldsz) / PGSIZE else 0
  }

  /** These are the pages that start at or above the old size and below the new one. */
  lemma NewPagesAre(oldsz: nat, newsz: nat, q: nat)
    ensures PageUp(oldsz) / PGSIZE <= q < PageUp(oldsz) / PGSIZE + NewPages(oldsz, newsz) <==>
      oldsz <= q * PGSIZE < newsz
  {
  }

  /** Pages from p on hold the given data pages in turn; the rest is as before. */
  ghost predicate GrowView(ts: Tables, ts': Tables, root: nat, p: nat, mems: seq<nat>, attr: nat)
    requires attr < 1024
  {
    forall v: nat :: v < MAXVA ==>
      Lookup(ts', root, v) ==
        (if p <= v / PGSIZE < p + |mems| then Entry(PteOf(mems[v / PGSIZE - p], attr)) else Lookup(ts, root, v))
  }

  lemma GrowsOneMore(ts: Tables, ts1: Tables, ts2: Tables, root: nat, p: nat, mems: seq<nat>, mem: nat, attr: nat)
    requires attr < 1024 && GrowView(ts, ts1, root, p, mems, attr)
    requires MapsRange(ts1, ts2, root, p + |mems|, 1, mem, attr)
    ensures GrowView(ts, ts2, root, p, mems + [mem], attr)
  {
    hide Lookup, PteOf;
  }

  lemma GrowSame(ts: Tables, ts1: Tables, ts2: Tables, root: nat, p: nat, mems: seq<nat>, attr: nat)
    requires attr < 1024 && GrowView(ts, ts1, root, p, mems, attr) && SameView(ts1, ts2, root)
    ensures GrowView(ts, ts2, root, p, mems, attr)
  {
    hide Lookup, PteOf;
  }

  lemma GrowFree(ts: Tables, ts1: Tables, root: nat, p: nat, mems: seq<nat>, attr: nat)
    requires attr < 1024 && GrowView(ts, ts1, root, p, mems, attr)
    ensures Free(ts1, root, p + |mems|) <==> Free(ts, root, p + |mems|)
  {
    assert (p + |mems|) * PGSIZE / PGSIZE == p + |mems|;
    hide Lookup, PteOf;
  }

  /** Growing has come as far as the data pages mems, having taken these and the missing tables from f0 free pages. */
  ghost predicate GrownSoFar(ts0: Tables, ts: Tables, root: nat, frames0: set<nat>, frames: set<nat>,
                             f0: nat, f: nat, p: nat, mems: seq<nat>, xperm: nat)
    requires xperm < 1024
  {
    && NoDup(mems) && (forall m <- mems :: m % PGSIZE == 0 && m !in frames0)
    && frames == frames0 + (set m | m in mems)
    && (forall q :: p <= q < p + |mems| ==> Free(ts0, root, q))
    && GrowView(ts0, ts, root, p, mems, UserAttr(xperm))
    && Spent(ts0, ts, root, p, |mems|, f0, f, |mems|)
  }

  lemma GrownNone(ts: Tables, root: nat, frames: set<nat>, f: nat, p: nat, xperm: nat)
    requires xperm < 1024
    ensures GrownSoFar(ts, ts, root, frames, frames, f, f, p, [], xperm)
  {
    hide Spent, UserAttr;
    SpentNone(ts, root, p, f);
  }

  lemma GrownMeans(ts0: Tables, ts: Tables, root: nat, frames0: set<nat>, frames: set<nat>,
                   f0: nat, f: nat, p: nat, mems: seq<nat>, xperm: nat)
    requires xperm < 1024 && GrownSoFar(ts0, ts, root, frames0, frames, f0, f, p, mems, xperm)
    ensures NoDup(mems) && (forall m <- mems :: m % PGSIZE == 0 && m !in frames0)
    ensures frames == frames0 + (set m | m in mems)
    ensures forall q :: p <= q < p + |mems| ==> Free(ts0, root, q)
    ensures GrowView(ts0, ts, root, p, mems, UserAttr(xperm))
    ensures Spent(ts0, ts, root, p, |mems|, f0, f, |mems|)
    ensures f0 == f + |mems| + |Missing(ts0, root, p, |mems|)|
  {
    hide GrowView, UserAttr, Free, Missing;
  }

  lemma GrownNext(ts0: Tables, ts: Tables, ts': Tables, root: nat, frames0: set<nat>, frames: set<nat>,
                  f0: nat, f: nat, f': nat, p: nat, mems: seq<nat>, mem: nat, xperm: nat)
    requires xperm < 1024 && GrownSoFar(ts0, ts, root, frames0, frames, f0, f, p, mems, xperm)
    requires Free(ts0, root, p + |mems|) && mem % PGSIZE == 0 && mem !in frames
    requires MapsRange(ts, ts', root, p + |mems|, 1, mem, UserAttr(xperm))
    requires Spent(ts, ts', root, p + |mems|, 1, f, f', 1)
    ensures GrownSoFar(ts0, ts', root, frames0, frames + {mem}, f0, f', p, mems + [mem], xperm)
  {
    hide GrowView, MapsRange, UserAttr, Free, Spent;
    GrowsOneMore(ts0, ts, ts', root, p, mems, mem, UserAttr(xperm));
    SpentMore(ts0, ts, ts', root, p, |mems|, f0, f, f', |mems|, 1);
  }

  // The pages just grown are mapped, and their frames are the new data pages.
  lemma GrownLeaf(ts: Tables, ts1: Tables, root: nat, p: nat, mems: seq<nat>, xperm: nat, q: nat)
    requires xperm < 1024 && GrowView(ts, ts1, root, p, mems, UserAttr(xperm))
    requires forall f <- mems :: f % PGSIZE == 0
    requires p <= q < p + |mems| && q * PGSIZE < MAXVA
    ensures HasLeaf(ts1, root, q) && FrameOf(ts1, root, q) == mems[q - p]
  {
    assert q * PGSIZE / PGSIZE == q;
    assert mems[q - p] in mems;
    UserAttrBits(xperm, mems[q - p]);
    hide Lookup, PteOf, ToPa, UserAttr;
  }

  lemma GrownOwned(ts: Tables, ts1: Tables, root: nat, p: nat, mems: seq<nat>, xperm: nat, frames: set<nat>)
    requires xperm < 1024 && GrowView(ts, ts1, root, p, mems, UserAttr(xperm))
    requires forall f <- mems :: f % PGSIZE == 0 && f in frames
    requires NoDup(mems) && forall q :: p <= q < p + |mems| ==> Free(ts, root, q)
    ensures OwnsRange(ts1, root, frames, p, |mems|)
    ensures FramesOf(ts1, root, p, |mems|) == set f | f in mems
    ensures forall q :: p <= q < p + |mems| ==> HasLeaf(ts1, root, q)
  {
    forall q | p <= q < p + |mems|
      ensures HasLeaf(ts1, root, q) && FrameOf(ts1, root, q) == mems[q - p] && mems[q - p] in mems
    {
      assert Free(ts, root, q);
      GrownLeaf(ts, ts1, root, p, mems, xperm, q);
    }
    hide HasLeaf, FrameOf, GrowView, Free;
    forall f | f in mems ensures f in FramesOf(ts1, root, p, |mems|) {
      var i :| 0 <= i < |mems| && mems[i] == f;
      assert FrameOf(ts1, root, p + i) == f;
    }
  }

  /** Unmapping what was grown gives back the flat view from before. */
  lemma ShrinkUndoesGrow(ts: Tables, ts1: Tables, ts2: Tables, root: nat, p: nat, mems: seq<nat>, attr: nat)
    requires attr < 1024 && GrowView(ts, ts1, root, p, mems, attr) && UnmapsRange(ts1, ts2, root, p, |mems|)
    requires forall q :: p <= q < p + |mems| ==> Free(ts, root, q)
    ensures SameView(ts, ts2, root)
  {
    forall v: nat | v < MAXVA ensures Lookup(ts2, root, v) == Lookup(ts, root, v) {
      if p <= v / PGSIZE < p + |mems| {
        assert Free(ts, root, v / PGSIZE);
        SameEntry(ts, root, v);
      }
    }
  }

  lemma SameEntry(ts: Tables, root: nat, v: nat)
    ensures Lookup(ts, root, v / PGSIZE * PGSIZE) == Lookup(ts, root, v)
  {
    SamePage(v / PGSIZE * PGSIZE, v);
  }

  ghost function Members(q: seq<nat>): (ps: set<nat>) {
    set p | p in q
  }

  ghost function AllPages(free: seq<nat>, frames: set<nat>, tables: set<nat>): (ps: set<nat>) {
    Members(free) + frames + tables
  }

  lemma {:induction false} NoDupSize(q: seq<nat>)
    requires NoDup(q)
    ensures |Members(q)| == |q|
  {
    if q != [] {
      HeadOfNoDup(q);
      NoDupSize(q[1..]);
      assert Members(q) == Members(q[1..]) + {q[0]};
    }
  }

  /** Pages are in one place each, so counting the places counts the pages. */
  lemma PagesAdd(free: seq<nat>, frames: set<nat>, tables: set<nat>)
    requires NoDup(free) && (forall p <- free :: p !in tables && p !in frames) && forall f <- frames :: f !in tables
    ensures |AllPages(free, frames, tables)| == |free| + |frames| + |tables|
  {
    NoDupSize(free);
    Disjoint(Members(free), frames);
    Disjoint(Members(free) + frames, tables);
  }

  lemma SameCount(free: seq<nat>, tables: set<nat>, free': seq<nat>, tables': set<nat>, frames: set<nat>)
    requires NoDup(free) && (forall p <- free :: p !in tables && p !in frames) && forall f <- frames :: f !in tables
    requires NoDup(free') && (forall p <- free' :: p !in tables' && p !in frames) && forall f <- frames :: f !in tables'
    requires AllPages(free, frames, tables) == AllPages(free', frames, tables')
    ensures |free| - |free'| == |tables'| - |tables|
  {
    hide AllPages;
    PagesAdd(free, frames, tables);
    PagesAdd(free', frames, tables');
  }

  // A page taken from the list stays among the pages as data, or as a table.
  lemma PageMoved(free: seq<nat>, frames: set<nat>, tables: set<nat>)
    requires free != []
    ensures AllPages(free[1..], frames + {free[0]}, tables) == AllPages(free, frames, tables)
    ensures AllPages(free[1..], frames, tables + {free[0]}) == AllPages(free, frames, tables)
  {
    assert Members(free) == Members(free[1..]) + {free[0]};
  }

  lemma OneMoreFrame(a: set<nat>, f: nat)
    requires f !in a
    ensures multiset(a + {f}) == multiset(a) + multiset{f}
  {
  }

  class Space {
    const root: nat
    var tables: Tables
    var free: seq<nat>              // pages the allocator can still give
    ghost var place: map<nat, Place>
    ghost var frames: set<nat>      // data pages owned

    ghost predicate Valid()
      reads this
    {
      && Tree(tables, root, place)
      && NoDup(free)
      && (forall p <- free :: p % PGSIZE == 0 && p !in tables && p !in frames)
      && (forall f <- frames :: f % PGSIZE == 0 && f !in tables)
    }

    /** Every page the space has anything to do with: free, owned as data, or a table. */
    ghost function Pages(): (ps: set<nat>)
      reads this
    {
      AllPages(free, frames, tables.Keys)
    }

    // An address space without translations: a zeroed root page, and the pages the allocator can give.
    constructor (page: nat, pages: seq<nat>)
      requires page % PGSIZE == 0 && page !in pages && NoDup(pages) && forall p <- pages :: p % PGSIZE == 0
      ensures Valid() && root == page && free == pages && frames == {}
      ensures forall v: nat :: Lookup(tables, root, v) == None
    {
      root := page;
      tables := map[page := ZeroTable()];
      free := pages;
      place, frames := map[page := Root], {};
    }

    // A zeroed page, if one is left.
    method TakePage() returns (r: Option<nat>)
      requires Valid()
      modifies this`free
      ensures Valid()
      ensures old(free) == [] ==> r == None && free == old(free)
      ensures old(free) != [] ==>
        r == Some(old(free)[0]) && free == old(free)[1..] && r.value !in free
        && r.value % PGSIZE == 0 && r.value !in tables && r.value !in frames
    {
      if free == [] {
        return None;
      }
      HeadOfNoDup(free);
      r := Some(free[0]);
      free := free[1..];
    }

    // Descend from table t through entry i, hanging a new table there if asked to.
    method Descend(t: nat, i: nat, alloc: bool) returns (r: Option<nat>)
      requires Valid() && t in place && !place[t].Low? && i < 512 && Hangs(tables, root, place, t)
      modifies this`tables, this`free, this`place
      ensures Valid() && SameView(old(tables), tables, root) && Pages() == old(Pages())
      ensures forall x :: x in old(place) ==> x in place && place[x] == old(place)[x]
      ensures forall x :: x in free ==> x in old(free)
      ensures r == Child(tables, t, i)
      ensures r.Some? ==> r.value in place && place[r.value] == Down(place[t], i)
      ensures forall x, j :: Child(old(tables), x, j).Some? ==> Child(tables, x, j) == Child(old(tables), x, j)
      ensures !alloc || Child(old(tables), t, i).Some? ==>
        tables == old(tables) && free == old(free) && place == old(place)
      ensures alloc && r.None? ==> old(free) == [] && free == [] && tables == old(tables)
      ensures alloc && Child(old(tables), t, i).None? && r.Some? ==>
        |old(free)| == |free| + 1 && Adds(old(tables), tables, root, {Down(place[t], i)})
    {
      hide AllPages;
      var w := tables[t][i];
      if IsV(w) {
        return Some(ToPa(w));
      }
      if !alloc {
        return None;
      }
      var page := TakePage();
      if page.None? {
        return None;
      }
      LinkTable(tables, root, place, t, i, page.value);
      LinkFills(tables, root, place, t, i, page.value);
      PageMoved(old(free), frames, tables.Keys);
      assert Linked(tables, t, i, page.value).Keys == tables.Keys + {page.value};
      tables := Linked(tables, t, i, page.value);
      place := place[page.value := Down(place[t], i)];
      return page;
    }

    method Walk(va: nat, alloc: bool) returns (r: Walked)
      requires Valid()
      modifies this`tables, this`free, this`place
      ensures Valid() && Pages() == old(Pages())
      ensures r.WalkPanic? <==> va >= MAXVA
      ensures SameView(old(tables), tables, root)
      ensures forall x :: x in free ==> x in old(free)
      ensures r.Slot? ==> LowTable(tables, root, va) == Some(r.t) && r.i == Px(va, 0)
      ensures r.NoTable? ==> LowTable(tables, root, va) == None
      ensures !alloc ==> tables == old(tables) && free == old(free) && place == old(place)
      ensures alloc && r.NoTable? ==> free == []
      // the pages it takes are those the walk lacks, and it fails only if there are not enough of them
      ensures alloc && r.Slot? ==> Spent(old(tables), tables, root, va / PGSIZE, 1, |old(free)|, |free|, 0)
      ensures alloc && r.NoTable? ==> |old(free)| < |Missing(old(tables), root, va / PGSIZE, 1)|
    {
      hide Missing, Needs, Tree, AllPages;
      if va >= MAXVA {
        return WalkPanic;
      }
      MissingOne(tables, root, va);
      RootHangs(tables, root, place);
      var t := Descend(root, Px(va, 2), alloc);
      if t.None? {
        return NoTable;
      }
      var u := Descend(t.value, Px(va, 1), alloc);
      if u.None? {
        return NoTable;
      }
      return Slot(u.value, Px(va, 0));
    }

    // Store entry w in the slot of va.
    method Store(va: nat, slot: Walked, w: nat)
      requires Valid() && va < MAXVA && slot.Slot?
      requires LowTable(tables, root, va) == Some(slot.t) && slot.i == Px(va, 0)
      modifies this`tables
      ensures Valid() && ChangesPage(old(tables), tables, root, va, w) && Adds(old(tables), tables, root, {})
      ensures tables.Keys == old(tables).Keys
    {
      hide Has;
      StoreAddsNone(tables, root, place, va, w);
      StoreEntry(tables, root, place, va, w);
      tables := WithEntry(tables, slot.t, slot.i, w);
    }

    // One round of mappages: enter frame b for the page at address a.
    method MapOne(a: nat, b: nat, attr: nat) returns (r: MapResult)
      requires Valid() && attr < 1024 && a % PGSIZE == 0
      modifies this`tables, this`free, this`place
      ensures Valid() && (forall x :: x in free ==> x in old(free)) && Pages() == old(Pages())
      ensures r == MapPanic <==> !Free(old(tables), root, a / PGSIZE)
      ensures r == Mapped ==> ChangesPage(old(tables), tables, root, a, PteOf(b, attr))
      ensures r != Mapped ==> SameView(old(tables), tables, root)
      ensures r == Mapped ==> Spent(old(tables), tables, root, a / PGSIZE, 1, |old(free)|, |free|, 0)
      ensures r == OutOfTables ==> free == [] && |old(free)| < |Missing(old(tables), root, a / PGSIZE, 1)|
    {
      hide Tree, PteOf, Missing, Needs, Has, AllPages;
      assert a / PGSIZE * PGSIZE == a;
      var slot := Walk(a, true);
      if slot.WalkPanic? {
        return MapPanic;
      }
      if slot.NoTable? {
        return OutOfTables;
      }
      ghost var walked := tables;
      var w := EntryAt(a, slot);
      if IsV(w) {
        return MapPanic;
      }
      Store(a, slot, PteOf(b, attr));
      ViewThenPage(old(tables), walked, tables, root, a, PteOf(b, attr));
      SpentThenStored(old(tables), walked, tables, root, a / PGSIZE, 1, |old(free)|, |free|, 0);
      return Mapped;
    }

    method EntryAt(va: nat, slot: Walked) returns (w: nat)
      requires Valid() && slot.Slot? && LowTable(tables, root, va) == Some(slot.t) && slot.i == Px(va, 0)
      ensures Lookup(tables, root, va) == Entry(w)
    {
      LowPlace(tables, root, place, va);
      w := tables[slot.t][slot.i];
    }

    method MapPages(va: nat, pa: nat, size: nat, perm: nat) returns (r: MapResult, ghost done: nat)
      requires Valid() && perm < 1024
      modifies this`tables, this`free, this`place
      ensures var p, n := va / PGSIZE, RangePages(va, size);
        && Valid() && (forall x :: x in free ==> x in old(free)) && Pages() == old(Pages())
        && done <= n
        && MapsRange(old(tables), tables, root, p, done, pa, WithBit(perm, PTE_V))
        && (forall q :: p <= q < p + done ==> Free(old(tables), root, q))
        && (r == Mapped ==> 0 < done == n)
        && (r == Mapped ==> Spent(old(tables), tables, root, p, n, |old(free)|, |free|, 0))
        && (r == OutOfTables ==> done < n && free == [] && |old(free)| < |Missing(old(tables), root, p, n)|)
        && (r == MapPanic ==> n == 0 || (done < n && !Free(old(tables), root, p + done)))
    {
      hide Tree, PteOf, Lookup, Spent, Missing, AllPages;
      done := 0;
      if size == 0 {
        return MapPanic, 0;
      }
      var a, b, last := PageDown(va), pa, PageDown(va + size - 1);
      ghost var p, n, attr := va / PGSIZE, RangePages(va, size), WithBit(perm, PTE_V);
      SpentNone(tables, root, p, |free|);
      while true
        invariant Valid() && (forall x :: x in free ==> x in old(free)) && Pages() == old(Pages())
        invariant done < n && a == (p + done) * PGSIZE && b == pa + done * PGSIZE && last == (p + n - 1) * PGSIZE
        invariant MapsRange(old(tables), tables, root, p, done, pa, attr)
        invariant Spent(old(tables), tables, root, p, done, |old(free)|, |free|, 0)
        invariant forall q :: p <= q < p + done ==> Free(old(tables), root, q)
        decreases n - done
      {
        ghost var before, left := tables, |free|;
        RangeFree(old(tables), before, root, p, done, pa, attr);
        r := MapOne(a, b, WithBit(perm, PTE_V));
        if r != Mapped {
          RangeSame(old(tables), before, tables, root, p, done, pa, attr);
          if r == OutOfTables {
            TooFew(old(tables), before, root, p, done, n, |old(free)|, left, 0, 0);
          }
          return r, done;
        }
        SpentMore(old(tables), before, tables, root, p, done, |old(free)|, left, |free|, 0, 0);
        MapsOneMore(old(tables), before, tables, root, p, done, pa, attr);
        done := done + 1;
        if a == last {
          return Mapped, done;
        }
        a, b := a + PGSIZE, b + PGSIZE;
      }
    }

    // Give a data page back.
    method GiveBack(f: nat)
      requires Valid() && f in frames
      modifies this`free, this`frames
      ensures Valid() && frames == old(frames) - {f} && free == [f] + old(free) && Pages() == old(Pages())
    {
      free := [f] + free;
      frames := frames - {f};
    }

    // One round of unmap: clear the entry of the page at address a; false means one of the panics.
    method UnmapOne(a: nat, doFree: bool) returns (ok: bool)
      requires Valid() && a % PGSIZE == 0
      requires doFree && HasLeaf(tables, root, a / PGSIZE) ==> FrameOf(tables, root, a / PGSIZE) in frames
      modifies this`tables, this`free, this`place, this`frames
      ensures Valid() && tables.Keys == old(tables).Keys && Pages() == old(Pages())
      ensures ok <==> HasLeaf(old(tables), root, a / PGSIZE)
      ensures ok ==> ChangesPage(old(tables), tables, root, a, 0)
      ensures var f := FrameOf(old(tables), root, a / PGSIZE);
        && frames == (if ok && doFree then old(frames) - {f} else old(frames))
        && free == (if ok && doFree then [f] + old(free) else old(free))
      ensures !ok ==> tables == old(tables)
    {
      hide Tree, Lookup, Px, LowTable, Flags, ToPa, AllPages;
      assert a / PGSIZE * PGSIZE == a;
      var slot := Walk(a, false);
      if !slot.Slot? {
        NoLowNoEntry(tables, root, a);
        return false;
      }
      var w := EntryAt(a, slot);
      if !IsV(w) || !IsLeaf(w) {
        return false;
      }
      if doFree {
        GiveBack(ToPa(w));
      }
      Store(a, slot, 0);
      return true;
    }

    // Remove the entries of npages pages from va; false means one of the panics.
    method Unmap(va: nat, npages: nat, doFree: bool) returns (ok: bool, ghost done: nat)
      requires Valid() && (doFree ==> OwnsRange(tables, root, frames, va / PGSIZE, npages))
      modifies this`tables, this`free, this`place, this`frames
      ensures var p := va / PGSIZE;
        && Valid() && done <= npages
        && (ok <==> va % PGSIZE == 0 && done == npages)
        && UnmapsRange(old(tables), tables, root, p, done)
        && (forall q :: p <= q < p + done ==> HasLeaf(old(tables), root, q))
        && (!ok && va % PGSIZE == 0 ==> !HasLeaf(old(tables), root, p + done))
        && frames == (if doFree then old(frames) - FramesOf(old(tables), root, p, done) else old(frames))
        // the frames are back with the allocator
        && tables.Keys == old(tables).Keys && Pages() == old(Pages())
        && (doFree ==> multiset(free) == multiset(old(free)) + multiset(FramesOf(old(tables), root, p, done)))
        && (!doFree ==> free == old(free))
    {
      hide Tree, Lookup, FrameOf, HasLeaf, AllPages, FramesOf, UnmapsRange, OwnsRange;
      done := 0;
      ghost var p := va / PGSIZE;
      NoneUnmapped(tables, root, p);
      if va % PGSIZE != 0 {
        return false, 0;
      }
      var a := va;
      while a < va + npages * PGSIZE
        invariant Valid() && done <= npages && va == p * PGSIZE && a == (p + done) * PGSIZE
        invariant UnmapsRange(old(tables), tables, root, p, done)
        invariant forall q :: p <= q < p + done ==> HasLeaf(old(tables), root, q)
        invariant frames == if doFree then old(frames) - FramesOf(old(tables), root, p, done) else old(frames)
        invariant tables.Keys == old(tables).Keys && Pages() == old(Pages())
        invariant doFree ==> multiset(free) == multiset(old(free)) + multiset(FramesOf(old(tables), root, p, done))
        invariant !doFree ==> free == old(free)
        decreases npages - done
      {
        ghost var before := tables;
        RangeKeeps(old(tables), before, root, p, done);
        FramesOneMore(old(tables), root, p, done);
        assert a / PGSIZE == p + done;
        if doFree && HasLeaf(old(tables), root, p + done) {
          StillOwned(old(tables), root, old(frames), p, npages, done);
          OneMoreFrame(FramesOf(old(tables), root, p, done), FrameOf(old(tables), root, p + done));
        }
        var cleared := UnmapOne(a, doFree);
        if !cleared {
          return false, done;
        }
        UnmapsOneMore(old(tables), before, tables, root, p, done);
        LeavesOneMore(old(tables), root, p, done);
        done := done + 1;
        a := a + PGSIZE;
      }
      return true, done;
    }

    // Shrink user memory from oldsz to newsz bytes; false means one of unmap's panics.
    method Dealloc(oldsz: nat, newsz: nat) returns (ok: bool, sz: nat)
      requires Valid() && OwnsRange(tables, root, frames, PageUp(newsz) / PGSIZE, NewPages(newsz, oldsz))
      modifies this`tables, this`free, this`place, this`frames
      ensures Valid()
      ensures var p, n := PageUp(newsz) / PGSIZE, NewPages(newsz, oldsz);
        && (ok <==> forall q :: p <= q < p + n ==> HasLeaf(old(tables), root, q))
        && (ok ==> UnmapsRange(old(tables), tables, root, p, n))
        && (ok ==> frames == old(frames) - FramesOf(old(tables), root, p, n))
        && (ok ==> multiset(free) == multiset(old(free)) + multiset(FramesOf(old(tables), root, p, n)))
        && tables.Keys == old(tables).Keys && Pages() == old(Pages())
        && (ok ==> sz == if newsz >= oldsz then oldsz else newsz)
    {
      hide Tree, Lookup, HasLeaf, FrameOf, AllPages;
      ghost var p, n := PageUp(newsz) / PGSIZE, NewPages(newsz, oldsz);
      assert FramesOf(tables, root, p, 0) == {};
      if newsz >= oldsz {
        return true, oldsz;
      }
      ok := true;
      sz := newsz;
      if PageUp(newsz) < PageUp(oldsz) {
        var npages := (PageUp(oldsz) - PageUp(newsz)) / PGSIZE;
        ghost var done;
        ok, done := Unmap(PageUp(newsz), npages, true);
      }
    }

    // One round of growing: a zeroed data page for the page at address a.
    method GrowOne(a: nat, xperm: nat) returns (r: MapResult, mem: nat)
      requires Valid() && xperm < 1024 && a % PGSIZE == 0
      modifies this`tables, this`free, this`place, this`frames
      ensures Valid() && Pages() == old(Pages())
      ensures r == MapPanic ==> !Free(old(tables), root, a / PGSIZE)
      ensures r == OutOfTables ==>
        && SameView(old(tables), tables, root) && frames == old(frames)
        && |old(free)| < 1 + |Missing(old(tables), root, a / PGSIZE, 1)|
      ensures r == Mapped ==>
        && Free(old(tables), root, a / PGSIZE) && mem % PGSIZE == 0 && mem !in old(frames)
        && frames == old(frames) + {mem}
        && MapsRange(old(tables), tables, root, a / PGSIZE, 1, mem, UserAttr(xperm))
        && Spent(old(tables), tables, root, a / PGSIZE, 1, |old(free)|, |free|, 1)
    {
      hide Tree, Lookup, PteOf, Free, Missing, Adds, Needs, AllPages;
      var page := TakePage();
      if page.None? {
        return OutOfTables, 0;
      }
      mem := page.value;
      PageMoved(old(free), frames, tables.Keys);
      frames := frames + {mem};
      ghost var done;
      r, done := MapPages(a, mem, PGSIZE, WithBit(WithBit(xperm, PTE_R), PTE_U));
      if r == OutOfTables {
        GiveBack(mem);
      }
    }

    // Out of memory at address a: free the pages grown so far.
    method GiveUp(a: nat, start: nat, xperm: nat,
                  ghost ts: Tables, ghost owned: set<nat>, ghost p: nat, ghost mems: seq<nat>)
      requires Valid() && xperm < 1024 && start == p * PGSIZE && a == (p + |mems|) * PGSIZE
      requires NoDup(mems) && (forall f <- mems :: f % PGSIZE == 0 && f !in owned)
      requires frames == owned + (set f | f in mems) && GrowView(ts, tables, root, p, mems, UserAttr(xperm))
      requires forall q :: p <= q < p + |mems| ==> Free(ts, root, q)
      modifies this`tables, this`free, this`place, this`frames
      ensures Valid() && SameView(ts, tables, root) && frames == owned && Pages() == old(Pages())
    {
      hide Tree, Lookup, PteOf, UserAttr, Free, HasLeaf, FrameOf, AllPages, FramesOf;
      GrownOwned(ts, tables, root, p, mems, xperm, frames);
      ghost var grown := tables;
      var ok, sz := Dealloc(a, start);
      ShrinkUndoesGrow(ts, grown, tables, root, p, mems, UserAttr(xperm));
    }

    // Grow user memory from oldsz to newsz bytes.
    method Alloc(oldsz: nat, newsz: nat, xperm: nat) returns (r: GrowResult, ghost mems: seq<nat>)
      requires Valid() && xperm < 1024
      modifies this`tables, this`free, this`place, this`frames
      ensures newsz < oldsz ==> r == Grown(oldsz) && unchanged(this)
      ensures Pages() == old(Pages())
      ensures var p, n := PageUp(oldsz) / PGSIZE, NewPages(oldsz, newsz);
        && (r == GrowPanic ==> exists q :: p <= q < p + n && !Free(old(tables), root, q))
        // out of memory exactly if the pages for data and for missing tables are not there
        && (r == NoMemory ==>
              && Valid() && SameView(old(tables), tables, root) && frames == old(frames)
              && |old(free)| < n + |Missing(old(tables), root, p, n)|
              && |old(free)| - |free| == |tables.Keys| - |old(tables).Keys|)
        && (r.Grown? ==> |old(free)| == |free| + n + |Missing(old(tables), root, p, n)|)
        && (r.Grown? ==>
              && Valid() && r.sz == (if newsz < oldsz then oldsz else newsz)
              && |mems| == n && NoDup(mems)
              && (forall f <- mems :: f % PGSIZE == 0 && f !in old(frames))
              && frames == old(frames) + (set f | f in mems)
              && (forall q :: p <= q < p + n ==> Free(old(tables), root, q))
              && GrowView(old(tables), tables, root, p, mems, UserAttr(xperm)))
    {
      hide Tree, Lookup, UserAttr, Free, Missing, AllPages, Spent, GrowView, GrownSoFar, MapsRange, SameView;
      mems := [];
      var start := PageUp(oldsz);
      ghost var p, f0 := start / PGSIZE, |free|;
      GrownNone(tables, root, frames, f0, p, xperm);
      GrownMeans(tables, tables, root, frames, frames, f0, f0, p, mems, xperm);
      if newsz < oldsz {
        return Grown(oldsz), [];
      }
      var a := start;
      while a < newsz
        invariant Valid() && a == (p + |mems|) * PGSIZE && |mems| <= NewPages(oldsz, newsz) && Pages() == old(Pages())
        invariant GrownSoFar(old(tables), tables, root, old(frames), frames, f0, |free|, p, mems, xperm)
        decreases NewPages(oldsz, newsz) - |mems|
      {
        ghost var before, owned, left := tables, frames, |free|;
        GrownMeans(old(tables), before, root, old(frames), owned, f0, left, p, mems, xperm);
        GrowFree(old(tables), before, root, p, mems, UserAttr(xperm));
        assert a / PGSIZE == p + |mems|;
        var m, mem := GrowOne(a, xperm);
        if m == MapPanic {
          return GrowPanic, mems;
        }
        if m == OutOfTables {
          TooFew(old(tables), before, root, p, |mems|, NewPages(oldsz, newsz), f0, left, |mems|, 1);
          GrowSame(old(tables), before, tables, root, p, mems, UserAttr(xperm));
          GiveUp(a, start, xperm, old(tables), old(frames), p, mems);
          SameCount(old(free), old(tables).Keys, free, tables.Keys, frames);
          return NoMemory, mems;
        }
        GrownNext(old(tables), before, tables, root, old(frames), owned, f0, left, |free|, p, mems, mem, xperm);
        mems := mems + [mem];
        a := a + PGSIZE;
      }
      GrownMeans(old(tables), tables, root, old(frames), frames, f0, |free|, p, mems, xperm);
      return Grown(newsz), mems;
    }

    // Growing and then shrinking back leaves the translations and the owned pages as they were.
    method GrowAndShrink(oldsz: nat, newsz: nat, xperm: nat) returns (r: GrowResult)
      requires Valid() && xperm < 1024 && oldsz <= newsz
      modifies this`tables, this`free, this`place, this`frames
      ensures r != GrowPanic ==> Valid() && SameView(old(tables), tables, root) && frames == old(frames)
      ensures r.Grown? ==> r.sz == oldsz
      // and but for the tables it hung, every page is free again
      ensures Pages() == old(Pages())
      ensures r != GrowPanic ==> |old(free)| - |free| == |tables.Keys| - |old(tables).Keys|
    {
      hide Tree, Lookup, PteOf, UserAttr, Free, HasLeaf, FrameOf, AllPages, FramesOf;
      ghost var mems;
      r, mems := Alloc(oldsz, newsz, xperm);
      if r.Grown? {
        ghost var p, grown := PageUp(oldsz) / PGSIZE, tables;
        GrownOwned(old(tables), tables, root, p, mems, xperm, frames);
        var ok, sz := Dealloc(newsz, oldsz);
        ShrinkUndoesGrow(old(tables), grown, tables, root, p, mems, UserAttr(xperm));
        r := Grown(sz);
        assert frames == old(frames) && Pages() == old(Pages());
        SameCount(old(free), old(tables).Keys, free, tables.Keys, frames);
      }
    }
  }
}
