/** Copying between the kernel and user memory, page by page, through a page table. */
module UserCopy {
  import opened Wrappers
  import opened Sv39
  import opened TablePages
  import opened PageTable

  // Physical memory, byte by byte.
  type Ram = nat -> bv8

  // Address of the user page at va, as walkaddr finds it.
  function UserPage(ts: Tables, root: nat, va: nat): (pa: Option<nat>)
    ensures pa.Some? ==> pa.value % PGSIZE == 0
  {
    if va >= MAXVA then None
    else match Lookup(ts, root, va)
         case None => None
         case Some(w) => if IsU(w) then Some(ToPa(w)) else None
  }

  /** The physical byte behind user address va. */
  function Phys(ts: Tables, root: nat, va: nat): (pa: Option<nat>) {
    match UserPage(ts, root, PageDown(va))
    case None => None
    case Some(page) => Some(page + va % PGSIZE)
  }

  function Put(ram: Ram, pa: nat, bytes: seq<bv8>): (r: Ram) {
    (x: nat) => if pa <= x < pa + |bytes| then bytes[x - pa] else ram(x)
  }

  /** Different user pages have different frames. */
  ghost predicate DistinctFrames(ts: Tables, root: nat) {
    forall v: nat, u: nat :: UserPage(ts, root, v).Some? && UserPage(ts, root, v) == UserPage(ts, root, u) ==>
      v / PGSIZE == u / PGSIZE
  }

  // All bytes [va, va + n) are user memory.
  ghost predicate AllUser(ts: Tables, root: nat, va: nat, n: nat) {
    forall u: nat :: va <= u < va + n ==> Phys(ts, root, u).Some?
  }

  // Byte x is behind one of [va, va + n).
  ghost predicate Behind(ts: Tables, root: nat, va: nat, n: nat, x: nat) {
    exists u: nat :: va <= u < va + n && Phys(ts, root, u) == Some(x)
  }

  // The bytes [va, va + |bytes|) read as the given ones.
  ghost predicate Reads(ram: Ram, ts: Tables, root: nat, va: nat, bytes: seq<bv8>) {
    forall u: nat :: va <= u < va + |bytes| ==>
      Phys(ts, root, u).Some? && ram(Phys(ts, root, u).value) == bytes[u - va]
  }

  lemma PhysInPage(ts: Tables, root: nat, va0: nat, pa: nat, u: nat)
    requires va0 % PGSIZE == 0 && UserPage(ts, root, va0) == Some(pa) && va0 <= u < va0 + PGSIZE
    ensures Phys(ts, root, u) == Some(pa + (u - va0))
  {
    hide UserPage;
    assert PageDown(u) == va0;
  }

  lemma PhysDistinct(ts: Tables, root: nat, v: nat, u: nat)
    requires DistinctFrames(ts, root) && v != u && Phys(ts, root, v).Some? && Phys(ts, root, u).Some?
    ensures Phys(ts, root, v) != Phys(ts, root, u)
  {
    hide UserPage;
    var a, b := UserPage(ts, root, PageDown(v)).value, UserPage(ts, root, PageDown(u)).value;
    if a == b {
      assert PageDown(v) / PGSIZE == PageDown(u) / PGSIZE;
      if v % PGSIZE == u % PGSIZE {
        SamePlace(v, u);
      }
    } else {
      OffsetsApart(a, b, v % PGSIZE, u % PGSIZE);
    }
  }

  lemma SamePlace(v: nat, u: nat)
    requires PageDown(v) / PGSIZE == PageDown(u) / PGSIZE && v % PGSIZE == u % PGSIZE
    ensures v == u
  {
  }

  lemma OffsetsApart(a: nat, b: nat, i: nat, j: nat)
    requires a % PGSIZE == 0 && b % PGSIZE == 0 && a != b && i < PGSIZE && j < PGSIZE
    ensures a + i != b + j
  {
  }

  // A chunk that lies in the page at va0 and starts at virtual address c.
  ghost predicate ChunkAt(ts: Tables, root: nat, va0: nat, pa: nat, c: nat, k: nat) {
    va0 % PGSIZE == 0 && UserPage(ts, root, va0) == Some(pa) && va0 <= c && c + k <= va0 + PGSIZE
  }

  // Writing one more chunk at the end of what has been written.
  lemma ChunkWritten(ts: Tables, root: nat, ram: Ram, va: nat, bytes: seq<bv8>, va0: nat, pa: nat, chunk: seq<bv8>)
    requires DistinctFrames(ts, root) && Reads(ram, ts, root, va, bytes)
    requires ChunkAt(ts, root, va0, pa, va + |bytes|, |chunk|)
    ensures Reads(Put(ram, pa + (va + |bytes| - va0), chunk), ts, root, va, bytes + chunk)
  {
    hide Phys, UserPage, DistinctFrames;
    var c := va + |bytes|;
    var start := pa + (c - va0);
    var ram' := Put(ram, start, chunk);
    forall u: nat | va <= u < c + |chunk|
      ensures Phys(ts, root, u).Some? && ram'(Phys(ts, root, u).value) == (bytes + chunk)[u - va]
    {
      if u >= c {
        PhysInPage(ts, root, va0, pa, u);
      } else {
        var x := Phys(ts, root, u).value;
        if start <= x < start + |chunk| {
          PhysInPage(ts, root, va0, pa, va0 + (x - pa));
          PhysDistinct(ts, root, u, va0 + (x - pa));
        }
      }
    }
  }

  lemma ChunkFrame(ts: Tables, root: nat, va0: nat, pa: nat, c: nat, k: nat, x: nat, va: nat, n: nat)
    requires ChunkAt(ts, root, va0, pa, c, k) && va <= c && c + k <= va + n
    requires pa + (c - va0) <= x < pa + (c - va0) + k
    ensures Behind(ts, root, va, n, x)
  {
    PhysInPage(ts, root, va0, pa, va0 + (x - pa));
  }

  lemma ChunkUser(ts: Tables, root: nat, va0: nat, pa: nat, va: nat, off: nat, k: nat)
    requires ChunkAt(ts, root, va0, pa, va + off, k) && AllUser(ts, root, va, off)
    ensures AllUser(ts, root, va, off + k)
  {
    forall u: nat | va <= u < va + off + k ensures Phys(ts, root, u).Some? {
      if u >= va + off {
        PhysInPage(ts, root, va0, pa, u);
      }
    }
  }

  // Reading one more chunk.
  lemma ChunkRead(ts: Tables, root: nat, ram: Ram, va: nat, bytes: seq<bv8>, va0: nat, pa: nat, chunk: seq<bv8>)
    requires Reads(ram, ts, root, va, bytes) && ChunkAt(ts, root, va0, pa, va + |bytes|, |chunk|)
    requires forall i :: 0 <= i < |chunk| ==> chunk[i] == ram(pa + (va + |bytes| - va0) + i)
    ensures Reads(ram, ts, root, va, bytes + chunk)
  {
    forall u: nat | va <= u < va + |bytes| + |chunk|
      ensures Phys(ts, root, u).Some? && ram(Phys(ts, root, u).value) == (bytes + chunk)[u - va]
    {
      if u >= va + |bytes| {
        PhysInPage(ts, root, va0, pa, u);
        assert (bytes + chunk)[u - va] == chunk[u - va - |bytes|];
      }
    }
  }

  function Slice(ram: Ram, pa: nat, n: nat): (bytes: seq<bv8>)
    ensures |bytes| == n && forall i :: 0 <= i < n ==> bytes[i] == ram(pa + i)
  {
    seq(n, i requires i >= 0 => ram(pa + i))
  }

  lemma NoPhys(ts: Tables, root: nat, va: nat)
    requires UserPage(ts, root, PageDown(va)) == None
    ensures Phys(ts, root, va) == None
  {
  }

  lemma SameBytes(ram: Ram, ts: Tables, root: nat, va: nat, a: seq<bv8>, b: seq<bv8>)
    requires |a| == |b| && Reads(ram, ts, root, va, a) && Reads(ram, ts, root, va, b)
    ensures a == b
  {
    forall i | 0 <= i < |a| ensures a[i] == b[i] {
      assert Phys(ts, root, va + i).Some?;
    }
  }

  class Memory {
    const space: Space
    var ram: Ram

    constructor (s: Space, r: Ram)
      ensures space == s && ram == r
    {
      space, ram := s, r;
    }

    method WalkAddr(va: nat) returns (r: Option<nat>)
      requires space.Valid()
      modifies space
      ensures space.Valid() && unchanged(space)
      ensures r == UserPage(space.tables, space.root, va)
    {
      if va >= MAXVA {
        return None;
      }
      var slot := space.Walk(va, false);
      if !slot.Slot? {
        NoLowNoEntry(space.tables, space.root, va);
        return None;
      }
      var w := space.EntryAt(va, slot);
      if !IsV(w) || !IsU(w) {
        return None;
      }
      return Some(ToPa(w));
    }

    // A page just mapped is found at its frame if and only if it was mapped for users.
    method MapThenWalk(va: nat, pa: nat, perm: nat) returns (r: MapResult, found: Option<nat>)
      requires space.Valid() && perm < 1024 && va % PGSIZE == 0 && pa % PGSIZE == 0
      modifies space
      ensures space.Valid()
      ensures r == Mapped ==> found == if perm / 16 % 2 == 1 then Some(pa) else None
    {
      hide Tree, Spent, Missing, Lookup, AllPages, PteOf, WithBit;
      found := None;
      ghost var done;
      r, done := space.MapPages(va, pa, PGSIZE, perm);
      if r == Mapped {
        found := WalkAddr(va);
        MappedEntry(perm, pa);
        assert RangePages(va, PGSIZE) == 1;
        assert Free(old(space.tables), space.root, va / PGSIZE) && va / PGSIZE * PGSIZE == va;
        assert Lookup(space.tables, space.root, va) == Entry(PteOf(pa, WithBit(perm, PTE_V)));
      }
    }

    // Copy bytes out to user memory, page by page.
    method CopyOut(dstva: nat, src: seq<bv8>) returns (ok: bool)
      requires space.Valid()
      modifies this`ram, space
      ensures space.Valid() && unchanged(space)
      ensures ok <==> AllUser(space.tables, space.root, dstva, |src|)
      ensures ok && DistinctFrames(space.tables, space.root) ==> Reads(ram, space.tables, space.root, dstva, src)
      ensures forall x: nat :: !Behind(space.tables, space.root, dstva, |src|, x) ==> ram(x) == old(ram)(x)
    {
      hide UserPage, Tree, Phys, DistinctFrames;
      ghost var ts, root := space.tables, space.root;
      var len, offset, va := |src|, 0, dstva;
      while len > 0
        invariant space.Valid() && unchanged(space) && 0 <= offset && 0 <= len && len + offset == |src|
        invariant len > 0 ==> va == dstva + offset
        invariant AllUser(ts, root, dstva, offset)
        invariant DistinctFrames(ts, root) ==> Reads(ram, ts, root, dstva, src[..offset])
        invariant forall x: nat :: !Behind(ts, root, dstva, |src|, x) ==> ram(x) == old(ram)(x)
      {
        var va0 := PageDown(va);
        var page := WalkAddr(va0);
        if page.None? {
          NoPhys(ts, root, va);
          return false;
        }
        var pa := page.value;
        var n := if PGSIZE - (va - va0) < len then PGSIZE - (va - va0) else len;
        var chunk := src[offset..offset + n];
        assert src[..offset] + chunk == src[..offset + n];
        if DistinctFrames(ts, root) {
          ChunkWritten(ts, root, ram, dstva, src[..offset], va0, pa, chunk);
        }
        ChunkUser(ts, root, va0, pa, dstva, offset, n);
        forall x: nat | !Behind(ts, root, dstva, |src|, x) ensures !(pa + (va - va0) <= x < pa + (va - va0) + n) {
          if pa + (va - va0) <= x < pa + (va - va0) + n {
            ChunkFrame(ts, root, va0, pa, va, n, x, dstva, |src|);
          }
        }
        ram := Put(ram, pa + (va - va0), chunk);
        len, offset, va := len - n, offset + n, va0 + PGSIZE;
      }
      assert src[..offset] == src;
      return true;
    }

    // Copy n bytes in from user memory, page by page.
    method CopyIn(srcva: nat, n: nat) returns (ok: bool, dst: seq<bv8>)
      requires space.Valid()
      modifies space
      ensures space.Valid() && unchanged(space)
      ensures ok <==> AllUser(space.tables, space.root, srcva, n)
      ensures ok ==> |dst| == n && Reads(ram, space.tables, space.root, srcva, dst)
    {
      hide UserPage, Tree, Phys;
      ghost var ts, root := space.tables, space.root;
      var len, va := n, srcva;
      dst := [];
      while len > 0
        invariant space.Valid() && unchanged(space) && 0 <= len && len + |dst| == n
        invariant len > 0 ==> va == srcva + |dst|
        invariant AllUser(ts, root, srcva, |dst|) && Reads(ram, ts, root, srcva, dst)
      {
        var va0 := PageDown(va);
        var page := WalkAddr(va0);
        if page.None? {
          NoPhys(ts, root, va);
          return false, dst;
        }
        var pa := page.value;
        var k := if PGSIZE - (va - va0) < len then PGSIZE - (va - va0) else len;
        var chunk := Slice(ram, pa + (va - va0), k);
        ChunkUser(ts, root, va0, pa, srcva, |dst|, k);
        ChunkRead(ts, root, ram, srcva, dst, va0, pa, chunk);
        dst := dst + chunk;
        len, va := len - k, va0 + PGSIZE;
      }
      return true, dst;
    }

    // What was copied out comes back in, for every length and page offset.
    method CopyOutIn(va: nat, src: seq<bv8>) returns (ok: bool, dst: seq<bv8>)
      requires space.Valid() && DistinctFrames(space.tables, space.root)
      modifies this`ram, space
      ensures space.Valid() && unchanged(space)
      ensures ok <==> AllUser(space.tables, space.root, va, |src|)
      ensures ok ==> dst == src
    {
      hide DistinctFrames, Phys, Tree;
      ok := CopyOut(va, src);
      dst := [];
      if ok {
        ok, dst := CopyIn(va, |src|);
        SameBytes(ram, space.tables, space.root, va, src, dst);
      }
    }
  }
}
