/**
 Sv39 page tables as values: entry words, the three indices of an address, the tree of table
 pages, and the flat map from virtual pages to entries that the tree stands for.
 */
module Sv39 {
  import opened Wrappers

  const PGSIZE := 4096
  const MAXVA := 0x40_0000_0000  // one bit less than Sv39 allows
  const PTE_V := 1
  const PTE_R := 2
  const PTE_W := 4
  const PTE_X := 8
  const PTE_U := 16

  // ---------------------------------------------------------------- entries

  // Physical page number above ten flag bits; the shifts are written as divisions.
  function PteOf(pa: nat, attr: nat): (w: nat)
    requires attr < 1024
  {
    pa / PGSIZE * 1024 + attr
  }

  function ToPa(w: nat): (pa: nat) {
    w / 1024 * PGSIZE
  }

  function Flags(w: nat): (f: nat) {
    w % 1024
  }

  predicate HasBit(x: nat, m: nat)
    requires m > 0
  {
    x / m % 2 == 1
  }

  // x | m for a single bit m.
  function WithBit(x: nat, m: nat): (y: nat)
    requires m > 0
  {
    if HasBit(x, m) then x else x + m
  }

  predicate IsV(w: nat) {
    HasBit(w, PTE_V)
  }

  predicate IsU(w: nat) {
    HasBit(w, PTE_U)
  }

  predicate IsLeaf(w: nat) {
    Flags(w) != PTE_V
  }

  /** An entry gives back the page address and the flags it was made from. */
  lemma PteRoundTrip(pa: nat, attr: nat)
    requires attr < 1024
    ensures ToPa(PteOf(pa, attr)) == pa / PGSIZE * PGSIZE
    ensures Flags(PteOf(pa, attr)) == attr
    ensures IsV(PteOf(pa, attr)) <==> attr % 2 == 1
    ensures IsU(PteOf(pa, attr)) <==> HasBit(attr, PTE_U)
  {
    SplitWord(pa / PGSIZE, attr);
  }

  // Parts of a word made of a page number and flags.
  lemma SplitWord(q: nat, attr: nat)
    requires attr < 1024
    ensures var w := q * 1024 + attr;
      && w / 1024 == q && w % 1024 == attr && w % 2 == attr % 2
      && w / 16 % 2 == attr / 16 % 2
  {
    var w := q * 1024 + attr;
    assert w / 16 == 2 * (32 * q) + attr / 16 by { Sixteenths(q, attr); }
    Halves(512 * q, attr);
    Halves(32 * q, attr / 16);
  }

  lemma Sixteenths(q: nat, attr: nat)
    ensures (q * 1024 + attr) / 16 == 64 * q + attr / 16
  {
    assert q * 1024 + attr == 16 * (64 * q + attr / 16) + attr % 16;
  }

  lemma Halves(a: nat, b: nat)
    ensures (2 * a + b) % 2 == b % 2
  {
  }

  // ---------------------------------------------------------------- addresses

  function Span(level: nat): (n: nat)
    requires level < 3
    ensures n > 0
  {
    if level == 0 then PGSIZE else if level == 1 then PGSIZE * 512 else PGSIZE * 512 * 512
  }

  // Index of va in a table of the given level.
  function Px(va: nat, level: nat): (i: nat)
    requires level < 3
    ensures i < 512
  {
    va / Span(level) % 512
  }

  function PageDown(va: nat): (r: nat)
    ensures r <= va < r + PGSIZE && r % PGSIZE == 0
  {
    va / PGSIZE * PGSIZE
  }

  function PageUp(sz: nat): (r: nat)
    ensures sz <= r < sz + PGSIZE && r % PGSIZE == 0
  {
    (sz + PGSIZE - 1) / PGSIZE * PGSIZE
  }

  /** Below MAXVA the three indices determine the page. */
  lemma PxInjective(va: nat, vb: nat)
    requires va < MAXVA && vb < MAXVA
    requires Px(va, 0) == Px(vb, 0) && Px(va, 1) == Px(vb, 1) && Px(va, 2) == Px(vb, 2)
    ensures va / PGSIZE == vb / PGSIZE
  {
    PxDigits(va);
    PxDigits(vb);
  }

  lemma PxDigits(va: nat)
    requires va < MAXVA
    ensures va / PGSIZE == (Px(va, 2) * 512 + Px(va, 1)) * 512 + Px(va, 0)
  {
    var p := va / PGSIZE;
    assert va / (PGSIZE * 512) == p / 512;
    assert va / (PGSIZE * 512 * 512) == p / 512 / 512;
    assert p / 512 / 512 < 512;
  }

  lemma PxOfPage(va: nat, level: nat)
    requires level < 3
    ensures Px(PageDown(va), level) == Px(va, level)
  {
    var p := va / PGSIZE;
    assert va / (PGSIZE * 512) == p / 512 == PageDown(va) / (PGSIZE * 512);
    assert va / (PGSIZE * 512 * 512) == p / 512 / 512 == PageDown(va) / (PGSIZE * 512 * 512);
  }

  // ---------------------------------------------------------------- the tree

  // Table pages by address, 512 words each.
  type Tables = map<nat, seq<nat>>

  // Where in the tree a table page hangs.
  datatype Place = Root | Mid(i: nat) | Low(i: nat, j: nat)

  function Down(p: Place, i: nat): (q: Place)
    requires !p.Low?
  {
    if p.Root? then Mid(i) else Low(p.i, i)
  }

  /** Each table page of the tree hangs in one place: tables never alias. */
  ghost predicate Tree(ts: Tables, root: nat, place: map<nat, Place>) {
    && root in place && place[root] == Root
    && (forall t <- place :: t in ts && |ts[t]| == 512)
    && (forall t, i {:trigger ts[t][i]} :: t in place && !place[t].Low? && 0 <= i < 512 && IsV(ts[t][i]) ==>
          !IsLeaf(ts[t][i]) && ToPa(ts[t][i]) in place && place[ToPa(ts[t][i])] == Down(place[t], i))
  }

  function WithEntry(ts: Tables, t: nat, i: nat, w: nat): (r: Tables)
    requires t in ts && i < |ts[t]|
  {
    var row: seq<nat> := ts[t][i := w];
    ts[t := row]
  }

  // The table that entry i of table t points at.
  function Child(ts: Tables, t: nat, i: nat): (c: Option<nat>) {
    if t in ts && i < |ts[t]| && IsV(ts[t][i]) then Some(ToPa(ts[t][i])) else None
  }

  // The level-0 table for va.
  function LowTable(ts: Tables, root: nat, va: nat): (c: Option<nat>) {
    match Child(ts, root, Px(va, 2))
    case None => None
    case Some(t) => Child(ts, t, Px(va, 1))
  }

  /** The flat view: the valid entry for va, if there is one. */
  function Lookup(ts: Tables, root: nat, va: nat): (w: Option<nat>) {
    match LowTable(ts, root, va)
    case None => None
    case Some(t) =>
      if t in ts && Px(va, 0) < |ts[t]| && IsV(ts[t][Px(va, 0)]) then Some(ts[t][Px(va, 0)]) else None
  }

  // What a stored word is worth to a lookup.
  function Entry(w: nat): (r: Option<nat>) {
    if IsV(w) then Some(w) else None
  }

  /** The flat views agree except that the page of va now has entry w. */
  ghost predicate ChangesPage(ts: Tables, ts': Tables, root: nat, va: nat, w: nat) {
    forall v: nat :: v < MAXVA ==>
      Lookup(ts', root, v) == (if v / PGSIZE == va / PGSIZE then Entry(w) else Lookup(ts, root, v))
  }

  lemma LowPlace(ts: Tables, root: nat, place: map<nat, Place>, va: nat)
    requires Tree(ts, root, place) && LowTable(ts, root, va).Some?
    ensures LowTable(ts, root, va).value in place
    ensures place[LowTable(ts, root, va).value] == Low(Px(va, 2), Px(va, 1))
    ensures Child(ts, root, Px(va, 2)).Some? && Child(ts, root, Px(va, 2)).value in place
  {
    var t := Child(ts, root, Px(va, 2)).value;
    assert IsV(ts[root][Px(va, 2)]);
    assert place[t] == Mid(Px(va, 2));
    assert IsV(ts[t][Px(va, 1)]);
  }

  /** Storing an entry in a level-0 table changes the translation of its own page and of no other. */
  lemma StoreEntry(ts: Tables, root: nat, place: map<nat, Place>, va: nat, w: nat)
    requires Tree(ts, root, place) && va < MAXVA && LowTable(ts, root, va).Some?
    ensures LowTable(ts, root, va).value in ts && |ts[LowTable(ts, root, va).value]| == 512
    ensures var t := LowTable(ts, root, va).value;
      var ts' := WithEntry(ts, t, Px(va, 0), w);
      Tree(ts', root, place) && ChangesPage(ts, ts', root, va, w)
  {
    LowPlace(ts, root, place, va);
    var t := LowTable(ts, root, va).value;
    var ts' := WithEntry(ts, t, Px(va, 0), w);
    forall v: nat | v < MAXVA
      ensures Lookup(ts', root, v) == if v / PGSIZE == va / PGSIZE then Entry(w) else Lookup(ts, root, v)
    {
      UpperUnchanged(ts, root, place, t, ts', v);
      if v / PGSIZE == va / PGSIZE {
        SamePage(v, va);
      } else if LowTable(ts, root, v) == Some(t) {
        LowPlace(ts, root, place, v);
        if Px(v, 0) == Px(va, 0) {
          PxInjective(v, va);
        }
      }
    }
  }

  lemma SamePage(v: nat, va: nat)
    requires v / PGSIZE == va / PGSIZE
    ensures forall l {:trigger Px(v, l)} :: 0 <= l < 3 ==> Px(v, l) == Px(va, l)
  {
    forall l {:trigger Px(v, l)} | 0 <= l < 3 ensures Px(v, l) == Px(va, l) {
      PxOfPage(v, l);
      PxOfPage(va, l);
    }
  }

  // Changing a level-0 table leaves the two upper steps of every walk alone.
  lemma UpperUnchanged(ts: Tables, root: nat, place: map<nat, Place>, t: nat, ts': Tables, v: nat)
    requires Tree(ts, root, place) && t in place && place[t].Low?
    requires forall x :: x in ts && x != t ==> x in ts' && ts'[x] == ts[x]
    ensures LowTable(ts', root, v) == LowTable(ts, root, v)
  {
    if Child(ts, root, Px(v, 2)).Some? {
      var m := Child(ts, root, Px(v, 2)).value;
      assert IsV(ts[root][Px(v, 2)]);
      assert place[m] == Mid(Px(v, 2));
    }
  }

  function ZeroTable(): (row: seq<nat>)
    ensures |row| == 512 && forall i :: 0 <= i < 512 ==> row[i] == 0
  {
    seq(512, _ => 0)
  }

  // A new, empty table hung at entry i of table t.
  function Linked(ts: Tables, t: nat, i: nat, page: nat): (r: Tables)
    requires t in ts && i < |ts[t]| && page != t
  {
    WithEntry(ts[page := ZeroTable()], t, i, PteOf(page, PTE_V))
  }

  /** The flat views are the same. */
  ghost predicate SameView(ts: Tables, ts': Tables, root: nat) {
    forall v: nat :: v < MAXVA ==> Lookup(ts', root, v) == Lookup(ts, root, v)
  }

  /** Hanging a new table in the tree maps nothing: every translation stays as it is. */
  lemma LinkTable(ts: Tables, root: nat, place: map<nat, Place>, t: nat, i: nat, page: nat)
    requires Tree(ts, root, place) && t in place && !place[t].Low? && i < 512
    requires !IsV(ts[t][i]) && page !in ts && page % PGSIZE == 0
    ensures var ts' := Linked(ts, t, i, page);
      && Tree(ts', root, place[page := Down(place[t], i)])
      && Child(ts', t, i) == Some(page)
      && SameView(ts, ts', root)
  {
    var ts' := Linked(ts, t, i, page);
    PteRoundTrip(page, PTE_V);
    assert ToPa(PteOf(page, PTE_V)) == page;
    LinkTree(ts, root, place, t, i, page);
    forall v: nat | v < MAXVA ensures Lookup(ts', root, v) == Lookup(ts, root, v) {
      LinkLookup(ts, root, place, t, i, page, v);
    }
  }

  lemma LinkTree(ts: Tables, root: nat, place: map<nat, Place>, t: nat, i: nat, page: nat)
    requires Tree(ts, root, place) && t in place && !place[t].Low? && i < 512
    requires page !in ts && page % PGSIZE == 0
    ensures Tree(Linked(ts, t, i, page), root, place[page := Down(place[t], i)])
  {
    var ts', place' := Linked(ts, t, i, page), place[page := Down(place[t], i)];
    PteRoundTrip(page, PTE_V);
    assert ToPa(PteOf(page, PTE_V)) == page;
    assert !IsLeaf(PteOf(page, PTE_V));
    hide PteOf, ToPa, IsLeaf;
    forall u, j | u in place' && !place'[u].Low? && 0 <= j < 512 && IsV(ts'[u][j])
      ensures !IsLeaf(ts'[u][j]) && ToPa(ts'[u][j]) in place' && place'[ToPa(ts'[u][j])] == Down(place'[u], j)
    {
      if u != page && !(u == t && j == i) {
        assert ts'[u][j] == ts[u][j];
      }
    }
  }

  lemma LinkLookup(ts: Tables, root: nat, place: map<nat, Place>, t: nat, i: nat, page: nat, v: nat)
    requires Tree(ts, root, place) && t in place && !place[t].Low? && i < 512
    requires !IsV(ts[t][i]) && page !in ts && page % PGSIZE == 0
    ensures Lookup(Linked(ts, t, i, page), root, v) == Lookup(ts, root, v)
  {
    var ts' := Linked(ts, t, i, page);
    PteRoundTrip(page, PTE_V);
    assert ToPa(PteOf(page, PTE_V)) == page;
    hide PteOf, ToPa;
    assert forall j :: 0 <= j < 512 ==> ts'[page][j] == 0;
    if Child(ts, root, Px(v, 2)).Some? {
      var m := Child(ts, root, Px(v, 2)).value;
      assert IsV(ts[root][Px(v, 2)]);
      assert place[m] == Mid(Px(v, 2));
      if Child(ts, m, Px(v, 1)).Some? {
        LowPlace(ts, root, place, v);
      }
    }
  }

  /** Walks of different index pairs end in different level-0 tables, and none of them in an upper table. */
  lemma TablesNeverAlias(ts: Tables, root: nat, place: map<nat, Place>, va: nat, vb: nat)
    requires Tree(ts, root, place) && LowTable(ts, root, va).Some? && LowTable(ts, root, vb).Some?
    ensures LowTable(ts, root, va) == LowTable(ts, root, vb) <==> Px(va, 2) == Px(vb, 2) && Px(va, 1) == Px(vb, 1)
    ensures LowTable(ts, root, va) != Some(root) && LowTable(ts, root, va) != Child(ts, root, Px(vb, 2))
  {
    LowPlace(ts, root, place, va);
    LowPlace(ts, root, place, vb);
    assert IsV(ts[root][Px(vb, 2)]);
  }
}
