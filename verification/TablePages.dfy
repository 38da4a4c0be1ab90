/**
 How many pages for tables a range of addresses needs: one for each place on the walks of the range that has no
 table yet.
 */
module TablePages {
  import opened Wrappers
  import opened Sv39

  /** There is a table in place x of the tree. */
  predicate Has(ts: Tables, root: nat, x: Place) {
    match x
    case Root => true
    case Mid(i) => Child(ts, root, i).Some?
    case Low(i, j) => Child(ts, root, i).Some? && Child(ts, Child(ts, root, i).value, j).Some?
  }

  // The tree gained tables in exactly the places xs.
  ghost predicate Adds(ts: Tables, ts': Tables, root: nat, xs: set<Place>) {
    forall x :: Has(ts', root, x) <==> Has(ts, root, x) || x in xs
  }

  function MidOf(q: nat): (x: Place) {
    Mid(Px(q * PGSIZE, 2))
  }

  function LowOf(q: nat): (x: Place) {
    Low(Px(q * PGSIZE, 2), Px(q * PGSIZE, 1))
  }

  // The places below the root that the walks of pages [p, p + k) pass.
  function Needs(p: nat, k: nat): (xs: set<Place>) {
    (set q | p <= q < p + k :: MidOf(q)) + (set q | p <= q < p + k :: LowOf(q))
  }

  /** The places among them without a table. */
  function Missing(ts: Tables, root: nat, p: nat, k: nat): (xs: set<Place>) {
    set x | x in Needs(p, k) && !Has(ts, root, x)
  }

  lemma NeedsOne(p: nat)
    ensures Needs(p, 1) == {MidOf(p), LowOf(p)}
  {
    hide MidOf, LowOf;
    assert (set q | p <= q < p + 1 :: MidOf(q)) == {MidOf(p)};
    assert (set q | p <= q < p + 1 :: LowOf(q)) == {LowOf(p)};
  }

  lemma NeedsMore(p: nat, k: nat)
    ensures Needs(p, k + 1) == Needs(p, k) + Needs(p + k, 1)
  {
    hide MidOf, LowOf;
    NeedsOne(p + k);
    assert (set q | p <= q < p + k + 1 :: MidOf(q)) == (set q | p <= q < p + k :: MidOf(q)) + {MidOf(p + k)};
    assert (set q | p <= q < p + k + 1 :: LowOf(q)) == (set q | p <= q < p + k :: LowOf(q)) + {LowOf(p + k)};
  }

  lemma MissingOne(ts: Tables, root: nat, va: nat)
    ensures var p, m, l := va / PGSIZE, Mid(Px(va, 2)), Low(Px(va, 2), Px(va, 1));
      && Needs(p, 1) == {m, l}
      && |Missing(ts, root, p, 1)| == (if Has(ts, root, m) then 0 else 1) + (if Has(ts, root, l) then 0 else 1)
  {
    var p, m, l := va / PGSIZE, Mid(Px(va, 2)), Low(Px(va, 2), Px(va, 1));
    NeedsOne(p);
    PxOfPage(va, 1);
    PxOfPage(va, 2);
    hide Needs, Px, Has;
    var a: set<Place> := if Has(ts, root, m) then {} else {m};
    var b: set<Place> := if Has(ts, root, l) then {} else {l};
    assert Missing(ts, root, p, 1) == a + b;
    Disjoint(a, b);
  }

  lemma MissingNone(ts: Tables, root: nat, p: nat)
    ensures Missing(ts, root, p, 0) == {} && Needs(p, 0) == {}
  {
  }

  lemma Disjoint<T>(a: set<T>, b: set<T>)
    requires a !! b
    ensures |a + b| == |a| + |b|
  {
  }

  lemma Subset<T>(a: set<T>, b: set<T>)
    requires a <= b
    ensures |a| <= |b|
  {
    assert b == a + (b - a);
    Disjoint(a, b - a);
  }

  /** The tables for one more page come on top of those for the pages before it. */
  lemma MissingMore(ts: Tables, ts1: Tables, root: nat, p: nat, k: nat)
    requires Adds(ts, ts1, root, Needs(p, k))
    ensures |Missing(ts, root, p, k + 1)| == |Missing(ts, root, p, k)| + |Missing(ts1, root, p + k, 1)|
  {
    hide Needs, Has;
    NeedsMore(p, k);
    var a, b := Missing(ts, root, p, k), Missing(ts1, root, p + k, 1);
    assert Missing(ts, root, p, k + 1) == a + b;
    Disjoint(a, b);
  }

  lemma AddsMore(ts: Tables, ts1: Tables, ts2: Tables, root: nat, p: nat, k: nat)
    requires Adds(ts, ts1, root, Needs(p, k)) && Adds(ts1, ts2, root, Needs(p + k, 1))
    ensures Adds(ts, ts2, root, Needs(p, k + 1))
  {
    hide Needs, Has;
    NeedsMore(p, k);
  }

  lemma {:induction false} MissingGrows(ts: Tables, root: nat, p: nat, k: nat, n: nat)
    requires k <= n
    ensures |Missing(ts, root, p, k)| <= |Missing(ts, root, p, n)|
    decreases n
  {
    if k < n {
      MissingGrows(ts, root, p, k, n - 1);
      NeedsMore(p, n - 1);
      hide Needs, Has;
      Subset(Missing(ts, root, p, n - 1), Missing(ts, root, p, n));
    }
  }

  /** Mapping pages [p, p + k) took extra pages and those for the missing tables, and hung exactly these tables. */
  ghost predicate Spent(ts: Tables, ts': Tables, root: nat, p: nat, k: nat, before: nat, after: nat, extra: nat) {
    Adds(ts, ts', root, Needs(p, k)) && before == after + extra + |Missing(ts, root, p, k)|
  }

  lemma SpentNone(ts: Tables, root: nat, p: nat, n: nat)
    ensures Spent(ts, ts, root, p, 0, n, n, 0)
  {
    MissingNone(ts, root, p);
  }

  lemma SpentMeans(ts: Tables, ts': Tables, root: nat, p: nat, k: nat, before: nat, after: nat, extra: nat)
    requires Spent(ts, ts', root, p, k, before, after, extra)
    ensures before == after + extra + |Missing(ts, root, p, k)|
  {
  }

  lemma SpentMore(ts: Tables, ts1: Tables, ts2: Tables, root: nat, p: nat, k: nat,
                  f: nat, f1: nat, f2: nat, x: nat, y: nat)
    requires Spent(ts, ts1, root, p, k, f, f1, x) && Spent(ts1, ts2, root, p + k, 1, f1, f2, y)
    ensures Spent(ts, ts2, root, p, k + 1, f, f2, x + y)
  {
    hide Needs, Has, Missing, Adds;
    MissingMore(ts, ts1, root, p, k);
    AddsMore(ts, ts1, ts2, root, p, k);
  }

  lemma TooFew(ts: Tables, ts1: Tables, root: nat, p: nat, k: nat, n: nat, f: nat, f1: nat, x: nat, y: nat)
    requires Spent(ts, ts1, root, p, k, f, f1, x) && f1 < y + |Missing(ts1, root, p + k, 1)| && k < n
    ensures f < x + y + |Missing(ts, root, p, n)|
  {
    hide Needs, Has, Missing, Adds;
    MissingMore(ts, ts1, root, p, k);
    MissingGrows(ts, root, p, k + 1, n);
  }

  // A store after the walk changes no table.
  lemma SpentThenStored(ts: Tables, ts1: Tables, ts2: Tables, root: nat, p: nat, k: nat, f: nat, f1: nat, x: nat)
    requires Spent(ts, ts1, root, p, k, f, f1, x) && Adds(ts1, ts2, root, {})
    ensures Spent(ts, ts2, root, p, k, f, f1, x)
  {
    hide Needs, Has, Missing;
  }

  // Table t is where its place says.
  predicate Hangs(ts: Tables, root: nat, place: map<nat, Place>, t: nat)
    requires t in place
  {
    t == root || (place[t].Mid? && Child(ts, root, place[t].i) == Some(t))
  }

  lemma RootHangs(ts: Tables, root: nat, place: map<nat, Place>)
    requires Tree(ts, root, place)
    ensures root in place && place[root] == Root
  {
  }

  /** Hanging a table fills its place and no other. */
  lemma LinkFills(ts: Tables, root: nat, place: map<nat, Place>, t: nat, i: nat, page: nat)
    requires Tree(ts, root, place) && t in place && !place[t].Low? && i < 512 && Hangs(ts, root, place, t)
    requires !IsV(ts[t][i]) && page !in ts && page % PGSIZE == 0
    ensures Adds(ts, Linked(ts, t, i, page), root, {Down(place[t], i)})
    ensures !Has(ts, root, Down(place[t], i))
  {
    var ts' := Linked(ts, t, i, page);
    PteRoundTrip(page, PTE_V);
    assert ToPa(PteOf(page, PTE_V)) == page && IsV(PteOf(page, PTE_V));
    hide PteOf, ToPa, IsV;
    forall u: nat, j: nat ensures Child(ts', u, j) ==
      if u == t && j == i then Some(page) else if u == page then None else Child(ts, u, j)
    {
      ChildLinked(ts, t, i, page, u, j);
    }
    assert root in ts && t in ts;
    forall a: nat
      ensures Child(ts, root, a) != Some(page)
      ensures t != root && Child(ts, root, a) == Some(t) ==> a == place[t].i
    {
      if Child(ts, root, a).Some? {
        ChildPlace(ts, root, place, root, a);
      }
    }
    hide Linked, Tree;
    forall x ensures Has(ts', root, x) <==> Has(ts, root, x) || x in {Down(place[t], i)} {
    }
  }

  lemma ChildPlace(ts: Tables, root: nat, place: map<nat, Place>, t: nat, a: nat)
    requires Tree(ts, root, place) && t in place && !place[t].Low? && Child(ts, t, a).Some?
    ensures Child(ts, t, a).value in place && place[Child(ts, t, a).value] == Down(place[t], a)
  {
    assert IsV(ts[t][a]);
  }

  lemma ChildLinked(ts: Tables, t: nat, i: nat, page: nat, u: nat, j: nat)
    requires t in ts && i < |ts[t]| && page !in ts && IsV(PteOf(page, PTE_V)) && ToPa(PteOf(page, PTE_V)) == page
    ensures Child(Linked(ts, t, i, page), u, j) ==
      if u == t && j == i then Some(page) else if u == page then None else Child(ts, u, j)
  {
    hide PteOf, ToPa;
    assert !IsV(0);
  }

  /** Storing an entry in a level-0 table adds none. */
  lemma StoreAddsNone(ts: Tables, root: nat, place: map<nat, Place>, va: nat, w: nat)
    requires Tree(ts, root, place) && LowTable(ts, root, va).Some?
    ensures LowTable(ts, root, va).value in ts && Px(va, 0) < |ts[LowTable(ts, root, va).value]|
    ensures Adds(ts, WithEntry(ts, LowTable(ts, root, va).value, Px(va, 0), w), root, {})
  {
    LowPlace(ts, root, place, va);
    var t := LowTable(ts, root, va).value;
    var ts' := WithEntry(ts, t, Px(va, 0), w);
    hide LowTable;
    forall u: nat, j: nat | u != t ensures Child(ts', u, j) == Child(ts, u, j) {
    }
    forall a: nat ensures Child(ts, root, a) != Some(t) {
      if Child(ts, root, a).Some? {
        ChildPlace(ts, root, place, root, a);
      }
    }
    hide Child, Tree, WithEntry;
  }
}
