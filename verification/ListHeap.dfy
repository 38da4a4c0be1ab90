/**
 The intrusive, circular, doubly linked lists behind the free lists.

 A node is its address.  All lists share one memory of next and prev links; each ring is
 named by the address of its head node.
 */
module ListHeap {
  import opened Seqs
  import opened Wrappers

  // The ring with head h and elements q, front first, with the head repeated at the end.
  ghost function Cycle(h: nat, q: seq<nat>): (c: seq<nat>) {
    [h] + q + [h]
  }

  // Nodes i and i + 1 of c point at each other.
  ghost predicate LinkedAt(next: map<nat, nat>, prev: map<nat, nat>, c: seq<nat>, i: nat)
    requires i < |c| - 1
  {
    && c[i] in next && next[c[i]] == c[i + 1]
    && c[i + 1] in prev && prev[c[i + 1]] == c[i]
  }

  ghost predicate Linked(next: map<nat, nat>, prev: map<nat, nat>, c: seq<nat>) {
    forall i :: 0 <= i < |c| - 1 ==> LinkedAt(next, prev, c, i)
  }

  // Address a is no node of any ring.
  ghost predicate Unlinked(rings: map<nat, seq<nat>>, a: nat) {
    a !in rings && forall h <- rings :: a !in rings[h]
  }

  /** No node is on two rings, or twice on one. */
  ghost predicate Apart(rings: map<nat, seq<nat>>) {
    && (forall h <- rings :: NoDup(rings[h]))
    && (forall g, h, a :: g in rings && h in rings && a in rings[g] && a in rings[h] ==> g == h)
    && (forall h, a :: h in rings && a in rings[h] ==> a !in rings)
  }

  // Links of a cycle survive changes to other nodes.
  lemma LinkedFrame(next: map<nat, nat>, prev: map<nat, nat>,
                    next': map<nat, nat>, prev': map<nat, nat>, c: seq<nat>)
    requires Linked(next, prev, c)
    requires forall a :: a in c && a in next ==> a in next' && next'[a] == next[a]
    requires forall a :: a in c && a in prev ==> a in prev' && prev'[a] == prev[a]
    ensures Linked(next', prev', c)
  {
    forall i | 0 <= i < |c| - 1 ensures LinkedAt(next', prev', c, i) {
      assert LinkedAt(next, prev, c, i);
    }
  }

  lemma CyclesApart(rings: map<nat, seq<nat>>, g: nat, h: nat, a: nat)
    requires Apart(rings) && g in rings && h in rings && g != h
    requires a in Cycle(g, rings[g])
    ensures a !in Cycle(h, rings[h])
  {
  }

  // Every ring but h's stays linked when only nodes of h's cycle, or nodes on no ring, change.
  lemma OthersLinked(rings: map<nat, seq<nat>>, h: nat, next: map<nat, nat>, prev: map<nat, nat>,
                     next': map<nat, nat>, prev': map<nat, nat>, g: nat)
    requires Apart(rings) && h in rings && g in rings && g != h
    requires Linked(next, prev, Cycle(g, rings[g]))
    requires forall a :: a in next && a !in Cycle(h, rings[h]) && !Unlinked(rings, a) ==>
      a in next' && next'[a] == next[a]
    requires forall a :: a in prev && a !in Cycle(h, rings[h]) && !Unlinked(rings, a) ==>
      a in prev' && prev'[a] == prev[a]
    ensures Linked(next', prev', Cycle(g, rings[g]))
  {
    forall a | a in Cycle(g, rings[g]) ensures a !in Cycle(h, rings[h]) {
      CyclesApart(rings, g, h, a);
    }
    LinkedFrame(next, prev, next', prev', Cycle(g, rings[g]));
  }

  lemma ApartWithout(rings: map<nat, seq<nat>>, h: nat, e: nat)
    requires Apart(rings) && h in rings && e in rings[h]
    ensures Apart(rings[h := Without(rings[h], e)])
    ensures Unlinked(rings[h := Without(rings[h], e)], e)
  {
    WithoutSpec(rings[h], e);
  }

  lemma PushLinks(next: map<nat, nat>, prev: map<nat, nat>, h: nat, q: seq<nat>, e: nat)
    requires Linked(next, prev, Cycle(h, q)) && NoDup(q) && h !in q && e !in q && e != h
    ensures h in next && next[h] in Cycle(h, q) && next[h] != e
    ensures Linked(next[e := next[h]][h := e], prev[e := h][next[h] := e], Cycle(h, [e] + q))
  {
    var c, d := Cycle(h, q), Cycle(h, [e] + q);
    assert LinkedAt(next, prev, c, 0);
    assert c[0] == h && c[1] in c;
    var next', prev' := next[e := next[h]][h := e], prev[e := h][next[h] := e];
    forall i | 0 <= i < |d| - 1
      ensures LinkedAt(next', prev', d, i)
    {
      if i >= 2 {
        assert LinkedAt(next, prev, c, i - 1);
        assert d[i] == c[i - 1] && d[i + 1] == c[i];
        assert c[i] != c[1];
      } else if i == 1 {
        assert d[2] == c[1];
      }
    }
  }

  lemma RemoveLinks(next: map<nat, nat>, prev: map<nat, nat>, h: nat, q: seq<nat>, j: nat)
    requires Linked(next, prev, Cycle(h, q)) && NoDup(q) && h !in q && j < |q|
    ensures q[j] in next && q[j] in prev && prev[q[j]] != q[j]
    ensures prev[q[j]] in Cycle(h, q) && next[q[j]] in Cycle(h, q)
    ensures var e := q[j];
      Linked(next[prev[e] := next[e]], prev[next[e] := prev[e]], Cycle(h, q[..j] + q[j + 1..]))
  {
    var c, e := Cycle(h, q), q[j];
    assert c[j + 1] == e;
    assert LinkedAt(next, prev, c, j) && LinkedAt(next, prev, c, j + 1);
    var a, b := c[j], c[j + 2];
    assert next[e] == b && prev[e] == a;
    var next', prev' := next[a := b], prev[b := a];
    var d := Cycle(h, q[..j] + q[j + 1..]);
    forall i | 0 <= i < |d| - 1
      ensures LinkedAt(next', prev', d, i)
    {
      if i < j {
        assert LinkedAt(next, prev, c, i);
        assert d[i] == c[i] && d[i + 1] == c[i + 1];
        assert c[i] != a && c[i + 1] != b;
      } else if i == j {
        assert d[i] == a && d[i + 1] == b;
      } else {
        assert LinkedAt(next, prev, c, i + 1);
        assert d[i] == c[i + 1] && d[i + 1] == c[i + 2];
        assert c[i + 1] != a && c[i + 2] != b;
      }
    }
  }

  class Heap {
    var next: map<nat, nat>
    var prev: map<nat, nat>
    ghost var rings: map<nat, seq<nat>>

    ghost predicate Valid()
      reads this
    {
      && Apart(rings)
      && forall h <- rings :: Linked(next, prev, Cycle(h, rings[h]))
    }

    constructor ()
      ensures Valid() && rings == map[]
    {
      next, prev, rings := map[], map[], map[];
    }

    // Make h the head of an empty list.
    method Init(h: nat)
      requires Valid() && Unlinked(rings, h)
      modifies this
      ensures Valid() && rings == old(rings)[h := []]
    {
      prev := prev[h := h];
      next := next[h := h];
      rings := rings[h := []];
      forall g | g in rings ensures Linked(next, prev, Cycle(g, rings[g])) {
        if g != h {
          LinkedFrame(old(next), old(prev), next, prev, Cycle(g, rings[g]));
        }
      }
    }

    method IsEmpty(h: nat) returns (r: bool)
      requires Valid() && h in rings
      ensures r <==> rings[h] == []
    {
      ghost var c := Cycle(h, rings[h]);
      assert LinkedAt(next, prev, c, 0);
      assert rings[h] != [] ==> c[1] in rings[h];
      r := next[h] == h;
    }

    // Unlink node e, which is on the ring with head h.
    method Remove(e: nat, ghost h: nat)
      requires Valid() && h in rings && e in rings[h]
      modifies this
      ensures Valid() && rings == old(rings)[h := Without(old(rings)[h], e)]
      ensures Unlinked(rings, e)
    {
      ghost var q := rings[h];
      ghost var j :| 0 <= j < |q| && q[j] == e;
      RemoveLinks(next, prev, h, q, j);
      WithoutAt(q, j);
      ApartWithout(rings, h, e);
      next := next[prev[e] := next[e]];
      prev := prev[next[e] := prev[e]];
      forall g | g in rings && g != h ensures Linked(next, prev, Cycle(g, rings[g])) {
        OthersLinked(rings, h, old(next), old(prev), next, prev, g);
      }
      rings := rings[h := Without(q, e)];
    }

    // Unlink and return the front node.
    method Pop(h: nat) returns (r: Option<nat>)
      requires Valid() && h in rings
      modifies this
      ensures Valid()
      ensures old(rings)[h] == [] ==> r == None && rings == old(rings)
      ensures old(rings)[h] != [] ==>
        r == Some(old(rings)[h][0]) && rings == old(rings)[h := old(rings)[h][1..]] && Unlinked(rings, r.value)
    {
      var empty := IsEmpty(h);
      if empty {
        return None;
      }
      ghost var c := Cycle(h, rings[h]);
      assert LinkedAt(next, prev, c, 0);
      var e := next[h];
      Remove(e, h);
      return Some(e);
    }

    // Link node e in at the front.
    method Push(h: nat, e: nat)
      requires Valid() && h in rings && Unlinked(rings, e)
      modifies this
      ensures Valid() && rings == old(rings)[h := [e] + old(rings)[h]]
    {
      PushLinks(next, prev, h, rings[h], e);
      prev := prev[e := h];
      next := next[e := next[h]];
      prev := prev[next[h] := e];
      next := next[h := e];
      forall g | g in rings && g != h ensures Linked(next, prev, Cycle(g, rings[g])) {
        OthersLinked(rings, h, old(next), old(prev), next, prev, g);
      }
      rings := rings[h := [e] + rings[h]];
    }
  }
}
