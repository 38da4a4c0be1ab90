/**
 What the machine makes of the tables: the address translation process of the RISC-V privileged architecture for
 Sv39, written out over the words in memory, and that it agrees with the flat view of the tree.
 */
module Hardware {
  import opened Arith
  import opened Wrappers
  import opened Sv39

  // Bytes that one entry of a table of the given level stands for.
  function Reach(level: nat): (n: nat)
    requires level < 3
    ensures n > 0
  {
    if level == 2 then 0x4000_0000 else if level == 1 then 0x20_0000 else 0x1000
  }

  /** The physical address the machine finds for va from the table at address a, if any. A word has the valid bit at
      bit 0, the read, write and execute bits at 1 to 3 and the page number from bit 10 up; words that are not valid,
      or writable but not readable, fault. */
  function Translate(ts: Tables, a: nat, va: nat, level: nat): (pa: Option<nat>)
    requires level < 3
    decreases level
  {
    if a !in ts || |ts[a]| != 512 then None
    else
      var pte := ts[a][va / Reach(level) % 512];
      var r, w, x := pte / 2 % 2 == 1, pte / 4 % 2 == 1, pte / 8 % 2 == 1;
      if pte % 2 == 0 || (!r && w) then None
      else if r || x then Some(pte / 1024 * 4096 + va % Reach(level))
      else if level == 0 then None
      else Translate(ts, pte / 1024 * 4096, va, level - 1)
  }

  lemma PointerBits(w: nat)
    requires w % 1024 == 1
    ensures w % 2 == 1 && w / 2 % 2 == 0 && w / 4 % 2 == 0 && w / 8 % 2 == 0
  {
    Bits(32 * (w / 1024), 0, 0, 0, 0, 1);
  }

  lemma SameIndex(va: nat, level: nat)
    requires level < 3
    ensures va / Reach(level) % 512 == Px(va, level)
  {
  }

  // One step down through a valid entry of an upper table.
  lemma StepsDown(ts: Tables, root: nat, place: map<nat, Place>, t: nat, va: nat, level: nat)
    requires Tree(ts, root, place) && t in place && !place[t].Low? && 0 < level < 3
    ensures Translate(ts, t, va, level) ==
      match Child(ts, t, Px(va, level))
      case None => None
      case Some(c) => Translate(ts, c, va, level - 1)
    ensures Child(ts, t, Px(va, level)).Some? ==>
      var c := Child(ts, t, Px(va, level)).value; c in place && place[c] == Down(place[t], Px(va, level))
  {
    SameIndex(va, level);
    hide Px, Reach;
    var w := ts[t][Px(va, level)];
    if IsV(w) {
      PointerBits(w);
    }
  }

  /** For every address below MAXVA the machine finds the page the flat view names, if its entry is readable, or
      executable and not writable, and faults otherwise. */
  lemma MachineAgrees(ts: Tables, root: nat, place: map<nat, Place>, va: nat)
    requires Tree(ts, root, place) && va < MAXVA
    ensures Translate(ts, root, va, 2) ==
      match Lookup(ts, root, va)
      case None => None
      case Some(w) =>
        if w / 2 % 2 == 1 || (w / 8 % 2 == 1 && w / 4 % 2 == 0) then Some(w / 1024 * 4096 + va % 4096) else None
  {
    hide Px, Translate;
    StepsDown(ts, root, place, root, va, 2);
    if Child(ts, root, Px(va, 2)).Some? {
      var m := Child(ts, root, Px(va, 2)).value;
      StepsDown(ts, root, place, m, va, 1);
      if Child(ts, m, Px(va, 1)).Some? {
        LastWord(ts, Child(ts, m, Px(va, 1)).value, va);
      }
    }
  }

  lemma LastWord(ts: Tables, t: nat, va: nat)
    requires t in ts && |ts[t]| == 512
    ensures var w := ts[t][Px(va, 0)];
      Translate(ts, t, va, 0) ==
      if w % 2 == 1 && (w / 2 % 2 == 1 || (w / 8 % 2 == 1 && w / 4 % 2 == 0)) then Some(w / 1024 * 4096 + va % 4096)
      else None
  {
    SameIndex(va, 0);
    hide Px;
  }
}
