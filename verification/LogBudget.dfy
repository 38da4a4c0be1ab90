/** Writes that running operations still have left, each at most its limit. */
module LogBudget {
  import opened LogDisk

  // The writes left to all operations together.
  ghost function Budget(active: map<nat, nat>): (n: nat) {
    if active == map[] then 0 else
      var op :| op in active;
      active[op] + Budget(active - {op})
  }

  lemma {:induction false} BudgetWithout(active: map<nat, nat>, op: nat)
    requires op in active
    ensures Budget(active) == active[op] + Budget(active - {op})
    decreases |active|
  {
    var c :| c in active && Budget(active) == active[c] + Budget(active - {c});
    if c != op {
      BudgetWithout(active - {c}, op);
      BudgetWithout(active - {op}, c);
      assert active - {c} - {op} == active - {op} - {c};
    }
  }

  lemma BudgetSet(active: map<nat, nat>, op: nat, n: nat)
    ensures Budget(active[op := n]) == n + Budget(active - {op})
  {
    BudgetWithout(active[op := n], op);
    assert active[op := n] - {op} == active - {op};
  }

  lemma {:induction false} BudgetBound(active: map<nat, nat>)
    requires forall op <- active :: active[op] <= MAXOPBLOCKS
    ensures Budget(active) <= |active| * MAXOPBLOCKS
    decreases |active|
  {
    if active != map[] {
      var op :| op in active && Budget(active) == active[op] + Budget(active - {op});
      BudgetBound(active - {op});
      assert active.Keys == (active - {op}).Keys + {op};
    }
  }
}
