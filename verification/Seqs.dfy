/** Sequences without repetition, shared by the models. */
module Seqs {

  predicate NoDup<T(==)>(q: seq<T>) {
    forall m, n :: 0 <= m < n < |q| ==> q[m] != q[n]
  }

  // q without the first occurrence of x.
  function Without<T(==)>(q: seq<T>, x: T): (r: seq<T>) {
    if q == [] then [] else if q[0] == x then q[1..] else [q[0]] + Without(q[1..], x)
  }

  lemma {:induction false} WithoutSpec<T>(q: seq<T>, x: T)
    requires NoDup(q)
    ensures NoDup(Without(q, x))
    ensures forall y :: y in Without(q, x) <==> y in q && y != x
    ensures |Without(q, x)| == if x in q then |q| - 1 else |q|
  {
    if q != [] {
      HeadOfNoDup(q);
      if q[0] != x {
        WithoutSpec(q[1..], x);
      }
    }
  }

  lemma {:induction false} WithoutAt<T>(q: seq<T>, j: nat)
    requires NoDup(q) && j < |q|
    ensures Without(q, q[j]) == q[..j] + q[j + 1..]
  {
    if j > 0 {
      WithoutAt(q[1..], j - 1);
      assert q[..j] == [q[0]] + q[1..][..j - 1];
    }
  }

  lemma HeadOfNoDup<T>(q: seq<T>)
    requires q != [] && NoDup(q)
    ensures NoDup(q[1..]) && q[0] !in q[1..]
    ensures forall y :: y in q <==> y == q[0] || y in q[1..]
  {
  }
}
