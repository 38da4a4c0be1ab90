/** Bit arrays packed eight to a byte, as the alloc and split bitmaps are. */
module BitArray {

  function Mask(j: nat): (m: bv8)
    requires j < 8
  {
    1 << j
  }

  predicate ByteHas(x: bv8, j: nat)
    requires j < 8
  {
    x & Mask(j) == Mask(j)
  }

  function ByteSet(x: bv8, j: nat, v: bool): (y: bv8)
    requires j < 8
  {
    if v then x | Mask(j) else x & !Mask(j)
  }

  // Bit i; bits past the end of the array read as clear.
  predicate IsSet(a: seq<bv8>, i: nat) {
    i / 8 < |a| && ByteHas(a[i / 8], i % 8)
  }

  function Set(a: seq<bv8>, i: nat, v: bool): (b: seq<bv8>)
    requires i / 8 < |a|
    ensures |b| == |a|
  {
    a[i / 8 := ByteSet(a[i / 8], i % 8, v)]
  }

  lemma MaskTable(j: nat)
    requires j < 8
    ensures Mask(j) == if j == 0 then 1 else if j == 1 then 2 else if j == 2 then 4 else if j == 3 then 8
                       else if j == 4 then 16 else if j == 5 then 32 else if j == 6 then 64 else 128
  {
    assert (1 as bv8) << 0 == 1;
    assert (1 as bv8) << 1 == 2;
    assert (1 as bv8) << 2 == 4;
    assert (1 as bv8) << 3 == 8;
    assert (1 as bv8) << 4 == 16;
    assert (1 as bv8) << 5 == 32;
    assert (1 as bv8) << 6 == 64;
    assert (1 as bv8) << 7 == 128;
  }

  lemma MasksDisjoint(i: nat, j: nat)
    requires i < 8 && j < 8
    ensures Mask(i) != 0
    ensures i != j ==> Mask(i) & Mask(j) == 0
  {
    MaskTable(i);
    MaskTable(j);
  }

  lemma MaskedBits(x: bv8, m: bv8, n: bv8)
    ensures (x | m) & m == m && (x & !m) & m == 0
    ensures m & n == 0 ==> (x | m) & n == x & n && (x & !m) & n == x & n
  {
  }

  lemma ByteSetChangesOne(x: bv8, i: nat, v: bool, j: nat)
    requires i < 8 && j < 8
    ensures ByteHas(ByteSet(x, i, v), j) <==> (if i == j then v else ByteHas(x, j))
  {
    MasksDisjoint(i, j);
    hide Mask;
    MaskedBits(x, Mask(i), Mask(j));
  }

  /** Setting one bit changes that bit and no other. */
  lemma SetChangesOne(a: seq<bv8>, i: nat, v: bool, j: nat)
    requires i / 8 < |a|
    ensures IsSet(Set(a, i, v), j) <==> (if i == j then v else IsSet(a, j))
  {
    if i / 8 == j / 8 {
      ByteSetChangesOne(a[i / 8], i % 8, v, j % 8);
    }
    hide ByteHas, ByteSet;
    assert i == i / 8 * 8 + i % 8 && j == j / 8 * 8 + j % 8;
  }

  lemma ZeroedIsClear(n: nat, i: nat)
    ensures !IsSet(seq(n, _ => 0), i)
  {
    MaskTable(i % 8);
    hide Mask;
    assert (0 as bv8) & Mask(i % 8) == 0;
  }
}
