/** How much of the arena the allocator's own data takes, and that it is never too much. */
module BuddyMeta {
  import opened Arith

  const LEAF_SIZE := 16
  const MAX_ALIGN := 4096
  const SZINFO_SIZE := 48  // a list node and two optional slices

  lemma MultipleMod(q: nat, d: nat)
    requires d > 0
    ensures (q * d) % d == 0
  {
    DivUnique(q * d, d, q);
  }

  function RoundUp(n: nat, sz: nat): (r: nat)
    requires n > 0 && sz > 0
    ensures n <= r < n + sz && r % sz == 0
  {
    MultipleMod(Quot(n - 1, sz) + 1, sz);
    (Quot(n - 1, sz) + 1) * sz
  }

  function RoundDown(n: nat, sz: nat): (r: nat)
    requires sz > 0
    ensures r <= n < r + sz && r % sz == 0
  {
    MultipleMod(Quot(n, sz), sz);
    Quot(n, sz) * sz
  }

  // Bytes of a bitmap with n bits.
  function BitmapSize(n: nat): (r: nat)
    requires n > 0
    ensures 8 * r < n + 8 && n <= 8 * r
  {
    RoundUp(n, 8) / 8
  }

  // Bytes of the bitmaps of the top n classes, the topmost of which has one block.
  function BitmapBytes(n: nat): (r: nat) {
    if n == 0 then 0 else BitmapBytes(n - 1) + BitmapSize(Pow2(n - 1))
  }

  lemma {:induction false} BitmapBytesBound(n: nat)
    ensures 8 * BitmapBytes(n) <= Pow2(n) + 7 * n
  {
    if n > 0 {
      BitmapBytesBound(n - 1);
    }
  }

  // Bytes of the size records, the alloc bitmaps and the split bitmaps.
  function MetaBytes(nsize: nat): (r: nat)
    requires nsize > 0
    ensures r >= nsize * SZINFO_SIZE
  {
    nsize * SZINFO_SIZE + BitmapBytes(nsize) + BitmapBytes(nsize - 1)
  }

  // The same in leaves, rounded up.
  function MetaLeaves(nsize: nat): (m: nat)
    requires nsize > 0
    ensures m > 0 && nsize * SZINFO_SIZE <= m * LEAF_SIZE
    ensures m * LEAF_SIZE == RoundUp(MetaBytes(nsize), LEAF_SIZE)
  {
    Quot(MetaBytes(nsize) - 1, LEAF_SIZE) + 1
  }

  /** nsize is the number of classes init chooses for an arena of e leaves. */
  predicate Fits(nsize: nat, e: nat) {
    nsize >= 9 && Pow2(nsize - 2) < e <= Pow2(nsize - 1)
  }

  lemma {:induction false} LinearBelowPow2(n: nat)
    requires n >= 9
    ensures 1592 * n + 480 <= 52 * Pow2(n - 1) + 16384
  {
    if n == 9 {
      assert Pow2(8) == 256 by { Pow2Add(4, 4); assert Pow2(4) == 16; }
    } else {
      LinearBelowPow2(n - 1);
      Pow2Monotone(8, n - 2);
      assert Pow2(8) == 256 by { Pow2Add(4, 4); assert Pow2(4) == 16; }
    }
  }

  lemma PagesPastHalf(nsize: nat, e: nat)
    requires Fits(nsize, e) && e % 256 == 0
    ensures e >= Pow2(nsize - 2) + 128
  {
    assert Pow2(7) == 128 by { Pow2Add(4, 3); assert Pow2(4) == 16 && Pow2(3) == 8; }
    Pow2Add(7, nsize - 9);
    hide Pow2;
    HalfPages(e, e / 256, Pow2(nsize - 9));
  }

  // A number of whole pages above a number of half pages is at least half a page above it.
  lemma HalfPages(e: nat, q: nat, h: nat)
    requires e == 256 * q && 128 * h < e
    ensures e >= 128 * h + 128
  {
    assert h < 2 * q;
  }

  /** The metadata of every arena of whole pages fills at most a quarter of it. */
  lemma MetaIsAQuarter(nsize: nat, e: nat)
    requires Fits(nsize, e) && e % 256 == 0
    ensures 4 * MetaLeaves(nsize) <= e
  {
    BitmapBytesBound(nsize);
    BitmapBytesBound(nsize - 1);
    LinearBelowPow2(nsize);
    PagesPastHalf(nsize, e);
    var n := Pow2(nsize - 2);
    assert Pow2(nsize - 1) == 2 * n && Pow2(nsize) == 4 * n;
  }

  lemma HalvingStep(n: nat, h: nat, n0: nat)
    requires n > 1 && n * h <= n0 < (n + 1) * h
    ensures (n / 2) * (2 * h) <= n0 < (n / 2 + 1) * (2 * h)
  {
    var c := n / 2;
    assert c * (2 * h) == 2 * c * h && (c + 1) * (2 * h) == (2 * c + 2) * h;
    MulMono(2 * c, n, h);
    MulMono(n + 1, 2 * c + 2, h);
  }

  // Integer logarithm by repeated halving.
  method Log2(n0: nat) returns (k: nat)
    ensures n0 > 0 ==> Pow2(k) <= n0 < Pow2(k + 1)
    ensures n0 == 0 ==> k == 0
  {
    k := 0;
    var n := n0;
    while n > 1
      invariant n0 > 0 ==> n > 0 && n * Pow2(k) <= n0 < (n + 1) * Pow2(k)
      invariant n0 == 0 ==> n == 0 && k == 0
    {
      HalvingStep(n, Pow2(k), n0);
      k := k + 1;
      n := n / 2;
    }
  }
}
