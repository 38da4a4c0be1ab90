/** Arithmetic shared by the models: powers of two and rounding to a multiple. */
module Arith {

  function Pow2(k: nat): (r: nat)
    ensures r >= 1
  {
    if k == 0 then 1 else 2 * Pow2(k - 1)
  }

  lemma {:induction false} Pow2Monotone(a: nat, b: nat)
    requires a <= b
    ensures Pow2(a) <= Pow2(b)
    ensures a < b ==> 2 * Pow2(a) <= Pow2(b)
    decreases b
  {
    if a < b {
      Pow2Monotone(a, b - 1);
    }
  }

  lemma {:induction false} Pow2Add(a: nat, b: nat)
    ensures Pow2(a + b) == Pow2(a) * Pow2(b)
  {
    if b > 0 {
      Pow2Add(a, b - 1);
      assert Pow2(a + b) == 2 * Pow2(a + (b - 1));
    }
  }

  lemma MulMono(a: nat, b: nat, c: nat)
    requires a <= b
    ensures a * c <= b * c
  {
  }

  lemma MulAssoc(a: nat, b: nat, c: nat)
    ensures a * b * c == a * (b * c)
  {
  }

  lemma MulDist(a: nat, b: nat, c: nat)
    ensures (a + b) * c == a * c + b * c
  {
  }

  /** q is the quotient of n by d as soon as n lies in [q*d, (q+1)*d). */
  lemma DivUnique(n: nat, d: nat, q: nat)
    requires d > 0
    requires q * d <= n < q * d + d
    ensures n / d == q
  {
    var r := n - q * d;
    var q', r' := n / d, n % d;
    assert n == q' * d + r';
    if q' < q {
      MulMono(q' + 1, q, d);
    } else if q < q' {
      MulMono(q + 1, q', d);
    }
  }

  /** Division of naturals, with the bounds that define it. */
  function Quot(n: nat, d: nat): (q: nat)
    requires d > 0
    ensures q * d <= n < q * d + d
  {
    DivBounds(n, d);
    n / d
  }

  lemma DivBounds(n: nat, d: nat)
    requires d > 0
    ensures (n / d) * d <= n < (n / d) * d + d
  {
  }

  /** Halving the quotient is dividing by the doubled divisor. */
  lemma DivTwice(n: nat, d: nat)
    requires d > 0
    ensures n / (2 * d) == (n / d) / 2
  {
    var q := n / d;
    DivBounds(n, d);
    MulMono(2 * (q / 2), q, d);
    MulMono(q, 2 * (q / 2) + 1, d);
    assert (q / 2) * (2 * d) == 2 * (q / 2) * d;
    DivUnique(n, 2 * d, q / 2);
  }

  // The low five bits of a number, and the number they make with the rest.
  lemma Bits(q: nat, e: nat, d: nat, c: nat, b: nat, x: nat)
    requires e < 2 && d < 2 && c < 2 && b < 2 && x < 2
    ensures var a := 32 * q + 16 * e + 8 * d + 4 * c + 2 * b + x;
      a % 2 == x && a / 2 % 2 == b && a / 4 % 2 == c && a / 8 % 2 == d && a / 16 % 2 == e
  {
    var a := 32 * q + 16 * e + 8 * d + 4 * c + 2 * b + x;
    var h4 := 2 * q + e;
    var h3 := 2 * h4 + d;
    var h2 := 2 * h3 + c;
    var h1 := 2 * h2 + b;
    DivUnique(a, 2, h1);
    DivUnique(a, 4, h2);
    DivUnique(a, 8, h3);
    DivUnique(a, 16, h4);
    LowBit(h1, x);
    LowBit(h2, b);
    LowBit(h3, c);
    LowBit(h4, d);
    LowBit(q, e);
  }

  lemma LowBit(h: nat, x: nat)
    requires x < 2
    ensures (2 * h + x) % 2 == x
  {
  }

  lemma Binary(a: nat)
    ensures a == 32 * (a / 32) + 16 * (a / 16 % 2) + 8 * (a / 8 % 2) + 4 * (a / 4 % 2) + 2 * (a / 2 % 2) + a % 2
  {
    assert a / 4 == a / 2 / 2 && a / 8 == a / 4 / 2 && a / 16 == a / 8 / 2 && a / 32 == a / 16 / 2;
  }
}
