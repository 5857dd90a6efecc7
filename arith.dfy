/** Facts about natural-number multiplication, division and powers of two that
    the verifier does not find on its own (they are non-linear). */
module Arith {

  function Pow2(n: nat): (r: nat)
    ensures r >= 1
  {
    if n == 0 then 1 else 2 * Pow2(n - 1)
  }

  lemma {:induction false} MulMono(q: nat, b: nat, c: nat)
    requires b >= c
    ensures q * b >= q * c
  {
    if q > 0 {
      MulMono(q - 1, b, c);
      assert q * b == (q - 1) * b + b;
      assert q * c == (q - 1) * c + c;
    }
  }

  /** Dividing a natural number by a positive one gives a natural number. */
  lemma DivNat(x: nat, d: nat)
    requires d >= 1
    ensures 0 <= x / d
  {
  }

  lemma DivStep(n: nat, b: nat)
    requires 2 <= b <= n
    ensures 1 <= n / b < n
    ensures n == n / b * b + n % b && n % b < b
  {
    var q, r := n / b, n % b;
    assert n == q * b + r;
    MulMono(q, b, 2);
  }

  lemma {:induction false} Pow2Add(a: nat, b: nat)
    ensures Pow2(a + b) == Pow2(a) * Pow2(b)
  {
    if a > 0 {
      Pow2Add(a - 1, b);
      assert Pow2(a + b) == 2 * Pow2(a - 1 + b);
    }
  }

  lemma Pow2Values()
    ensures Pow2(4) == 16 && Pow2(8) == 256
    ensures Pow2(16) == 0x1_0000 && Pow2(24) == 0x100_0000 && Pow2(32) == 0x1_0000_0000
  {
    assert Pow2(4) == 16;
    assert Pow2(8) == 256;
    Pow2Add(8, 8);
    Pow2Add(16, 8);
    Pow2Add(16, 16);
  }

  /** Division has one quotient: the one the Euclidean identity names. */
  lemma DivUnique(x: nat, d: nat, q: nat, r: nat)
    requires d > 0 && r < d && x == q * d + r
    ensures x / d == q && x % d == r
  {
    var q', r' := x / d, x % d;
    assert x == q' * d + r';
    if q > q' {
      MulMono(d, q - q', 1);
    } else if q < q' {
      MulMono(d, q' - q, 1);
    }
  }

  lemma DivDiv(x: nat, a: nat, b: nat)
    requires a > 0 && b > 0
    ensures x / a / b == x / (a * b)
  {
    var q1, r1 := x / a, x % a;
    var q2, r2 := q1 / b, q1 % b;
    assert x == q1 * a + r1;
    assert q1 == q2 * b + r2;
    MulRegroup(q2, b, r2, a);
    MulAddBound(r2, a, b, r1);
    DivUnique(x, a * b, q2, r2 * a + r1);
  }

  /** (q * b + r) * a regrouped around the product a * b. */
  lemma MulRegroup(q: nat, b: nat, r: nat, a: nat)
    ensures (q * b + r) * a == q * (a * b) + r * a
  {
  }

  lemma DivBound(x: nat, a: nat, b: nat)
    requires b > 0 && x < a * b
    ensures x / b < a
  {
    var q := x / b;
    assert x == q * b + x % b;
    if q >= a {
      MulMono(b, q, a);
    }
  }

  lemma MulAddBound(v: nat, p: nat, q: nat, l: nat)
    requires v < q && l < p
    ensures v * p + l < q * p
  {
    MulMono(p, q - 1, v);
    assert p * (q - 1) == p * q - p;
  }

  /** w * (k + 1) split into its two summands. */
  lemma MulSucc(w: nat, k: nat)
    ensures w * (k + 1) == w * k + w
  {
  }
}
