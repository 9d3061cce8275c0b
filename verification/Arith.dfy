/** Powers of two and the few facts about division by them that the decoder models use. */
module Arith {

  type byte = b: int | 0 <= b < 256

  function Pow2(k: nat): (r: nat)
    ensures r > 0
  {
    if k == 0 then 1 else 2 * Pow2(k - 1)
  }

  lemma {:induction false} Pow2Add(a: nat, b: nat)
    ensures Pow2(a + b) == Pow2(a) * Pow2(b)
  {
    if a != 0 {
      Pow2Add(a - 1, b);
      assert Pow2(a + b) == 2 * Pow2(a - 1 + b);
      assert 2 * (Pow2(a - 1) * Pow2(b)) == (2 * Pow2(a - 1)) * Pow2(b);
    }
  }

  lemma Pow2Double(k: nat)
    ensures Pow2(k + 1) == 2 * Pow2(k)
  {
  }

  lemma {:induction false} Pow2Monotone(a: nat, b: nat)
    requires a <= b
    ensures Pow2(a) <= Pow2(b)
  {
    if a < b {
      Pow2Monotone(a, b - 1);
    }
  }

  lemma Pow2Small()
    ensures Pow2(0) == 1 && Pow2(1) == 2 && Pow2(2) == 4 && Pow2(3) == 8 && Pow2(4) == 16
    ensures Pow2(5) == 32 && Pow2(6) == 64 && Pow2(7) == 128 && Pow2(8) == 256
    ensures Pow2(9) == 512 && Pow2(10) == 1024 && Pow2(11) == 2048 && Pow2(12) == 4096
    ensures Pow2(13) == 8192 && Pow2(14) == 16384 && Pow2(15) == 32768 && Pow2(16) == 65536
  {
    assert Pow2(4) == 16;
    assert Pow2(8) == 256;
    assert Pow2(12) == 4096;
  }

  lemma Pow2Large()
    ensures Pow2(24) == 0x100_0000 && Pow2(32) == 0x1_0000_0000
  {
    Pow2Small();
    Pow2Add(16, 16);
    Pow2Add(16, 8);
  }

  /** Division with remainder is unique. */
  lemma DivModUnique(n: int, d: int, q: int, r: int)
    requires 0 < d && 0 <= r < d
    requires n == q * d + r
    ensures n / d == q && n % d == r
  {
    var q', r' := n / d, n % d;
    assert n == q' * d + r';
    if q' < q {
      MulMonotone(q', q - 1, d);
    } else if q' > q {
      MulMonotone(q, q' - 1, d);
    }
  }

  lemma MulMonotone(a: int, b: int, c: int)
    requires a <= b && 0 <= c
    ensures a * c <= b * c
  {
  }

  lemma MulStrict(a: int, b: int, c: int)
    requires a < b && 0 < c
    ensures a * c < b * c
  {
  }

  lemma MulDouble(x: int, y: int, z: int)
    requires z == 2 * y
    ensures x * z == 2 * (x * y)
  {
  }

  /** (w * u + x) * t, with the scale of w made explicit. */
  lemma MulSum(w: int, u: int, x: int, t: int, ut: int)
    requires ut == u * t
    ensures (w * u + x) * t == w * ut + x * t
  {
    assert (w * u) * t == w * (u * t);
  }

  lemma MulAssoc(a: int, b: int, c: int)
    ensures (a * b) * c == a * (b * c)
  {
  }

  /** Dividing twice is dividing by the product d == c * b. */
  lemma DivDiv(a: nat, b: nat, c: nat, d: nat)
    requires b > 0 && c > 0 && d == c * b
    ensures d > 0 && a / d == a / b / c
  {
    var q, r := a / b, a % b;
    var q', r' := q / c, q % c;
    MulSum(q', c, r', b, d);
    MulMonotone(r', c - 1, b);
    assert a == q' * d + (r' * b + r);
    assert (c - 1) * b == d - b;
    DivModUnique(a, d, q', r' * b + r);
  }

  /** What is left of a bound on a product. */
  lemma FactorBound(c: int, p: int, u: nat, s: int)
    requires u > 0 && s == (c + 1) * u && s <= p * u
    ensures c < p
  {
    if c >= p {
      MulStrict(p, c + 1, u);
    }
  }

  /** If c + 1 units of size v end at s, which is no multiple of k * v, then the last of the
      units starts in the same multiple of k * v. */
  lemma CoarseFloor(c: nat, v: nat, s: nat, k: nat, u: nat)
    requires v > 0 && u > 0 && u == k * v && s == (c + 1) * v && s % u != 0
    ensures c * v / u == s / u
  {
    var x := s / u;
    assert s == x * u + s % u;
    MulAssoc(x, k, v);
    if c < x * k {
      MulMonotone(c + 1, x * k, v);
    } else {
      MulMonotone(x * k, c, v);
      assert (c + 1) * v == c * v + v;
      DivModUnique(c * v, u, x, c * v - x * u);
    }
  }

  lemma SameQuotient(a: nat, b: nat, d: nat)
    requires d > 0 && a < b && Quotient(a, d) == Quotient(b, d)
    ensures b % d != 0
  {
  }

  /** A multiple of d, divided by d. */
  lemma DivExact(k: int, d: nat)
    requires d > 0
    ensures k * d / d == k && k * d % d == 0
  {
    DivModUnique(k * d, d, k, 0);
  }

  /** Adding a multiple of d does not change the remainder. */
  lemma ModAdd(a: int, k: int, d: nat)
    requires d > 0
    ensures (a + k * d) % d == a % d && (a + k * d) / d == a / d + k
  {
    assert (a / d + k) * d == a / d * d + k * d;
    DivModUnique(a + k * d, d, a / d + k, a % d);
  }

  function Quotient(a: nat, d: nat): (q: nat)
    requires d > 0
  {
    a / d
  }

  lemma QuotientExact(a: nat, d: nat)
    requires d > 0 && a % d == 0
    ensures a == Quotient(a, d) * d && a + d == (Quotient(a, d) + 1) * d
  {
  }

  lemma CancelFactor(a: nat, b: nat, c: nat, bc: nat)
    requires b > 0 && c > 0 && bc == b * c
    ensures bc > 0 && a * c / bc == Quotient(a, b)
  {
    var q, r := a / b, a % b;
    MulSum(q, b, r, c, bc);
    MulMonotone(r, b - 1, c);
    assert (b - 1) * c == bc - c;
    DivModUnique(a * c, bc, q, r * c);
  }
}
