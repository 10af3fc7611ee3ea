/** Small facts about products that the image proofs rest on. */
module Arithmetic {
  lemma MulNonNegative(x: int, y: int)
    requires x >= 0 && y >= 0
    ensures x * y >= 0
  {
  }

  lemma MulMonotone(x: int, y: int, z: int)
    requires x <= y && z >= 0
    ensures x * z <= y * z
  {
    MulNonNegative(y - x, z);
    MulSubtract(y, x, z);
  }

  lemma MulStrict(x: int, y: int, z: int)
    requires x < y && z > 0
    ensures x * z < y * z
  {
    MulMonotone(x + 1, y, z);
    MulSubtract(x + 1, x, z);
  }

  lemma MulSubtract(x: int, y: int, z: int)
    ensures (x - y) * z == x * z - y * z
  {
  }

  lemma MulAdd(k: int, x: int, y: int)
    ensures k * (x + y) == k * x + k * y
  {
  }

  lemma MulDifferences(x: int, y: int, u: int, v: int)
    ensures (x - y) * (u - v) == x * u - x * v - y * u + y * v
  {
    MulSubtract(x, y, u - v);
    MulSubtract(u, v, x);
    MulSubtract(u, v, y);
  }

  lemma QuotientBound(x: nat, d: nat)
    requires d > 0
    ensures 0 <= x / d <= x
  {
    var q := x / d;
    assert x == q * d + x % d;
    if q < 0 {
      MulMonotone(q, -1, d);
    } else {
      MulMonotone(1, d, q);
    }
  }

  lemma ModuloOfMultiple(r: nat, k: int, m: nat)
    requires r < m
    ensures (r + m * k) % m == r
  {
    var q := (r + m * k) / m;
    assert (r + m * k) % m == r + m * k - m * q;
    MulSubtract(k, q, m);
    if q < k {
      MulMonotone(1, k - q, m);
    } else if q > k {
      MulMonotone(k - q, -1, m);
    }
  }

  lemma ModuloShift(x: int, k: int, m: nat)
    requires m > 0
    ensures (x + m * k) % m == x % m
  {
    var q := x / m;
    MulAdd(m, q, k);
    assert x + m * k == x % m + m * (q + k);
    ModuloOfMultiple(x % m, q + k, m);
  }
}
