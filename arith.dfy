/** Facts about Euclidean remainder used by the ring-order and schedule proofs. */
module Arith {

  /** For x within one modulus of 0, `x % m` is x or x + m. */
  lemma ModRange(x: int, m: int)
    requires m > 0 && -m <= x < m
    ensures x % m == if x >= 0 then x else x + m
  {
  }

  /** For x below twice the modulus, `x % m` is x or x - m. */
  lemma ModWrap(x: int, m: int)
    requires m > 0 && 0 <= x < 2 * m
    ensures x % m == if x < m then x else x - m
  {
    if x >= m {
      ModRange(x - m, m);
    }
  }

  lemma MulAtLeast(d: int, z: int)
    requires d > 0 && z >= 1
    ensures d * z >= d
  {
  }

  lemma MulAtMost(d: int, z: int)
    requires d > 0 && z <= -1
    ensures d * z <= -d
  {
  }

  /** Euclidean division is determined by quotient and remainder. */
  lemma DivUnique(a: int, d: int, q: int, r: int)
    requires d > 0 && a == d * q + r && 0 <= r < d
    ensures a / d == q && a % d == r
  {
    var q', r' := a / d, a % d;
    assert a == d * q' + r';
    var z := q' - q;
    assert d * z == r - r' by {
      assert d * q' - d * q == d * (q' - q);
    }
    if z >= 1 {
      MulAtLeast(d, z);
    }
    if z <= -1 {
      MulAtMost(d, z);
    }
  }

  /** Counting up by one adds a quotient step exactly at each multiple. */
  lemma DivStep(n: int, d: int)
    requires n > 0 && d > 0
    ensures n / d == (n - 1) / d + (if n % d == 0 then 1 else 0)
  {
    var q, r := (n - 1) / d, (n - 1) % d;
    assert n == d * q + r + 1;
    if r + 1 == d {
      assert n == d * (q + 1) + 0 by {
        assert d * (q + 1) == d * q + d;
      }
      DivUnique(n, d, q + 1, 0);
    } else {
      DivUnique(n, d, q, r + 1);
    }
  }

  /** With p = n / 3 and n >= 3, p divides into n three to five times. */
  lemma ThirdsFit(n: int)
    requires n >= 3
    ensures n / 3 > 0 && 3 <= n / (n / 3) <= 5
  {
    var p, r := n / 3, n % 3;
    assert n == 3 * p + r;
    if r < p {
      assert n == p * 3 + r;
      DivUnique(n, p, 3, r);
    } else if p == 1 {
      DivUnique(n, p, n, 0);
    } else {
      assert p == 2 && r == 2 && n == 8;
      DivUnique(n, p, 4, 0);
    }
  }

  /** Division by a positive number is monotone. */
  lemma DivMonotone(a: int, b: int, d: int)
    requires d > 0 && a <= b
    ensures a / d <= b / d
  {
    var z := a / d - b / d;
    if z >= 1 {
      MulAtLeast(d, z);
    }
  }

  /** Multiplying by 1 keeps a value; multiplying by 0 gives 0. */
  lemma MulUnit(x: real)
    ensures x * 1.0 == x && x * 0.0 == 0.0
  {
  }

  /** Multiplying by a non-negative factor keeps an inequality. */
  lemma MulMonotone(g: real, x: real, y: real)
    requires g >= 0.0 && x <= y
    ensures g * x <= g * y
  {
  }
}
