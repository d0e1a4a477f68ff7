/** Facts about Euclidean division that the solver does not find by itself.  Moduli are parameters, so
    that no proof has to multiply 254-bit literals. */
module ModArith {

  lemma MulLe(d: int, x: int, y: int)
    requires 0 <= d && x <= y
    ensures d * x <= d * y
  {
  }

  /** The quotient and the remainder are determined by their defining equation. */
  lemma DivModUnique(x: int, d: int, k: int, z: int)
    requires 0 <= z < d
    requires x == d * k + z
    ensures x / d == k
    ensures x % d == z
  {
    var k', z' := x / d, x % d;
    assert d * (k' - k) == z - z';
    if k' > k {
      MulLe(d, 1, k' - k);
      assert false;
    } else if k' < k {
      MulLe(d, k' - k, -1);
      assert false;
    }
  }

  lemma ModOfMultiple(x: int, d: int, k: int)
    requires 0 < d
    ensures (x + d * k) % d == x % d
  {
    DivModUnique(x + d * k, d, x / d + k, x % d);
  }

  /** Two numbers that differ by a multiple of `d` leave the same remainder. */
  lemma ModCongruent(x: int, y: int, d: int, k: int)
    requires 0 < d
    requires x - y == d * k
    ensures x % d == y % d
  {
    ModOfMultiple(y, d, k);
  }

  lemma ModMul(x: int, y: int, d: int)
    requires 0 < d
    ensures ((x % d) * y) % d == (x * y) % d
  {
    var k := x / d;
    assert x * y == (d * k + x % d) * y;
    assert x * y == d * (k * y) + (x % d) * y;
    ModCongruent(x * y, (x % d) * y, d, k * y);
  }

  lemma ModAdd(x: int, y: int, d: int)
    requires 0 < d
    ensures (x % d + y) % d == (x + y) % d
  {
    ModCongruent(x + y, x % d + y, d, x / d);
  }

  /** The last digit of a remainder, and the remainder of the other digits. */
  lemma ModShift(n: int, b: int, p: int)
    requires 0 < b && 0 < p
    ensures n % (b * p) == b * ((n / b) % p) + n % b
  {
    var a := n / b;
    var k, z := a / p, a % p;
    assert b * a == b * (p * k) + b * z;
    assert b * (p * k) == (b * p) * k;
    MulLe(b, z, p - 1);
    DivModUnique(n, b * p, k, b * z + n % b);
  }

  /** A larger leading digit outweighs everything behind it. */
  lemma LeadingDigit(x: int, y: int, p: int, u: int, v: int)
    requires 0 <= u < p && 0 <= v < p && x < y
    ensures x * p + u < y * p + v
  {
    MulLe(p, x + 1, y);
  }

  /** A sum of two remainders, by one conditional subtraction. */
  function AddMod(a: nat, b: nat, n: nat): (c: nat)
    requires a < n && b < n
    ensures c < n
  {
    if a + b >= n then a + b - n else a + b
  }

  lemma AddModIsMod(a: nat, b: nat, n: nat)
    requires a < n && b < n
    ensures AddMod(a, b, n) == (a + b) % n
  {
    DivModUnique(a + b, n, if a + b >= n then 1 else 0, AddMod(a, b, n));
  }

  /** The radix has an inverse modulo `n`, so it cancels from a congruence. */
  lemma RadixCancels(x: int, y: int, n: nat, radix: nat, negInverse: nat)
    requires 0 < n && 0 < radix
    requires (n * negInverse + 1) % radix == 0
    requires (x * radix) % n == (y * radix) % n
    ensures x % n == y % n
  {
    var c := (n * negInverse + 1) / radix;
    var d := x - y;
    var j := x * radix / n - y * radix / n;
    assert d * radix == n * j;
    assert d * (radix * c) == n * j * c by {
      assert d * (radix * c) == (d * radix) * c;
    }
    assert d * (n * negInverse + 1) == n * (d * negInverse) + d;
    assert d == n * (j * c - d * negInverse);
    ModCongruent(x, y, n, j * c - d * negInverse);
  }

  lemma ModDifference(x: int, y: int, n: int)
    requires 0 < n
    ensures x % n == y % n <==> (x - y) % n == 0
  {
    if (x - y) % n == 0 {
      ModCongruent(x, y, n, (x - y) / n);
    } else if x % n == y % n {
      assert x - y == n * (x / n - y / n) + 0;
      DivModUnique(x - y, n, x / n - y / n, 0);
    }
  }
}
