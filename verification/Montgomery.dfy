/** Montgomery multiplication in the scalar field, as integer reduction with radix 2^256, and the
    contract the hash reduction relies on: multiplying a plain integer by the Montgomery form of
    another gives their plain product modulo r. */
module Montgomery {
  import opened ModArith
  import opened Bn254

  /** -r^-1 modulo 2^256. */
  const NEG_INVERSE: nat := 0x73f82f1d0d8341b2e39a9828990623916586864b4c6911b3c2e1f593efffffff
  /** 2^512 modulo r: the factor that puts a plain integer into Montgomery form. */
  const MONTGOMERY_SQUARE: nat := 0x216d0b17f4e44a58c49833d53bb808553fe3ab1e35c59e31bb8e645ae216da7

  /** Montgomery reduction of `t` modulo `n` with radix `radix`: divide by the radix, modulo `n`. */
  function Redc(t: nat, n: nat, radix: nat, negInverse: nat): nat
    requires 0 < n && 0 < radix
  {
    var m := (t % radix) * negInverse % radix;
    var u := (t + m * n) / radix;
    if u >= n then u - n else u
  }

  /** The reduction divides exactly, and one conditional subtraction makes the result canonical. */
  lemma RedcCorrect(t: nat, n: nat, radix: nat, negInverse: nat)
    requires 0 < n && 0 < radix
    requires (n * negInverse + 1) % radix == 0
    requires t < n * radix
    ensures Redc(t, n, radix, negInverse) < n
    ensures (Redc(t, n, radix, negInverse) * radix) % n == t % n
  {
    var m := (t % radix) * negInverse % radix;
    RedcExact(t, n, radix, negInverse, m);
    var u := (t + m * n) / radix;
    RedcBound(t, n, radix, m, u);
    if u >= n {
      assert (u - n) * radix - t == n * (m - radix);
      ModCongruent((u - n) * radix, t, n, m - radix);
    } else {
      ModCongruent(u * radix, t, n, m);
    }
  }

  lemma RedcExact(t: nat, n: nat, radix: nat, negInverse: nat, m: nat)
    requires 0 < n && 0 < radix
    requires (n * negInverse + 1) % radix == 0
    requires m == (t % radix) * negInverse % radix
    ensures (t + m * n) / radix * radix == t + m * n
  {
    var tq, tr := t / radix, t % radix;
    var k := tr * negInverse / radix;
    var c := (n * negInverse + 1) / radix;
    RedcQuotient(t, n, radix, negInverse, tq, tr, k, m, c);
    DivModUnique(t + m * n, radix, tq + tr * c - k * n, 0);
  }

  /** What is added to `t` makes it a multiple of the radix, with this quotient. */
  lemma RedcQuotient(t: int, n: int, radix: int, negInverse: int, tq: int, tr: int, k: int, m: int, c: int)
    requires t == radix * tq + tr
    requires tr * negInverse == radix * k + m
    requires n * negInverse + 1 == radix * c
    ensures t + m * n == radix * (tq + tr * c - k * n)
  {
    calc {
      t + m * n;
      t + (tr * negInverse - radix * k) * n;
      t + tr * (n * negInverse) - radix * k * n;
      t + tr * (radix * c - 1) - radix * k * n;
      radix * tq + radix * (tr * c) - radix * (k * n);
      radix * (tq + tr * c - k * n);
    }
  }

  lemma RedcBound(t: nat, n: nat, radix: nat, m: nat, u: nat)
    requires t < n * radix && m < radix && u * radix == t + m * n
    ensures u < 2 * n
  {
    MulLe(n, m, radix);
    assert radix * (2 * n) == 2 * (n * radix);
    if u >= 2 * n {
      MulLe(radix, 2 * n, u);
      assert false;
    }
  }

  lemma NegInverseIsCorrect()
    ensures (FR_MODULUS * NEG_INVERSE + 1) % TWO_256 == 0
    ensures MONTGOMERY_SQUARE == TWO_256 * TWO_256 % FR_MODULUS
  {
  }

  /** The product of two field elements as the library computes it on raw words. */
  function FrMul(a: Limbs, b: Limbs): (p: Limbs)
    requires a.Value() < FR_MODULUS && b.Value() < FR_MODULUS
    ensures p.Value() < FR_MODULUS
    ensures (p.Value() * TWO_256) % FR_MODULUS == (a.Value() * b.Value()) % FR_MODULUS
  {
    var t := a.Value() * b.Value();
    NegInverseIsCorrect();
    ProductBound(a.Value(), b.Value(), FR_MODULUS, TWO_256);
    RedcCorrect(t, FR_MODULUS, TWO_256, NEG_INVERSE);
    LimbsOf(Redc(t, FR_MODULUS, TWO_256, NEG_INVERSE))
  }

  lemma ProductBound(x: nat, y: nat, n: nat, radix: nat)
    requires x < n && y < n <= radix
    ensures x * y < n * radix
  {
    MulLe(x, y, n);
    MulLe(n, x, n - 1);
    MulLe(n, n - 1, radix - 1);
  }

  /** A plain integer put into Montgomery form. */
  function FrNew(x: Limbs): (m: Limbs)
    requires x.Value() < FR_MODULUS
    ensures m.Value() == (x.Value() * TWO_256) % FR_MODULUS
  {
    var m := FrMul(x, LimbsOf(MONTGOMERY_SQUARE));
    NegInverseIsCorrect();
    MontgomeryForm(m.Value(), x.Value(), FR_MODULUS, TWO_256, NEG_INVERSE, MONTGOMERY_SQUARE);
    m
  }

  lemma MontgomeryForm(m: nat, x: nat, n: nat, radix: nat, negInverse: nat, square: nat)
    requires 0 < radix && m < n
    requires (n * negInverse + 1) % radix == 0
    requires square == radix * radix % n
    requires (m * radix) % n == (x * square) % n
    ensures m == (x * radix) % n
  {
    ModMul(radix * radix, x, n);
    assert (radix * radix) * x == (x * radix) * radix;
    assert square * x == x * square;
    RadixCancels(m, x * radix, n, radix, negInverse);
    DivModUnique(m, n, 0, m);
  }

  /** The contract of the multiply: plain times Montgomery form is the plain product modulo r. */
  lemma PlainTimesMontgomery(a: Limbs, b: Limbs)
    requires a.Value() < FR_MODULUS && b.Value() < FR_MODULUS
    ensures FrMul(a, FrNew(b)).Value() == (a.Value() * b.Value()) % FR_MODULUS
  {
    NegInverseIsCorrect();
    PlainProduct(FrMul(a, FrNew(b)).Value(), a.Value(), b.Value(), FR_MODULUS, TWO_256, NEG_INVERSE);
  }

  lemma PlainProduct(p: nat, a: nat, b: nat, n: nat, radix: nat, negInverse: nat)
    requires 0 < radix && p < n
    requires (n * negInverse + 1) % radix == 0
    requires (p * radix) % n == (a * ((b * radix) % n)) % n
    ensures p == (a * b) % n
  {
    ModMul(b * radix, a, n);
    assert ((b * radix) % n) * a == a * ((b * radix) % n);
    assert (b * radix) * a == (a * b) * radix;
    RadixCancels(p, a * b, n, radix, negInverse);
    DivModUnique(p, n, 0, p);
  }

  /** The sum of two canonical values, with the conditional subtraction. */
  function FrAdd(a: Limbs, b: Limbs): (s: Limbs)
    requires a.Value() < FR_MODULUS && b.Value() < FR_MODULUS
    ensures s.Value() == (a.Value() + b.Value()) % FR_MODULUS
  {
    AddModIsMod(a.Value(), b.Value(), FR_MODULUS);
    LimbsOf(AddMod(a.Value(), b.Value(), FR_MODULUS))
  }
}
