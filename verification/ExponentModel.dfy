/** The laws assumed of the pairing are consistent: the integers modulo r satisfy them, with a point
    standing for its discrete logarithm and the pairing for a product of logarithms. */
module ExponentModel {
  import opened Wrappers
  import opened ModArith
  import opened ByteStrings
  import opened Bn254
  import opened PairingSetting

  type Zr = k: nat | k < FR_MODULUS

  const HALF: nat := (FR_MODULUS - 1) / 2

  function Add(a: Zr, b: Zr): Zr {
    AddMod(a, b, FR_MODULUS)
  }

  function Neg(a: Zr): Zr {
    if a == 0 then 0 else FR_MODULUS - a
  }

  function Mul(a: Zr, b: Zr): Zr {
    a * b % FR_MODULUS
  }

  /** A stand-in for the curve with one point for each nonzero residue and its negation. */
  predicate Curve(x: nat, y: nat) {
    1 <= x <= HALF && (y == 1 || y == FQ_MODULUS - 1)
  }

  function Point(x: nat, y: nat): Zr {
    if !Curve(x, y) then 0 else if y == 1 then x else FR_MODULUS - x
  }

  function Coordinates(k: Zr): (nat, nat) {
    if k <= HALF then (k, 1) else (FR_MODULUS - k, FQ_MODULUS - 1)
  }

  function DecodeG2(b: Bytes128): Option<Zr> {
    Some(OS2IP(b) % FR_MODULUS)
  }

  function Model(): Setting<Zr, Zr, Zr> {
    Setting(0, Add, Neg, 0, Add, Neg, Mul, Curve, Point, Coordinates, DecodeG2)
  }

  lemma ModelIsLawful()
    ensures Model().Lawful()
  {
    hide Model, Setting.AddGroupAt, Setting.MulGroupAt, Setting.PairAt;
    hide Setting.OrderAt, Setting.CoordinatesAt, Setting.CurveAt, Setting.PointAt;
    forall a: Zr, b: Zr, c: Zr
      ensures Model().AddGroupAt(a, b, c) && Model().MulGroupAt(a, b, c)
    {
      GroupLaws(a, b, c);
    }
    forall a: Zr, b: Zr, q: Zr
      ensures Model().PairAt(a, b, q)
    {
      PairLaw(a, b, q);
    }
    forall n: nat, p: Zr
      ensures Model().OrderAt(n, p)
    {
      OrderLaw(n, p);
    }
    forall p: Zr
      ensures Model().CoordinatesAt(p)
    {
      CoordinateLaw(p);
    }
    forall x: nat, y: nat
      ensures Model().CurveAt(x, y) && Model().PointAt(x, y)
    {
      PointLaw(x, y);
    }
  }

  lemma GroupLaws(a: Zr, b: Zr, c: Zr)
    ensures Model().AddGroupAt(a, b, c) && Model().MulGroupAt(a, b, c)
  {
  }

  lemma PairLaw(a: Zr, b: Zr, q: Zr)
    ensures Model().PairAt(a, b, q)
  {
    Distributes(a, b, q, FR_MODULUS);
  }

  lemma OrderLaw(n: nat, p: Zr)
    ensures Model().OrderAt(n, p)
  {
    if n == FR_MODULUS {
      SmulIsProduct(n, p);
      assert n * p == 0 + FR_MODULUS * p;
      ModOfMultiple(0, FR_MODULUS, p);
    }
  }

  lemma CoordinateLaw(p: Zr)
    ensures Model().CoordinatesAt(p)
  {
  }

  lemma PointLaw(x: nat, y: nat)
    ensures Model().CurveAt(x, y) && Model().PointAt(x, y)
  {
  }

  lemma Distributes(a: nat, b: nat, q: nat, n: nat)
    requires a < n && b < n
    ensures AddMod(a, b, n) * q % n == AddMod(a * q % n, b * q % n, n)
  {
    AddModIsMod(a, b, n);
    ModMul(a + b, q, n);
    assert (a + b) * q == a * q + b * q;
    ModAdd(a * q, b * q, n);
    ModAdd(b * q, a * q % n, n);
    AddModIsMod(a * q % n, b * q % n, n);
  }

  lemma {:induction false} SmulIsProduct(k: nat, p: Zr)
    ensures Model().Smul(k, p) == k * p % FR_MODULUS
    decreases k
  {
    if k == 0 {
    } else {
      SmulIsProduct(k - 1, p);
      NextMultiple(k, p, FR_MODULUS);
    }
  }

  lemma NextMultiple(k: nat, p: nat, n: nat)
    requires 1 <= k && p < n
    ensures AddMod(p, (k - 1) * p % n, n) == k * p % n
  {
    AddModIsMod(p, (k - 1) * p % n, n);
    assert k * p == (k - 1) * p + p;
    ModAdd((k - 1) * p, p, n);
  }
}
