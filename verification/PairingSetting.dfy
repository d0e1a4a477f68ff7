/** The contracts of the runtime calls, over an abstract pairing.  `G1` and `GT` are commutative groups of
    which `G1` has order r, and `pair` is additive in its first argument.  Points of `G1` are encoded by
    their affine coordinates, the identity by all zeros.  Laws are stated as predicates at given arguments,
    so that a proof names the instances it uses. */
module PairingSetting {
  import opened Wrappers
  import opened ByteStrings
  import opened Bn254
  import opened NegateG1

  datatype Setting<!G1(!new), !G2(!new), !GT(!new)> = Setting(
    zero: G1,
    add: (G1, G1) -> G1,
    neg: G1 -> G1,
    one: GT,
    mul: (GT, GT) -> GT,
    inv: GT -> GT,
    pair: (G1, G2) -> GT,
    curve: (nat, nat) -> bool,
    point: (nat, nat) -> G1,
    coordinates: G1 -> (nat, nat),
    decodeG2: Bytes128 -> Option<G2>)
  {
    /** `k` times a point. */
    ghost function Smul(k: nat, p: G1): G1
      decreases k
    {
      if k == 0 then zero else add(p, Smul(k - 1, p))
    }

    ghost predicate Canonical(x: nat, y: nat) {
      x < FQ_MODULUS && y < FQ_MODULUS && curve(x, y)
    }

    /** The point that 64 octets encode, if they are all zeros or the coordinates of a curve point. */
    ghost function DecodeG1(b: Bytes64): Option<G1> {
      var x, y := OS2IP(b[..32]), OS2IP(b[32..]);
      if b == Zeros(64) then Some(zero)
      else if Canonical(x, y) then Some(point(x, y))
      else None
    }

    ghost function EncodeG1(p: G1): Bytes64 {
      if p == zero then Zeros(64) else I2OSP(coordinates(p).0, 32) + I2OSP(coordinates(p).1, 32)
    }

    /** The product of the pairings of consecutive 192-octet pairs, if all points decode. */
    ghost function PairingProduct(b: seq<byte>): Option<GT>
      requires |b| % 192 == 0
      decreases |b|
    {
      if b == [] then Some(one)
      else
        match (DecodeG1(b[..64]), DecodeG2(b[64..192]), PairingProduct(b[192..]))
        case (Some(p), Some(q), Some(rest)) => Some(mul(pair(p, q), rest))
        case _ => None
    }

    ghost function DecodeG2(b: Bytes128): Option<G2> {
      decodeG2(b)
    }

    // ----- laws -----

    ghost predicate AddGroupAt(a: G1, b: G1, c: G1) {
      && add(add(a, b), c) == add(a, add(b, c))
      && add(a, b) == add(b, a)
      && add(zero, a) == a
      && add(a, neg(a)) == zero
    }

    ghost predicate MulGroupAt(a: GT, b: GT, c: GT) {
      && mul(mul(a, b), c) == mul(a, mul(b, c))
      && mul(a, b) == mul(b, a)
      && mul(one, a) == a
      && mul(a, inv(a)) == one
    }

    ghost predicate PairAt(a: G1, b: G1, q: G2) {
      pair(add(a, b), q) == mul(pair(a, q), pair(b, q))
    }

    ghost predicate OrderAt(n: nat, p: G1) {
      n == FR_MODULUS ==> Smul(n, p) == zero
    }

    /** Every point but the identity has coordinates, in canonical form. */
    ghost predicate CoordinatesAt(p: G1) {
      p != zero ==>
        && Canonical(coordinates(p).0, coordinates(p).1)
        && point(coordinates(p).0, coordinates(p).1) == p
    }

    /** (0, 0) is not on the curve, and the curve is symmetric.  `NegateG1.CurveIsSymmetric` proves this law for
        the curve y^2 = x^3 + 3. */
    ghost predicate CurveAt(x: nat, y: nat) {
      SymmetricAt(curve, FQ_MODULUS, x, y)
    }

    /** No pair of coordinates is the identity, and negation negates y. */
    ghost predicate PointAt(x: nat, y: nat) {
      Canonical(x, y) ==>
        && point(x, y) != zero
        && point(x, (FQ_MODULUS - y) % FQ_MODULUS) == neg(point(x, y))
    }

    ghost predicate Lawful() {
      && (forall a, b, c :: AddGroupAt(a, b, c))
      && (forall a, b, c :: MulGroupAt(a, b, c))
      && (forall a, b, q :: PairAt(a, b, q))
      && (forall n, p :: OrderAt(n, p))
      && (forall p :: CoordinatesAt(p))
      && (forall x, y :: CurveAt(x, y))
      && (forall x, y :: PointAt(x, y))
    }

    // ----- scalar multiplication -----

    lemma {:induction false} SmulAdd(m: nat, n: nat, p: G1)
      requires Lawful()
      ensures Smul(m + n, p) == add(Smul(m, p), Smul(n, p))
      decreases m
    {
      if m == 0 {
        assert AddGroupAt(Smul(n, p), zero, zero);
      } else {
        SmulAdd(m - 1, n, p);
        assert AddGroupAt(p, Smul(m - 1, p), Smul(n, p));
      }
    }

    lemma {:induction false} SmulMultiple(k: nat, n: nat, p: G1)
      requires Lawful() && n == FR_MODULUS
      ensures Smul(k * n, p) == zero
      decreases k
    {
      if k == 0 {
      } else {
        SmulMultiple(k - 1, n, p);
        assert k * n == (k - 1) * n + n;
        SmulAdd((k - 1) * n, n, p);
        assert OrderAt(n, p);
        assert AddGroupAt(zero, zero, zero);
      }
    }

    /** Only the remainder of a scalar matters. */
    lemma SmulMod(k: nat, n: nat, p: G1)
      requires Lawful() && n == FR_MODULUS
      ensures Smul(k % n, p) == Smul(k, p)
    {
      assert k == (k / n) * n + k % n;
      SmulAdd((k / n) * n, k % n, p);
      SmulMultiple(k / n, n, p);
      assert AddGroupAt(Smul(k % n, p), zero, zero);
    }

    // ----- encodings -----

    lemma EncodeDecode(p: G1)
      requires Lawful()
      ensures DecodeG1(EncodeG1(p)) == Some(p)
    {
      if p != zero {
        var (x, y) := coordinates(p);
        assert CoordinatesAt(p) && CurveAt(x, y) && PointAt(x, y);
        var b := EncodeG1(p);
        assert b[..32] == I2OSP(x, 32) && b[32..] == I2OSP(y, 32);
        Pow256Values();
        I2OSPRoundTrip(x, 32);
        I2OSPRoundTrip(y, 32);
        OS2IPZeros(32);
        assert Zeros(64)[..32] == Zeros(32) && Zeros(64)[32..] == Zeros(32);
      }
    }

    /** No point has y = 0: it would have order two in a group of odd order. */
    lemma NoPointOfOrderTwo(x: nat, n: nat)
      requires Lawful() && n == FR_MODULUS
      ensures !Canonical(x, 0)
    {
      if Canonical(x, 0) {
        assert PointAt(x, 0) && AddGroupAt(point(x, 0), zero, zero);
        OddOrder(point(x, 0), n);
      }
    }

    lemma OddOrder(p: G1, n: nat)
      requires Lawful() && n == FR_MODULUS && add(p, p) == zero
      ensures p == zero
    {
      EvenMultiple((n - 1) / 2, p);
      assert n - 1 == 2 * ((n - 1) / 2);
      assert OrderAt(n, p) && AddGroupAt(p, zero, zero);
    }

    lemma {:induction false} EvenMultiple(k: nat, p: G1)
      requires Lawful() && add(p, p) == zero
      ensures Smul(2 * k, p) == zero
      decreases k
    {
      if k == 0 {
      } else {
        EvenMultiple(k - 1, p);
        assert Smul(2 * k - 1, p) == add(p, Smul(2 * (k - 1), p));
        assert AddGroupAt(p, p, Smul(2 * (k - 1), p));
        assert AddGroupAt(zero, zero, zero);
      }
    }

    // ----- the pairing -----

    lemma PairZero(q: G2)
      requires Lawful()
      ensures pair(zero, q) == one
    {
      var z := pair(zero, q);
      assert AddGroupAt(zero, zero, zero) && PairAt(zero, zero, q);
      assert MulGroupAt(z, z, inv(z));
      assert MulGroupAt(z, one, one);
    }

    lemma PairNeg(p: G1, q: G2)
      requires Lawful()
      ensures mul(pair(neg(p), q), pair(p, q)) == one
    {
      PairZero(q);
      assert AddGroupAt(p, neg(p), zero) && PairAt(p, neg(p), q);
      assert MulGroupAt(pair(p, q), pair(neg(p), q), one);
    }

    /** A product with the pairing of a negated point is one exactly when the rest is the pairing. */
    lemma MoveAcross(p: G1, q: G2, rest: GT)
      requires Lawful()
      ensures mul(pair(neg(p), q), rest) == one <==> pair(p, q) == rest
    {
      var n, x := pair(neg(p), q), pair(p, q);
      PairNeg(p, q);
      assert MulGroupAt(x, n, rest) && MulGroupAt(n, x, one) && MulGroupAt(rest, one, one) && MulGroupAt(x, one, one);
    }
  }
}
