/** Negation of an encoded curve point by a borrow chain over four words. */
module NegateG1 {
  import opened ModArith
  import opened ByteStrings
  import opened Buffers
  import opened Bn254

  /** The negated encoding: X is kept and Y becomes q - Y modulo 2^256; all zeros stay all zeros. */
  function NegateSpec(g1: Bytes64): Bytes64 {
    if g1 == Zeros(64) then g1
    else g1[..32] + I2OSP((FQ_MODULUS - OS2IP(g1[32..])) % TWO_256, 32)
  }

  // The base field modulus, most significant word first.
  const FQ: seq<u64> := [0x30644e72e131a029, 0xb85045b68181585d, 0x97816a916871ca8d, 0x3c208c16d87cfd47]

  /** The difference of two words modulo 2^64, and whether it is negative. */
  function OverflowingSub(x: u64, y: u64): (r: (u64, bool)) {
    if x >= y then (x - y, false) else (x - y + 0x1_0000_0000_0000_0000, true)
  }

  /** The value of the last `4 - i` words, most significant first. */
  function WordsFrom(w: seq<u64>, i: nat): nat
    requires |w| == 4 && i <= 4
    decreases 4 - i
  {
    if i == 4 then 0 else w[i] * Pow256(8 * (3 - i)) + WordsFrom(w, i + 1)
  }

  /** `borrow` is what the chain carries out of the most significant word. */
  method NegateG1Be(g1: Bytes64) returns (result: Bytes64, ghost borrow: nat)
    ensures result == NegateSpec(g1)
    ensures borrow <= 1
    ensures g1 != Zeros(64) ==> (borrow == 1 <==> OS2IP(g1[32..]) > FQ_MODULUS)
  {
    hide OS2IP, I2OSP, WordsFrom, Pow256;
    borrow := 0;
    if g1 == Zeros(64) {
      return g1, borrow;
    }
    var y := ReadWords(g1);
    var negY;
    negY, borrow := SubtractFromModulus(y);
    result := WriteWords(g1, negY);
  }

  /** The borrow chain, from the least significant word up. */
  method SubtractFromModulus(y: seq<u64>) returns (difference: seq<u64>, ghost finalBorrow: nat)
    requires |y| == 4
    ensures |difference| == 4 && finalBorrow <= 1
    ensures WordsFrom(difference, 0) == (FQ_MODULUS - WordsFrom(y, 0)) % TWO_256
    ensures finalBorrow == 1 <==> WordsFrom(y, 0) > FQ_MODULUS
  {
    hide WordsFrom, Pow256;
    var negY := new u64[4](_ => 0);
    var borrow: u64 := 0;
    ChainStart(negY[..], y);
    for i := 4 downto 0
      invariant borrow <= 1
      invariant Chain(negY[..], y, i, borrow)
    {
      var (diff, b1) := OverflowingSub(FQ[i], y[i]);
      var (diff', b2) := OverflowingSub(diff, borrow);
      ghost var before, borrowIn := negY[..], borrow;
      negY[i] := diff';
      borrow := (if b1 then 1 else 0) + (if b2 then 1 else 0);
      ChainStep(before, negY[..], y, i, borrowIn, borrow);
    }
    ChainEnd(negY[..], y, borrow);
    return negY[..], borrow;
  }

  /** The words below `i` hold the difference, except for what is still owed to the next word. */
  ghost predicate Chain(negY: seq<u64>, y: seq<u64>, i: nat, carry: nat)
    requires |negY| == |y| == 4 && i <= 4
  {
    WordsFrom(negY, i) == WordsFrom(FQ, i) - WordsFrom(y, i) + carry * Pow256(8 * (4 - i))
  }

  lemma ChainStart(negY: seq<u64>, y: seq<u64>)
    requires |negY| == |y| == 4
    ensures Chain(negY, y, 4, 0)
  {
  }

  /** One word of the chain loses nothing: what is borrowed here is owed to the next word. */
  lemma ChainStep(before: seq<u64>, after: seq<u64>, y: seq<u64>, i: nat, carryIn: nat, carryOut: nat)
    requires |before| == |after| == |y| == 4 && i < 4
    requires Chain(before, y, i + 1, carryIn)
    requires forall k :: i < k < 4 ==> after[k] == before[k]
    requires after[i] == FQ[i] - y[i] - carryIn + carryOut * 0x1_0000_0000_0000_0000
    ensures Chain(after, y, i, carryOut)
  {
    hide Pow256;
    WordsFromIgnoresFront(before, after, i + 1);
    var p := Pow256(8 * (3 - i));
    assert Pow256(8 * (4 - i)) == 0x1_0000_0000_0000_0000 * p by {
      Pow256Add(8, 8 * (3 - i));
      Pow256Values();
    }
    Spread(FQ[i], y[i], carryIn, carryOut, p);
  }

  lemma Spread(f: int, y: int, c: int, d: int, p: int)
    ensures (f - y - c + d * 0x1_0000_0000_0000_0000) * p
      == f * p - y * p - c * p + d * (0x1_0000_0000_0000_0000 * p)
  {
  }

  /** The whole chain: the difference modulo 2^256, and a final borrow exactly when it is negative. */
  lemma ChainEnd(negY: seq<u64>, y: seq<u64>, carry: nat)
    requires |negY| == |y| == 4 && carry <= 1
    ensures Chain(negY, y, 0, carry) ==>
      && WordsFrom(negY, 0) == (FQ_MODULUS - WordsFrom(y, 0)) % TWO_256
      && (carry == 1 <==> WordsFrom(y, 0) > FQ_MODULUS)
  {
    hide WordsFrom, Pow256, Chain;
    if Chain(negY, y, 0, carry) {
      ChainValue(negY, y, carry);
      WordsBound(y);
      WordsBound(negY);
      NegatedValue(WordsFrom(negY, 0), WordsFrom(y, 0), carry);
    }
  }

  lemma ChainValue(negY: seq<u64>, y: seq<u64>, carry: nat)
    requires |negY| == |y| == 4
    ensures Chain(negY, y, 0, carry) ==> WordsFrom(negY, 0) == FQ_MODULUS - WordsFrom(y, 0) + carry * TWO_256
  {
    hide WordsFrom, Pow256;
    FqWords();
    Pow256Values();
  }

  lemma {:induction false} WordsFromIgnoresFront(a: seq<u64>, b: seq<u64>, i: nat)
    requires |a| == |b| == 4 && i <= 4
    requires forall k :: i <= k < 4 ==> a[k] == b[k]
    ensures WordsFrom(a, i) == WordsFrom(b, i)
    decreases 4 - i
  {
    if i < 4 {
      WordsFromIgnoresFront(a, b, i + 1);
    }
  }

  lemma WordsValue(w: seq<u64>)
    requires |w| == 4
    ensures WordsFrom(w, 0) == Limbs(w[3], w[2], w[1], w[0]).Value()
  {
    Pow256Values();
    assert WordsFrom(w, 4) == 0;
    assert WordsFrom(w, 3) == w[3];
  }

  lemma WordsBound(w: seq<u64>)
    requires |w| == 4
    ensures WordsFrom(w, 0) < TWO_256
  {
    WordsValue(w);
  }

  lemma FqWords()
    ensures WordsFrom(FQ, 0) == FQ_MODULUS
  {
    WordsValue(FQ);
  }

  lemma NegatedValue(n: nat, y: nat, carry: nat)
    requires y < TWO_256 && n < TWO_256 && carry <= 1
    requires n == FQ_MODULUS - y + carry * TWO_256
    ensures n == (FQ_MODULUS - y) % TWO_256
    ensures carry == 1 <==> y > FQ_MODULUS
  {
  }

  method ReadWords(g1: Bytes64) returns (y: seq<u64>)
    ensures |y| == 4
    ensures WordsFrom(y, 0) == OS2IP(g1[32..])
  {
    y := [FromBeBytes(g1[32..40]), FromBeBytes(g1[40..48]), FromBeBytes(g1[48..56]), FromBeBytes(g1[56..64])];
    FourWords(g1[32..40], g1[40..48], g1[48..56], g1[56..64]);
    assert g1[32..] == g1[32..40] + g1[40..48] + g1[48..56] + g1[56..64];
    WordsValue(y);
  }

  method WriteWords(g1: Bytes64, w: seq<u64>) returns (result: Bytes64)
    requires |w| == 4
    ensures result == g1[..32] + I2OSP(WordsFrom(w, 0), 32)
  {
    hide I2OSP, WordsFrom;
    var out := new byte[64](_ => 0);
    CopyFromSlice(out, 0, g1[..32]);
    CopyFromSlice(out, 32, I2OSP(w[0], 8));
    CopyFromSlice(out, 40, I2OSP(w[1], 8));
    CopyFromSlice(out, 48, I2OSP(w[2], 8));
    CopyFromSlice(out, 56, I2OSP(w[3], 8));
    result := out[..64];
    WordsBigEndian(Limbs(w[3], w[2], w[1], w[0]));
    WordsValue(w);
    assert result == g1[..32] + (I2OSP(w[0], 8) + I2OSP(w[1], 8) + I2OSP(w[2], 8) + I2OSP(w[3], 8));
  }

  // ----- what negation means -----

  /** The curve equation y^2 = x^3 + 3 modulo `n`. */
  predicate OnCurveMod(x: nat, y: nat, n: nat)
    requires 0 < n
  {
    y * y % n == (x * x * x + 3) % n
  }

  predicate OnCurve(x: nat, y: nat) {
    OnCurveMod(x, y, FQ_MODULUS)
  }

  /** The negated coordinate is a coordinate of the same curve. */
  lemma NegationStaysOnCurve(x: nat, y: nat, n: nat)
    requires 0 < n && y <= n && OnCurveMod(x, y, n)
    ensures OnCurveMod(x, n - y, n)
    ensures OnCurveMod(x, (n - y) % n, n)
  {
    SquareOfNegative(y, n);
  }

  /** The pairs below `n` on a curve do not include (0, 0), and are closed under negating the second. */
  ghost predicate SymmetricAt(curve: (nat, nat) -> bool, n: nat, x: nat, y: nat)
    requires 0 < n
  {
    x < n && y < n && curve(x, y) ==> (x, y) != (0, 0) && curve(x, (n - y) % n)
  }

  /** The curve y^2 = x^3 + 3 has that property, whatever the modulus. */
  lemma CurveIsSymmetric(n: nat, x: nat, y: nat)
    requires n > 3
    ensures SymmetricAt((u: nat, v: nat) => OnCurveMod(u, v, n), n, x, y)
  {
    OriginOffCurve(n);
    if y < n && OnCurveMod(x, y, n) {
      NegationStaysOnCurve(x, y, n);
    }
  }

  lemma OriginOffCurve(n: nat)
    requires n > 3
    ensures !OnCurveMod(0, 0, n)
  {
    DivModUnique(0, n, 0, 0);
    DivModUnique(3, n, 0, 3);
  }

  lemma SquareOfNegative(y: int, n: int)
    requires 0 < n
    ensures (n - y) * (n - y) % n == y * y % n
    ensures ((n - y) % n) * ((n - y) % n) % n == y * y % n
  {
    assert (n - y) * (n - y) - y * y == n * (n - 2 * y);
    ModCongruent((n - y) * (n - y), y * y, n, n - 2 * y);
    var z := (n - y) % n;
    ModMul(n - y, z, n);
    ModMul(n - y, n - y, n);
    assert z * (n - y) == (n - y) * z;
  }

  /** A negation that wraps around at the radix has the same square only at the roots of this condition. */
  lemma SquareOfWrapped(y: int, n: nat, radix: nat, negInverse: nat)
    requires 0 < n && 0 < radix && (n * negInverse + 1) % radix == 0
    ensures (n - y + radix) * (n - y + radix) % n == y * y % n <==> (radix - 2 * y) % n == 0
  {
    var z, d := n - y + radix, radix - 2 * y;
    WrappedSquareDifference(y, n, radix);
    DifferenceVanishes(z * z, y * y, d * radix, n, n + radix + d);
    RadixIsUnit(d, n, radix, negInverse);
  }

  lemma DifferenceVanishes(x: int, y: int, d: int, n: int, k: int)
    requires 0 < n && x - y - d == n * k
    ensures x % n == y % n <==> d % n == 0
  {
    ModDifference(x, y, n);
    ModCongruent(x - y, d, n, k);
  }

  lemma RadixIsUnit(d: int, n: nat, radix: nat, negInverse: nat)
    requires 0 < n && 0 < radix && (n * negInverse + 1) % radix == 0
    ensures (d * radix) % n == 0 <==> d % n == 0
  {
    DivModUnique(0, n, 0, 0);
    if d % n == 0 {
      ModMul(d, radix, n);
    } else if (d * radix) % n == 0 {
      RadixCancels(d, 0, n, radix, negInverse);
    }
  }

  lemma WrappedSquareDifference(y: int, n: int, radix: int)
    ensures (n - y + radix) * (n - y + radix) - y * y - (radix - 2 * y) * radix == n * (n + radix + (radix - 2 * y))
  {
    var d := radix - 2 * y;
    assert n - y + radix == n + d + y;
    assert (n + d + y) * (n + d + y) - y * y == (n + d) * (n + d + 2 * y);
    assert n + d + 2 * y == n + radix;
    assert (n + d) * (n + radix) == n * (n + radix + d) + d * radix;
  }

  /** -q^-1 modulo 2^256. */
  const NEG_INVERSE: nat := 0xf57a22b791888c6bd8afcbd01833da809ede7d651eca6ac987d20782e4866389

  lemma NegInverseIsCorrect()
    ensures (FQ_MODULUS * NEG_INVERSE + 1) % TWO_256 == 0
  {
  }

  function X(g1: Bytes64): nat {
    OS2IP(g1[..32])
  }

  function Y(g1: Bytes64): nat {
    OS2IP(g1[32..])
  }

  /** The coordinates of the negated encoding, for every 64 octets. */
  lemma NegatedCoordinates(g1: Bytes64)
    ensures NegateSpec(g1)[..32] == g1[..32]
    ensures g1 != Zeros(64) ==> Y(NegateSpec(g1)) == (FQ_MODULUS - Y(g1)) % TWO_256
    ensures g1 == Zeros(64) ==> Y(NegateSpec(g1)) == Y(g1) == 0
    ensures Y(g1) < TWO_256
  {
    hide OS2IP, I2OSP, Pow256;
    Halves(g1);
    if g1 == Zeros(64) {
      OS2IPZeros(32);
      assert g1[32..] == Zeros(32);
    } else {
      NegatedParts(g1);
      EncodingOfValue((FQ_MODULUS - Y(g1)) % TWO_256);
    }
  }

  /** The documented map (x, y) to (x, q - y) is met, as coordinates modulo q, for Y up to q and no other. */
  lemma NegatesExactlyUpToModulus(g1: Bytes64)
    ensures X(NegateSpec(g1)) == X(g1)
    ensures Y(NegateSpec(g1)) % FQ_MODULUS == (FQ_MODULUS - Y(g1)) % FQ_MODULUS <==> Y(g1) <= FQ_MODULUS
  {
    hide OS2IP, NegateSpec, Pow256;
    NegatedCoordinates(g1);
    MapOfValues(Y(g1));
  }

  lemma MapOfValues(y: nat)
    requires y < TWO_256
    ensures ((FQ_MODULUS - y) % TWO_256) % FQ_MODULUS == (FQ_MODULUS - y) % FQ_MODULUS <==> y <= FQ_MODULUS
    ensures y == 0 ==> 0 % FQ_MODULUS == (FQ_MODULUS - y) % FQ_MODULUS
  {
  }

  lemma SameSquareOnCurve(x: nat, y: nat, z: nat, n: nat)
    requires 0 < n && OnCurveMod(x, y, n)
    ensures OnCurveMod(x, z, n) <==> z * z % n == y * y % n
  {
  }

  lemma NegatedValueOnCurve(x: nat, y: nat, n: nat, radix: nat, negInverse: nat)
    requires 0 < n < radix && y < radix && (n * negInverse + 1) % radix == 0 && OnCurveMod(x, y, n)
    ensures OnCurveMod(x, (n - y) % radix, n) <==> y <= n || (radix - 2 * y) % n == 0
  {
    hide OnCurveMod;
    if y <= n {
      DivModUnique(n - y, radix, 0, n - y);
      NegationStaysOnCurve(x, y, n);
    } else {
      DivModUnique(n - y, radix, -1, n - y + radix);
      SameSquareOnCurve(x, y, n - y + radix, n);
      SquareOfWrapped(y, n, radix, negInverse);
    }
  }

  /** The negated encoding of a pair on the curve is on the curve if and only if Y is at most q, or Y is one
      of the few larger values at which wrapping around happens to preserve the square. */
  lemma NegatesOnCurveExactly(g1: Bytes64)
    ensures OnCurve(X(g1), Y(g1)) ==>
      (OnCurve(X(NegateSpec(g1)), Y(NegateSpec(g1)))
       <==> Y(g1) <= FQ_MODULUS || (TWO_256 - 2 * Y(g1)) % FQ_MODULUS == 0)
  {
    hide X, Y, NegateSpec, OnCurveMod;
    NegatedCoordinates(g1);
    assert X(NegateSpec(g1)) == X(g1) by { NegatesExactlyUpToModulus(g1); }
    if OnCurve(X(g1), Y(g1)) && g1 != Zeros(64) {
      NegInverseIsCorrect();
      NegatedValueOnCurve(X(g1), Y(g1), FQ_MODULUS, TWO_256, NEG_INVERSE);
    }
  }

  lemma EncodedPair(x: nat, y: nat)
    requires x < TWO_256 && 0 < y < TWO_256
    ensures var g1 := I2OSP(x, 32) + I2OSP(y, 32); X(g1) == x && Y(g1) == y && g1 != Zeros(64)
  {
    hide OS2IP, I2OSP, Pow256;
    var g1 := I2OSP(x, 32) + I2OSP(y, 32);
    EncodingOfValue(x);
    EncodingOfValue(y);
    assert g1[..32] == I2OSP(x, 32) && g1[32..] == I2OSP(y, 32);
    assert Zeros(64)[32..] == Zeros(32);
  }

  /** A failing input: (1, q + 2) satisfies the curve equation, is not negated to its negative, and leaves
      the curve. */
  lemma NegationFailsAboveModulus()
    ensures var g1 := I2OSP(1, 32) + I2OSP(FQ_MODULUS + 2, 32);
      && OnCurve(X(g1), Y(g1))
      && Y(NegateSpec(g1)) == TWO_256 - 2
      && Y(NegateSpec(g1)) % FQ_MODULUS != (FQ_MODULUS - Y(g1)) % FQ_MODULUS
      && !OnCurve(X(NegateSpec(g1)), Y(NegateSpec(g1)))
  {
    hide I2OSP, NegateSpec, X, Y;
    var g1 := I2OSP(1, 32) + I2OSP(FQ_MODULUS + 2, 32);
    EncodedPair(1, FQ_MODULUS + 2);
    NegatedCoordinates(g1);
    NegatesExactlyUpToModulus(g1);
    NegatesOnCurveExactly(g1);
  }

  /** The one encoding that two negations do not restore. */
  function ZeroQ(): Bytes64 {
    Zeros(32) + I2OSP(FQ_MODULUS, 32)
  }

  /** (0, q) is mapped to the encoding of the identity, which it is not one of. */
  lemma ZeroQBecomesIdentity()
    ensures ZeroQ() != Zeros(64) && NegateSpec(ZeroQ()) == Zeros(64)
    ensures X(ZeroQ()) == 0 && Y(ZeroQ()) == FQ_MODULUS
  {
    hide OS2IP, I2OSP, Pow256;
    ZeroQIsNotZero();
    NegatedParts(ZeroQ());
    assert ZeroQ()[..32] == Zeros(32) && ZeroQ()[32..] == I2OSP(FQ_MODULUS, 32);
    EncodingOfValue(FQ_MODULUS);
    EncodingOfValue(0);
    OS2IPZeros(32);
    assert NegateSpec(ZeroQ()) == Zeros(32) + Zeros(32);
  }

  /** Negating twice gives the input back for every 64 octets, decodable or not, except (0, q). */
  lemma NegateTwice(g1: Bytes64)
    ensures NegateSpec(NegateSpec(g1)) == g1 <==> g1 != ZeroQ()
  {
    hide OS2IP, I2OSP, Pow256;
    ZeroQIsNotZero();
    if g1 != Zeros(64) {
      var y := OS2IP(g1[32..]);
      var n := (FQ_MODULUS - y) % TWO_256;
      var once := NegateSpec(g1);
      NegatedParts(g1);
      Halves(g1);
      Halves(once);
      NegateValues(y, n);
      EncodingOfValue(n);
      if once == Zeros(64) {
        assert once[32..] == Zeros(32) && once[..32] == Zeros(32);
        assert y == FQ_MODULUS;
      } else {
        NegatedParts(once);
        assert NegateSpec(once) == g1;
        if g1 == ZeroQ() {
          assert g1[..32] == Zeros(32) && g1[32..] == I2OSP(FQ_MODULUS, 32);
          EncodingOfValue(FQ_MODULUS);
        }
      }
    }
  }

  lemma NegatedParts(g1: Bytes64)
    requires g1 != Zeros(64)
    ensures NegateSpec(g1)[..32] == g1[..32]
    ensures NegateSpec(g1)[32..] == I2OSP((FQ_MODULUS - OS2IP(g1[32..])) % TWO_256, 32)
  {
  }

  lemma Halves(g1: Bytes64)
    ensures g1 == g1[..32] + g1[32..]
    ensures I2OSP(OS2IP(g1[32..]), 32) == g1[32..]
    ensures OS2IP(g1[32..]) < TWO_256
  {
    OS2IPBound(g1[32..]);
    Pow256Values();
    I2OSPOfOS2IP(g1[32..]);
  }

  lemma EncodingOfValue(n: nat)
    requires n < TWO_256
    ensures OS2IP(I2OSP(n, 32)) == n
    ensures I2OSP(n, 32) == Zeros(32) <==> n == 0
  {
    Pow256Values();
    I2OSPRoundTrip(n, 32);
    OS2IPZeros(32);
    if n == 0 {
      OS2IPInjective(I2OSP(n, 32), Zeros(32));
    }
  }

  lemma NegateValues(y: nat, n: nat)
    requires y < TWO_256 && n == (FQ_MODULUS - y) % TWO_256
    ensures (FQ_MODULUS - n) % TWO_256 == y
    ensures n == 0 <==> y == FQ_MODULUS
  {
  }

  lemma ZeroQIsNotZero()
    ensures ZeroQ() != Zeros(64)
  {
    Pow256Values();
    I2OSPRoundTrip(FQ_MODULUS, 32);
    OS2IPZeros(32);
    assert ZeroQ()[32..] == I2OSP(FQ_MODULUS, 32);
    assert Zeros(64)[32..] == Zeros(32);
  }
}
