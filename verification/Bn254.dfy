/** The two moduli of the BN254 curve and the powers of two the limb arithmetic works in. */
module Bn254 {
  import opened ByteStrings

  const FR_MODULUS: nat := 0x30644e72e131a029b85045b68181585d2833e84879b9709143e1f593f0000001
  const FQ_MODULUS: nat := 0x30644e72e131a029b85045b68181585d97816a916871ca8d3c208c16d87cfd47

  const TWO_64: nat := 0x1_0000_0000_0000_0000
  const TWO_192: nat := 0x1_0000_0000_0000_0000_0000_0000_0000_0000_0000_0000_0000_0000
  const TWO_256: nat := 0x1_0000_0000_0000_0000_0000_0000_0000_0000_0000_0000_0000_0000_0000_0000_0000_0000

  /** The word that eight octets denote. */
  function FromBeBytes(w: seq<byte>): (v: u64)
    requires |w| == 8
    ensures v == OS2IP(w)
  {
    OS2IPBound(w);
    Pow256Values();
    OS2IP(w)
  }

  /** A field element as the library stores it: four words, least significant first. */
  datatype Limbs = Limbs(l0: u64, l1: u64, l2: u64, l3: u64) {
    function Value(): (v: nat)
      ensures v < TWO_256
    {
      l0 + 0x1_0000_0000_0000_0000 * (l1 + 0x1_0000_0000_0000_0000 * (l2 + 0x1_0000_0000_0000_0000 * l3))
    }
  }

  function LimbsOf(v: nat): (l: Limbs)
    requires v < TWO_256
    ensures l.Value() == v
  {
    var v1 := v / TWO_64;
    var v2 := v1 / TWO_64;
    Limbs(v % TWO_64, v1 % TWO_64, v2 % TWO_64, v2 / TWO_64)
  }

  /** Four words written most significant first are the 32-octet encoding of the value. */
  lemma WordsBigEndian(l: Limbs)
    ensures I2OSP(l.l3, 8) + I2OSP(l.l2, 8) + I2OSP(l.l1, 8) + I2OSP(l.l0, 8) == I2OSP(l.Value(), 32)
  {
    var w3, w2, w1, w0 := I2OSP(l.l3, 8), I2OSP(l.l2, 8), I2OSP(l.l1, 8), I2OSP(l.l0, 8);
    WordRoundTrip(l.l3);
    WordRoundTrip(l.l2);
    WordRoundTrip(l.l1);
    WordRoundTrip(l.l0);
    FourWords(w3, w2, w1, w0);
    var all := w3 + w2 + w1 + w0;
    assert OS2IP(all) == l.Value();
    I2OSPOfOS2IP(all);
  }

  lemma WordRoundTrip(w: u64)
    ensures OS2IP(I2OSP(w, 8)) == w
  {
    Pow256Values();
    I2OSPRoundTrip(w, 8);
  }

  /** The value of 32 octets, word by word. */
  lemma FourWords(w3: seq<byte>, w2: seq<byte>, w1: seq<byte>, w0: seq<byte>)
    requires |w3| == |w2| == |w1| == |w0| == 8
    ensures OS2IP(w3 + w2 + w1 + w0) == OS2IP(w0) + 0x1_0000_0000_0000_0000 * (
      OS2IP(w1) + 0x1_0000_0000_0000_0000 * (OS2IP(w2) + 0x1_0000_0000_0000_0000 * OS2IP(w3)))
  {
    AppendWord(w3, w2);
    AppendWord(w3 + w2, w1);
    AppendWord(w3 + w2 + w1, w0);
  }

  lemma AppendWord(a: seq<byte>, w: seq<byte>)
    requires |w| == 8
    ensures OS2IP(a + w) == OS2IP(a) * 0x1_0000_0000_0000_0000 + OS2IP(w)
  {
    OS2IPAppend(a, w);
    Pow256Values();
  }
}
