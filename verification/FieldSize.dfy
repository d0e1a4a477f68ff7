/** The range check on public inputs. */
module FieldSize {
  import opened ByteStrings
  import opened Bn254

  const FR_MODULUS_BE: Bytes32 := [
    0x30, 0x64, 0x4e, 0x72, 0xe1, 0x31, 0xa0, 0x29, 0xb8, 0x50, 0x45, 0xb6, 0x81, 0x81, 0x58, 0x5d,
    0x28, 0x33, 0xe8, 0x48, 0x79, 0xb9, 0x70, 0x91, 0x43, 0xe1, 0xf5, 0x93, 0xf0, 0x00, 0x00, 0x01]

  /** Comparing the octets of two arrays in order compares the numbers they denote. */
  predicate IsLessThanBn254FieldSizeBe(bytes: Bytes32): (b: bool)
    ensures b <==> OS2IP(bytes) < FR_MODULUS
  {
    LexIsNumeric(bytes, FR_MODULUS_BE);
    ModulusBytes();
    LexLess(bytes, FR_MODULUS_BE)
  }

  /** The value of a word, octet by octet. */
  lemma WordValue(w: seq<byte>)
    requires |w| == 8
    ensures OS2IP(w) == 256 * (256 * (256 * (256 * (
      256 * (256 * (256 * (w[0] as int) + w[1]) + w[2]) + w[3]) + w[4]) + w[5]) + w[6]) + w[7]
  {
    HalfWordValue(w[..4]);
    HalfWordValue(w[4..]);
    assert w == w[..4] + w[4..];
    OS2IPAppend(w[..4], w[4..]);
    assert Pow256(4) == 0x1_0000_0000;
  }

  lemma HalfWordValue(w: seq<byte>)
    requires |w| == 4
    ensures OS2IP(w) == 256 * (256 * (256 * (w[0] as int) + w[1]) + w[2]) + w[3]
  {
    assert w[..3][..2] == w[..2] && w[..2][..1] == w[..1] && w[..1][..0] == [];
    assert OS2IP(w[..1]) == w[0];
    assert OS2IP(w[..2]) == 256 * (w[0] as int) + w[1];
    assert OS2IP(w[..3]) == 256 * OS2IP(w[..2]) + w[2];
  }

  // The constant, word by word.
  const W3: seq<byte> := [0x30, 0x64, 0x4e, 0x72, 0xe1, 0x31, 0xa0, 0x29]
  const W2: seq<byte> := [0xb8, 0x50, 0x45, 0xb6, 0x81, 0x81, 0x58, 0x5d]
  const W1: seq<byte> := [0x28, 0x33, 0xe8, 0x48, 0x79, 0xb9, 0x70, 0x91]
  const W0: seq<byte> := [0x43, 0xe1, 0xf5, 0x93, 0xf0, 0x00, 0x00, 0x01]

  lemma ModulusWords()
    ensures FR_MODULUS_BE == W3 + W2 + W1 + W0
  {
  }

  lemma WordValues()
    ensures OS2IP(W3) == 0x30644e72e131a029 && OS2IP(W2) == 0xb85045b68181585d
    ensures OS2IP(W1) == 0x2833e84879b97091 && OS2IP(W0) == 0x43e1f593f0000001
  {
    WordValue(W3);
    WordValue(W2);
    WordValue(W1);
    WordValue(W0);
  }

  lemma ModulusBytes()
    ensures OS2IP(FR_MODULUS_BE) == FR_MODULUS
  {
    ModulusWords();
    WordValues();
    FourWords(W3, W2, W1, W0);
  }
}
