/** The BSB22 hash to the scalar field.  The general expander and reduction of RFC 9380 come first; the
    methods below them are the crate's specialised forms, proved equal to the general ones. */
module HashToField {
  import opened Wrappers
  import opened ModArith
  import opened ByteStrings
  import opened Bits
  import opened Buffers
  import opened Bn254
  import opened FieldSize
  import opened Montgomery

  /** SHA-256 is a parameter: nothing here depends on which function it is. */
  type Sha256 = seq<byte> -> Bytes32

  // Sizes in octets: the digest, the hash block, the expanded output, and the scratch buffer.
  const B_IN_BYTES := 32
  const R_IN_BYTES := 64
  const L := 48
  const MAX_SCRATCH := 256

  // ----- RFC 9380 -----

  function StrXor(x: seq<byte>, y: seq<byte>): (z: seq<byte>)
    requires |x| == |y|
  {
    seq(|x|, i requires 0 <= i < |x| => XorByte(x[i], y[i]))
  }

  /** The exclusive or of two strings is the one string with these bits. */
  lemma StrXorBits(z: seq<byte>, x: seq<byte>, y: seq<byte>)
    requires |x| == |y|
    ensures z == StrXor(x, y) <==> IsXor(z, x, y)
  {
    hide XorByte, IsXorByte;
    forall i | 0 <= i < |z| && |z| == |x|
      ensures z[i] == XorByte(x[i], y[i]) <==> IsXorByte(z[i], x[i], y[i])
    {
      XorByteBits(z[i], x[i], y[i]);
    }
  }

  lemma StrXorTwice(x: seq<byte>, y: seq<byte>)
    requires |x| == |y|
    ensures StrXor(StrXor(x, y), y) == x
  {
    hide XorByte;
    forall i | 0 <= i < |x|
      ensures StrXor(StrXor(x, y), y)[i] == x[i]
    {
      XorTwice(x[i], y[i]);
    }
  }

  function DstPrime(dst: seq<byte>): seq<byte> {
    dst + I2OSP(|dst|, 1)
  }

  /** b_0 of section 5.3.1 is the hash of this string; it starts with one block of zero octets. */
  function MsgPrime(msg: seq<byte>, dst: seq<byte>, lenInBytes: nat): seq<byte> {
    Zeros(R_IN_BYTES) + msg + I2OSP(lenInBytes, 2) + I2OSP(0, 1) + DstPrime(dst)
  }

  /** The string whose hash is b_i, for i at least 1. */
  function BlockInput(sha: Sha256, b0: Bytes32, dst: seq<byte>, i: nat): seq<byte>
    requires i >= 1
    decreases i, 0
  {
    (if i == 1 then b0 else StrXor(b0, Block(sha, b0, dst, i - 1))) + I2OSP(i, 1) + DstPrime(dst)
  }

  function Block(sha: Sha256, b0: Bytes32, dst: seq<byte>, i: nat): Bytes32
    requires i >= 1
    decreases i, 1
  {
    sha(BlockInput(sha, b0, dst, i))
  }

  /** b_1 || ... || b_ell. */
  function Blocks(sha: Sha256, b0: Bytes32, dst: seq<byte>, ell: nat): (s: seq<byte>)
    ensures |s| == 32 * ell
  {
    if ell == 0 then [] else Blocks(sha, b0, dst, ell - 1) + Block(sha, b0, dst, ell)
  }

  /** expand_message_xmd of section 5.3.1 of RFC 9380 over a 32-octet hash, for any output length. */
  function ExpandMessageXmd(sha: Sha256, msg: seq<byte>, dst: seq<byte>, lenInBytes: nat): (r: Option<seq<byte>>)
    ensures r.Some? ==> |r.value| == lenInBytes
  {
    var ell := (lenInBytes + B_IN_BYTES - 1) / B_IN_BYTES;
    if ell > 255 || lenInBytes > 65535 || |dst| > 255 then
      None
    else
      Some(Blocks(sha, sha(MsgPrime(msg, dst, lenInBytes)), dst, ell)[..lenInBytes])
  }

  /** hash_to_field of section 5.2 of RFC 9380 for one element of the prime field of order r. */
  function HashToFieldSpec(sha: Sha256, msg: seq<byte>, dst: seq<byte>): (v: nat)
    requires |dst| <= 255
    ensures v < FR_MODULUS
  {
    OS2IP(ExpandMessageXmd(sha, msg, dst, L).value) % FR_MODULUS
  }

  // ----- the crate's expander -----

  /** Writes `DST_prime` into the scratch buffer and returns the offset behind it. */
  method AppendDstPrime(scratch: array<byte>, offset: nat, dst: seq<byte>) returns (next: nat)
    requires |dst| <= 255
    requires offset + |dst| + 1 <= scratch.Length
    modifies scratch
    ensures next == offset + |dst| + 1
    ensures scratch[..next] == old(scratch[..offset]) + DstPrime(dst)
  {
    CopyFromSlice(scratch, offset, dst);
    StoreByte(scratch, offset + |dst|, |dst|);
    SmallI2OSP(|dst|);
    assert old(scratch[..offset]) + dst + [|dst|] == old(scratch[..offset]) + DstPrime(dst);
    return offset + |dst| + 1;
  }

  lemma SmallI2OSP(n: byte)
    ensures I2OSP(n, 1) == [n]
  {
    assert I2OSP(n / 256, 0) == [];
  }

  /** The XOR loop: the first 32 octets of the buffer become `b0 XOR b1`. */
  method XorIntoScratch(scratch: array<byte>, b0: Bytes32, b1: Bytes32)
    requires scratch.Length >= B_IN_BYTES
    modifies scratch
    ensures scratch[..B_IN_BYTES] == StrXor(b0, b1)
    ensures IsXor(scratch[..B_IN_BYTES], b0, b1)
  {
    hide XorByte;
    for i := 0 to B_IN_BYTES
      invariant scratch[..i] == StrXor(b0, b1)[..i]
    {
      scratch[i] := XorByte(b0[i], b1[i]);
      assert scratch[..i + 1] == StrXor(b0, b1)[..i] + [XorByte(b0[i], b1[i])];
    }
    StrXorBits(scratch[..B_IN_BYTES], b0, b1);
  }

  /** First preimage.  The leading zero pad is whatever the fresh buffer holds; it is only stepped over. */
  method WriteMsgPrime(scratch: array<byte>, msg: seq<byte>, dst: seq<byte>) returns (offset: nat)
    requires |dst| <= 255 && R_IN_BYTES + |msg| + 2 + 1 + (|dst| + 1) <= scratch.Length
    requires scratch[..R_IN_BYTES] == Zeros(R_IN_BYTES)
    modifies scratch
    ensures offset <= scratch.Length && scratch[..offset] == MsgPrime(msg, dst, L)
  {
    EncodedConstants();
    offset := R_IN_BYTES;
    CopyFromSlice(scratch, offset, msg);
    offset := offset + |msg|;
    CopyFromSlice(scratch, offset, [0x00, 0x30]);
    offset := offset + 2;
    StoreByte(scratch, offset, 0x00);
    offset := offset + 1;
    offset := AppendDstPrime(scratch, offset, dst);
  }

  /** Second preimage, written over the first. */
  method WriteB1Input(sha: Sha256, scratch: array<byte>, b0: Bytes32, dst: seq<byte>) returns (offset: nat)
    requires |dst| <= 255 && B_IN_BYTES + 1 + (|dst| + 1) <= scratch.Length
    modifies scratch
    ensures offset <= scratch.Length && scratch[..offset] == BlockInput(sha, b0, dst, 1)
  {
    EncodedConstants();
    offset := 0;
    CopyFromSlice(scratch, offset, b0);
    offset := offset + B_IN_BYTES;
    StoreByte(scratch, offset, 0x01);
    offset := offset + 1;
    assert scratch[..offset] == b0 + I2OSP(1, 1);
    offset := AppendDstPrime(scratch, offset, dst);
  }

  /** Third preimage, written over the second. */
  method WriteB2Input(sha: Sha256, scratch: array<byte>, b0: Bytes32, b1: Bytes32, dst: seq<byte>)
    returns (offset: nat)
    requires |dst| <= 255 && B_IN_BYTES + 1 + (|dst| + 1) <= scratch.Length
    requires b1 == Block(sha, b0, dst, 1)
    modifies scratch
    ensures 32 <= offset <= scratch.Length && scratch[..offset] == BlockInput(sha, b0, dst, 2)
    ensures IsXor(scratch[..32], b0, b1)
  {
    EncodedConstants();
    XorIntoScratch(scratch, b0, b1);
    offset := B_IN_BYTES;
    StoreByte(scratch, offset, 0x02);
    offset := offset + 1;
    assert scratch[..offset] == StrXor(b0, b1) + I2OSP(2, 1);
    offset := AppendDstPrime(scratch, offset, dst);
  }

  /** The in-place expander: three hashes out of one scratch buffer that is never cleared.  `preimages`
      records what the hash function was asked for. */
  method ExpandMessageXmdSha256L48(sha: Sha256, msg: seq<byte>, dst: seq<byte>)
    returns (out: Bytes48, ghost preimages: seq<seq<byte>>)
    // The two compile-time assertions.
    requires |dst| <= 255
    requires R_IN_BYTES + |msg| + 2 + 1 + (|dst| + 1) <= MAX_SCRATCH
    ensures ExpandMessageXmd(sha, msg, dst, L) == Some(out)
    ensures preimages == [
      MsgPrime(msg, dst, L),
      BlockInput(sha, sha(MsgPrime(msg, dst, L)), dst, 1),
      BlockInput(sha, sha(MsgPrime(msg, dst, L)), dst, 2)]
    ensures IsXor(preimages[2][..32], sha(preimages[0]), sha(preimages[1]))
  {
    var scratch := new byte[MAX_SCRATCH](_ => 0);
    var offset := WriteMsgPrime(scratch, msg, dst);
    var b0 := sha(scratch[..offset]);
    preimages := [scratch[..offset]];

    offset := WriteB1Input(sha, scratch, b0, dst);
    var b1 := sha(scratch[..offset]);
    preimages := preimages + [scratch[..offset]];

    offset := WriteB2Input(sha, scratch, b0, b1, dst);
    var b2 := sha(scratch[..offset]);
    preimages := preimages + [scratch[..offset]];

    out := b1 + b2[..L - B_IN_BYTES];
    ExpandOfTwoBlocks(sha, msg, dst, L);
    assert out == (b1 + b2)[..L];
    assert preimages[2][..32] == scratch[..32];
  }

  lemma EncodedConstants()
    ensures I2OSP(L, 2) == [0x00, 0x30]
    ensures I2OSP(0, 1) == [0x00]
    ensures I2OSP(1, 1) == [0x01]
    ensures I2OSP(2, 1) == [0x02]
  {
    SmallI2OSP(0);
    SmallI2OSP(1);
    SmallI2OSP(2);
    assert I2OSP(L, 2) == I2OSP(0, 1) + [48];
  }

  lemma ExpandUnfold(sha: Sha256, msg: seq<byte>, dst: seq<byte>, lenInBytes: nat, ell: nat)
    requires |dst| <= 255 && 32 * ell - 32 < lenInBytes <= 32 * ell <= 8160
    ensures ExpandMessageXmd(sha, msg, dst, lenInBytes)
      == Some(Blocks(sha, sha(MsgPrime(msg, dst, lenInBytes)), dst, ell)[..lenInBytes])
  {
    assert ell == (lenInBytes + B_IN_BYTES - 1) / B_IN_BYTES;
  }

  /** Between 33 and 64 octets the general expander needs two blocks. */
  lemma ExpandOfTwoBlocks(sha: Sha256, msg: seq<byte>, dst: seq<byte>, lenInBytes: nat)
    requires |dst| <= 255 && 32 < lenInBytes <= 64
    ensures var b0 := sha(MsgPrime(msg, dst, lenInBytes));
      ExpandMessageXmd(sha, msg, dst, lenInBytes)
      == Some((Block(sha, b0, dst, 1) + Block(sha, b0, dst, 2))[..lenInBytes])
  {
    ExpandUnfold(sha, msg, dst, lenInBytes, 2);
    TwoBlocks(sha, sha(MsgPrime(msg, dst, lenInBytes)), dst);
  }

  lemma TwoBlocks(sha: Sha256, b0: Bytes32, dst: seq<byte>)
    ensures Blocks(sha, b0, dst, 2) == Block(sha, b0, dst, 1) + Block(sha, b0, dst, 2)
  {
    assert Blocks(sha, b0, dst, 0) == [];
    assert Blocks(sha, b0, dst, 1) == Block(sha, b0, dst, 1);
  }

  /** The field element, with every octet of the three preimages written out. */
  lemma ElementOfPreimages(
    sha: Sha256, msg: seq<byte>, dst: seq<byte>, b0: Bytes32, b1: Bytes32, b2: Bytes32, x: seq<byte>)
    requires |dst| <= 255
    requires b0 == sha(Zeros(64) + msg + [0, 48, 0] + dst + [|dst|])
    requires b1 == sha(b0 + [1] + dst + [|dst|])
    requires IsXor(x, b0, b1) && b2 == sha(x + [2] + dst + [|dst|])
    ensures HashToFieldSpec(sha, msg, dst) == OS2IP(b1 + b2[..16]) % FR_MODULUS
  {
    hide OS2IP, IsXor, StrXor, FR_MODULUS;
    SmallI2OSP(|dst|);
    EncodedConstants();
    StrXorBits(x, b0, b1);
    assert MsgPrime(msg, dst, 48) == Zeros(64) + msg + [0, 48, 0] + dst + [|dst|];
    assert BlockInput(sha, b0, dst, 1) == b0 + [1] + dst + [|dst|];
    assert BlockInput(sha, b0, dst, 2) == x + [2] + dst + [|dst|];
    ExpandOfTwoBlocks(sha, msg, dst, 48);
    assert (b1 + b2)[..48] == b1 + b2[..16];
  }

  // ----- the crate's reduction -----

  /** 2^192, put into Montgomery form before it is used. */
  const TWO_POW_192: Limbs := Limbs(0, 0, 0, 1)

  lemma TwoPow192Value()
    ensures TWO_POW_192.Value() == TWO_192 < FR_MODULUS
  {
  }

  /** Reduces a 48-octet integer as `high * 2^192 + low` with one Montgomery multiply.  `wraps` says
      whether the final addition had to subtract the modulus. */
  method ReduceBeL48(raw: Bytes48) returns (r: Limbs, ghost wraps: bool)
    ensures r.Value() == OS2IP(raw) % FR_MODULUS
    ensures wraps <==> OS2IP(raw) % FR_MODULUS < OS2IP(raw[24..])
  {
    hide OS2IP, FrMul, FrNew, FrAdd, WordFromEnd, Limbs.Value;
    var limbs := new u64[6](_ => 0);
    for i := 0 to 6
      invariant forall k :: 0 <= k < i ==> limbs[k] == WordFromEnd(raw, k)
    {
      limbs[i] := WordFromEnd(raw, i);
    }
    var low := Limbs(limbs[0], limbs[1], limbs[2], 0);
    var high := Limbs(limbs[3], limbs[4], limbs[5], 0);
    HalfValues(raw, high, low);
    TwoPow192Value();
    r := FrAdd(FrMul(high, FrNew(TWO_POW_192)), low);
    wraps := FrMul(high, FrNew(TWO_POW_192)).Value() + low.Value() >= FR_MODULUS;
    SplitHalves(raw, high, low);
  }

  /** The `k`-th 8-octet word, counted from the end of the buffer. */
  function WordFromEnd(raw: Bytes48, k: nat): (w: u64)
    requires k < 6
  {
    FromBeBytes(raw[40 - 8 * k..48 - 8 * k])
  }

  /** Three words below 2^64 make up a 24-octet half, which is below 2^192 and so below r. */
  lemma HalfValues(raw: Bytes48, high: Limbs, low: Limbs)
    requires low == Limbs(WordFromEnd(raw, 0), WordFromEnd(raw, 1), WordFromEnd(raw, 2), 0)
    requires high == Limbs(WordFromEnd(raw, 3), WordFromEnd(raw, 4), WordFromEnd(raw, 5), 0)
    ensures high.Value() == OS2IP(raw[..24]) < FR_MODULUS
    ensures low.Value() == OS2IP(raw[24..]) < FR_MODULUS
  {
    ThreeWords(raw[..24], high, raw[0..8], raw[8..16], raw[16..24]);
    ThreeWords(raw[24..], low, raw[24..32], raw[32..40], raw[40..48]);
  }

  lemma ThreeWords(half: seq<byte>, l: Limbs, w2: seq<byte>, w1: seq<byte>, w0: seq<byte>)
    requires |w2| == |w1| == |w0| == 8 && half == w2 + w1 + w0
    requires l.l0 == OS2IP(w0) && l.l1 == OS2IP(w1) && l.l2 == OS2IP(w2) && l.l3 == 0
    ensures l.Value() == OS2IP(half) < FR_MODULUS
  {
    hide OS2IP, Pow256;
    AppendWord(w2, w1);
    AppendWord(w2 + w1, w0);
    assert OS2IP(half) < FR_MODULUS by {
      OS2IPBound(half);
      Pow256Values();
    }
  }

  /** The split form has the remainder of the whole, and wraps exactly when that is below `low`. */
  lemma SplitHalves(raw: Bytes48, high: Limbs, low: Limbs)
    requires high.Value() == OS2IP(raw[..24]) < FR_MODULUS && low.Value() == OS2IP(raw[24..]) < FR_MODULUS
    ensures var product := FrMul(high, FrNew(TWO_POW_192)).Value();
      && (product + low.Value()) % FR_MODULUS == OS2IP(raw) % FR_MODULUS
      && (product + low.Value() >= FR_MODULUS <==> OS2IP(raw) % FR_MODULUS < OS2IP(raw[24..]))
  {
    hide OS2IP, Pow256, FrMul, FrNew, Limbs.Value, TWO_POW_192;
    TwoPow192Value();
    PlainTimesMontgomery(high, TWO_POW_192);
    assert raw == raw[..24] + raw[24..];
    OS2IPAppend(raw[..24], raw[24..]);
    assert Pow256(24) == TWO_192 by { Pow256Values(); }
    SplitRemainder(high.Value() * TWO_192, low.Value(), FR_MODULUS);
  }

  lemma SplitRemainder(x: nat, low: nat, n: nat)
    requires low < n
    ensures (x % n + low) % n == (x + low) % n
    ensures x % n + low >= n <==> (x + low) % n < low
  {
    ModAdd(x, low, n);
    if x % n + low >= n {
      DivModUnique(x % n + low, n, 1, x % n + low - n);
    } else {
      DivModUnique(x % n + low, n, 0, x % n + low);
    }
  }

  // ----- both together -----

  /** The serialisation loop: the words in reverse order, each in big-endian octets. */
  method SerializeLimbs(l: Limbs) returns (bytes: Bytes32)
    ensures bytes == I2OSP(l.Value(), 32)
  {
    var words := [l.l3, l.l2, l.l1, l.l0];
    var out := new byte[32](_ => 0);
    for i := 0 to 4
      invariant i >= 1 ==> out[0..8] == I2OSP(words[0], 8)
      invariant i >= 2 ==> out[8..16] == I2OSP(words[1], 8)
      invariant i >= 3 ==> out[16..24] == I2OSP(words[2], 8)
      invariant i >= 4 ==> out[24..32] == I2OSP(words[3], 8)
    {
      ghost var before := out[..];
      CopyFromSlice(out, 8 * i, I2OSP(words[i], 8));
      KeptWords(before, out[..], i, I2OSP(words[i], 8));
    }
    bytes := out[..];
    assert bytes == out[0..8] + out[8..16] + out[16..24] + out[24..32];
    WordsBigEndian(l);
  }

  lemma KeptWords(before: Bytes32, after: Bytes32, i: nat, word: seq<byte>)
    requires i < 4 && |word| == 8
    requires after[..8 * i + 8] == before[..8 * i] + word
    ensures after[8 * i..8 * i + 8] == word
    ensures i >= 1 ==> after[0..8] == before[0..8]
    ensures i >= 2 ==> after[8..16] == before[8..16]
    ensures i >= 3 ==> after[16..24] == before[16..24]
  {
    var prefix := after[..8 * i + 8];
    assert prefix[..8 * i] == before[..8 * i];
    assert after[8 * i..8 * i + 8] == prefix[8 * i..];
    if i >= 1 {
      assert after[0..8] == prefix[0..8];
    }
    if i >= 2 {
      assert after[8..16] == prefix[8..16];
    }
    if i >= 3 {
      assert after[16..24] == prefix[16..24];
    }
  }

  /** The commitment hash as the verifier uses it: 32 big-endian octets of the RFC 9380 element. */
  method HashToFieldBn254Fr(sha: Sha256, msg: seq<byte>, dst: seq<byte>) returns (hash: Bytes32)
    requires |dst| <= 255
    requires R_IN_BYTES + |msg| + 2 + 1 + (|dst| + 1) <= MAX_SCRATCH
    ensures hash == I2OSP(HashToFieldSpec(sha, msg, dst), 32)
    ensures OS2IP(hash) == HashToFieldSpec(sha, msg, dst)
    ensures IsLessThanBn254FieldSizeBe(hash)
  {
    var raw, _ := ExpandMessageXmdSha256L48(sha, msg, dst);
    var reduced, _ := ReduceBeL48(raw);
    hash := SerializeLimbs(reduced);
    Pow256Values();
    I2OSPRoundTrip(reduced.Value(), 32);
  }
}
