/** Hexadecimal text of byte strings: the printer, and the reader with the spellings it tolerates. */
module Hex {
  import opened Wrappers
  import opened ByteStrings

  /** One lower-case digit. */
  function Digit(v: nat): byte
    requires v < 16
  {
    if v < 10 then 0x30 + v else 0x61 + (v - 10)
  }

  function ToHex(bytes: seq<byte>): (s: seq<byte>)
    ensures |s| == 2 * |bytes|
  {
    if bytes == [] then [] else [Digit(bytes[0] / 16), Digit(bytes[0] % 16)] + ToHex(bytes[1..])
  }

  function DigitValue(c: byte): Option<nat> {
    if 0x30 <= c <= 0x39 then Some(c - 0x30)
    else if 0x61 <= c <= 0x66 then Some(c - 0x61 + 10)
    else if 0x41 <= c <= 0x46 then Some(c - 0x41 + 10)
    else None
  }

  /** The standard radix parser on two characters: a plus sign may stand for the first digit. */
  function PairValue(a: byte, b: byte): (r: Option<byte>) {
    match (if a == 0x2B then Some(0) else DigitValue(a), DigitValue(b))
    case (Some(hi), Some(lo)) => (if hi < 16 && lo < 16 then Some(16 * hi + lo) else None)
    case _ => None
  }

  function PairAt(s: seq<byte>, i: nat): Option<byte>
    requires 2 * i + 1 < |s|
  {
    PairValue(s[2 * i], s[2 * i + 1])
  }

  /** The 32 octets that 64 characters spell. */
  function FromHexSpec(s: seq<byte>): Option<Bytes32> {
    if |s| == 64 && (forall i :: 0 <= i < 32 ==> PairAt(s, i).Some?) then
      Some(seq(32, i requires 0 <= i < 32 => PairAt(s, i).value))
    else None
  }

  method FromHex(s: seq<byte>) returns (r: Option<Bytes32>)
    ensures r == FromHexSpec(s)
  {
    if |s| != 64 {
      return None;
    }
    var out := new byte[32](_ => 0);
    for i := 0 to 32
      invariant forall k :: 0 <= k < i ==> PairAt(s, k) == Some(out[k])
    {
      var v := PairAt(s, i);
      if v.None? {
        return None;
      }
      out[i] := v.value;
    }
    assert FromHexSpec(s).value == out[..];
    return Some(out[..]);
  }

  lemma {:induction false} ToHexAt(bytes: seq<byte>, i: nat)
    requires i < |bytes|
    ensures ToHex(bytes)[2 * i] == Digit(bytes[i] / 16)
    ensures ToHex(bytes)[2 * i + 1] == Digit(bytes[i] % 16)
  {
    if i > 0 {
      ToHexAt(bytes[1..], i - 1);
      assert ToHex(bytes)[2 * i] == ToHex(bytes[1..])[2 * (i - 1)];
      assert ToHex(bytes)[2 * i + 1] == ToHex(bytes[1..])[2 * (i - 1) + 1];
    }
  }

  /** Reading back what was printed. */
  lemma FromHexOfToHex(d: Bytes32)
    ensures FromHexSpec(ToHex(d)) == Some(d)
  {
    hide ToHex, PairValue, Digit;
    forall i | 0 <= i < 32
      ensures PairAt(ToHex(d), i) == Some(d[i])
    {
      ToHexAt(d, i);
      DigitsRead(d[i]);
    }
    assert FromHexSpec(ToHex(d)).value == d;
  }

  lemma DigitsRead(v: byte)
    ensures PairValue(Digit(v / 16), Digit(v % 16)) == Some(v)
  {
  }

  // 0123456789abcdef and 0123456789ABCDEF
  const LOWER: seq<byte> := [
    0x30, 0x31, 0x32, 0x33, 0x34, 0x35, 0x36, 0x37, 0x38, 0x39, 0x61, 0x62, 0x63, 0x64, 0x65, 0x66]
  const UPPER: seq<byte> := [
    0x30, 0x31, 0x32, 0x33, 0x34, 0x35, 0x36, 0x37, 0x38, 0x39, 0x41, 0x42, 0x43, 0x44, 0x45, 0x46]

  predicate SpellsDigit(c: byte, v: nat) {
    v < 16 && (c == LOWER[v] || c == UPPER[v])
  }

  lemma DigitSpellings(c: byte, v: nat)
    ensures DigitValue(c) == Some(v) <==> SpellsDigit(c, v)
  {
  }

  /** Two digits of either case, or a plus sign and one digit. */
  predicate SpellsOctet(a: byte, b: byte, v: byte) {
    (SpellsDigit(a, v / 16) || (a == 0x2B && v < 16)) && SpellsDigit(b, v % 16)
  }

  lemma PairSpellings(a: byte, b: byte, v: byte)
    ensures PairValue(a, b) == Some(v) <==> SpellsOctet(a, b, v)
  {
    hide DigitValue, SpellsDigit;
    DigitSpellings(a, v / 16);
    DigitSpellings(b, v % 16);
    if a != 0x2B && DigitValue(a).Some? {
      DigitSpellings(a, DigitValue(a).value);
    }
    if DigitValue(b).Some? {
      DigitSpellings(b, DigitValue(b).value);
    }
    PlusIsNoDigit(v / 16);
    if DigitValue(a).Some? && DigitValue(b).Some? {
      SpelledBelow16(a, DigitValue(a).value);
      SpelledBelow16(b, DigitValue(b).value);
    }
  }

  lemma PlusIsNoDigit(v: nat)
    ensures !SpellsDigit(0x2B, v)
  {
  }

  lemma SpelledBelow16(c: byte, v: nat)
    ensures SpellsDigit(c, v) ==> v < 16
  {
  }

  /** Which texts are read as which octets. */
  lemma FromHexExact(s: seq<byte>, d: Bytes32)
    ensures FromHexSpec(s) == Some(d) <==>
      |s| == 64 && forall i :: 0 <= i < 32 ==> SpellsOctet(s[2 * i], s[2 * i + 1], d[i])
  {
    hide PairValue, SpellsOctet;
    if |s| == 64 {
      forall i | 0 <= i < 32
        ensures PairAt(s, i) == Some(d[i]) <==> SpellsOctet(s[2 * i], s[2 * i + 1], d[i])
      {
        PairSpellings(s[2 * i], s[2 * i + 1], d[i]);
      }
      if forall i :: 0 <= i < 32 ==> SpellsOctet(s[2 * i], s[2 * i + 1], d[i]) {
        assert FromHexSpec(s).value == d;
      }
      if FromHexSpec(s) == Some(d) {
        forall i | 0 <= i < 32
          ensures PairAt(s, i) == Some(d[i])
        {
          assert FromHexSpec(s).value[i] == d[i];
        }
      }
    }
  }

  predicate IsLowerDigit(c: byte) {
    0x30 <= c <= 0x39 || 0x61 <= c <= 0x66
  }

  predicate IsLowerHex(s: seq<byte>) {
    forall k :: 0 <= k < |s| ==> IsLowerDigit(s[k])
  }

  lemma PairSpelling(a: byte, b: byte, v: byte)
    requires PairValue(a, b) == Some(v)
    ensures IsLowerDigit(a) && IsLowerDigit(b) <==> a == Digit(v / 16) && b == Digit(v % 16)
    ensures IsPlain(a) && IsPlain(b)
  {
  }

  /** Among all spellings that are read as `d`, the printed one is the one in lower-case digits. */
  lemma OnlyPrintedSpelling(s: seq<byte>, d: Bytes32)
    requires FromHexSpec(s) == Some(d)
    ensures s == ToHex(d) <==> IsLowerHex(s)
  {
    if IsLowerHex(s) {
      forall k | 0 <= k < 64
        ensures s[k] == ToHex(d)[k]
      {
        SpellingAt(s, d, k);
      }
    }
    if s == ToHex(d) {
      forall k | 0 <= k < 64
        ensures IsLowerDigit(s[k])
      {
        SpellingAt(s, d, k);
      }
    }
  }

  /** The pair that the `k`-th character belongs to. */
  lemma SpellingAt(s: seq<byte>, d: Bytes32, k: nat)
    requires FromHexSpec(s) == Some(d) && k < 64
    ensures |s| == 64
    ensures IsLowerHex(s) ==> s[k] == ToHex(d)[k]
    ensures s == ToHex(d) ==> IsLowerDigit(s[k])
  {
    var i := k / 2;
    EvenOrOdd(k);
    ToHexAt(d, i);
    assert PairAt(s, i) == Some(d[i]);
    PairSpelling(s[2 * i], s[2 * i + 1], d[i]);
  }

  lemma EvenOrOdd(k: nat)
    ensures k == 2 * (k / 2) || k == 2 * (k / 2) + 1
  {
  }

  /** A character other than NUL and the equals sign, one octet long. */
  predicate IsPlain(c: byte) {
    c != 0 && c != 0x3D && c <= 0x7F
  }

  /** Every spelling that is read consists of plain characters. */
  lemma SpellingIsPlain(s: seq<byte>)
    requires FromHexSpec(s).Some?
    ensures |s| == 64
    ensures forall k :: 0 <= k < 64 ==> IsPlain(s[k])
  {
    forall k | 0 <= k < 64
      ensures IsPlain(s[k])
    {
      EvenOrOdd(k);
      assert PairAt(s, k / 2).Some?;
      PairSpelling(s[2 * (k / 2)], s[2 * (k / 2) + 1], PairAt(s, k / 2).value);
    }
  }
}
