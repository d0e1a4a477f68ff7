/** Octet strings and the conversions of RFC 8017, section 4, which every big-endian encoding in the
    crate is an instance of. */
module ByteStrings {
  import opened ModArith

  type byte = x: int | 0 <= x < 256
  type u64 = x: int | 0 <= x < 0x1_0000_0000_0000_0000

  // The fixed-size arrays of the crate.
  type Bytes32 = s: seq<byte> | |s| == 32 witness seq(32, _ => 0)
  type Bytes48 = s: seq<byte> | |s| == 48 witness seq(48, _ => 0)
  type Bytes64 = s: seq<byte> | |s| == 64 witness seq(64, _ => 0)
  type Bytes96 = s: seq<byte> | |s| == 96 witness seq(96, _ => 0)
  type Bytes128 = s: seq<byte> | |s| == 128 witness seq(128, _ => 0)

  function Zeros(n: nat): (z: seq<byte>) {
    seq(n, _ => 0)
  }

  function Pow256(n: nat): (p: nat)
    ensures p > 0
  {
    if n == 0 then 1 else 256 * Pow256(n - 1)
  }

  /** The natural number a string denotes, most significant octet first. */
  function OS2IP(s: seq<byte>): nat {
    if s == [] then 0 else 256 * OS2IP(s[..|s| - 1]) + s[|s| - 1]
  }

  /** The low `len` octets of `n`, most significant first. */
  function I2OSP(n: nat, len: nat): (s: seq<byte>)
    ensures |s| == len
  {
    if len == 0 then [] else I2OSP(n / 256, len - 1) + [n % 256]
  }

  /** The octets of a text in ASCII. */
  function Ascii(s: string): (b: seq<byte>)
    requires forall i :: 0 <= i < |s| ==> s[i] as int < 0x80
    ensures |b| == |s|
  {
    seq(|s|, i requires 0 <= i < |s| => s[i] as int)
  }

  function XorByte(x: byte, y: byte): byte {
    ((x as bv8) ^ (y as bv8)) as int
  }

  lemma {:induction false} Pow256Add(m: nat, n: nat)
    ensures Pow256(m + n) == Pow256(m) * Pow256(n)
  {
    if m == 0 {
    } else {
      Pow256Add(m - 1, n);
      assert Pow256(m + n) == 256 * (Pow256(m - 1) * Pow256(n));
    }
  }

  lemma Pow256Values()
    ensures Pow256(8) == 0x1_0000_0000_0000_0000
    ensures Pow256(16) == 0x1_0000_0000_0000_0000_0000_0000_0000_0000
    ensures Pow256(24) == 0x1_0000_0000_0000_0000_0000_0000_0000_0000_0000_0000_0000_0000
    ensures Pow256(32) == 0x1_0000_0000_0000_0000_0000_0000_0000_0000_0000_0000_0000_0000_0000_0000_0000_0000
  {
    assert Pow256(8) == 0x1_0000_0000_0000_0000;
    Pow256Add(8, 8);
    Pow256Add(16, 8);
    Pow256Add(24, 8);
  }

  lemma {:induction false} OS2IPBound(s: seq<byte>)
    ensures OS2IP(s) < Pow256(|s|)
  {
    if s == [] {
    } else {
      OS2IPBound(s[..|s| - 1]);
    }
  }

  lemma {:induction false} OS2IPAppend(a: seq<byte>, b: seq<byte>)
    ensures OS2IP(a + b) == OS2IP(a) * Pow256(|b|) + OS2IP(b)
  {
    if b == [] {
      assert a + b == a;
    } else {
      var b' := b[..|b| - 1];
      assert (a + b)[..|a + b| - 1] == a + b';
      OS2IPAppend(a, b');
      Distribute(OS2IP(a), Pow256(|b'|), OS2IP(b'));
    }
  }

  lemma Distribute(x: int, p: int, y: int)
    ensures 256 * (x * p + y) == x * (256 * p) + 256 * y
  {
  }

  lemma {:induction false} OS2IPInjective(a: seq<byte>, b: seq<byte>)
    requires |a| == |b| && OS2IP(a) == OS2IP(b)
    ensures a == b
  {
    if a == [] {
    } else {
      OS2IPInjective(a[..|a| - 1], b[..|b| - 1]);
      assert a == a[..|a| - 1] + [a[|a| - 1]];
      assert b == b[..|b| - 1] + [b[|b| - 1]];
    }
  }

  /** Writing a number in `len` octets and reading it back gives it modulo `256^len`. */
  lemma {:induction false} OS2IPOfI2OSP(n: nat, len: nat)
    ensures OS2IP(I2OSP(n, len)) == n % Pow256(len)
  {
    if len == 0 {
    } else {
      OS2IPOfI2OSP(n / 256, len - 1);
      var s := I2OSP(n / 256, len - 1);
      assert (s + [n % 256])[..len - 1] == s;
      assert OS2IP(s + [n % 256]) == 256 * OS2IP(s) + n % 256;
      ModShift(n, 256, Pow256(len - 1));
    }
  }

  lemma I2OSPOfOS2IP(s: seq<byte>)
    ensures I2OSP(OS2IP(s), |s|) == s
  {
    OS2IPBound(s);
    OS2IPOfI2OSP(OS2IP(s), |s|);
    DivModUnique(OS2IP(s), Pow256(|s|), 0, OS2IP(s));
    OS2IPInjective(I2OSP(OS2IP(s), |s|), s);
  }

  lemma I2OSPRoundTrip(n: nat, len: nat)
    requires n < Pow256(len)
    ensures OS2IP(I2OSP(n, len)) == n
  {
    OS2IPOfI2OSP(n, len);
    DivModUnique(n, Pow256(len), 0, n);
  }

  lemma {:induction false} OS2IPZeros(n: nat)
    ensures OS2IP(Zeros(n)) == 0
  {
    if n == 0 {
    } else {
      assert Zeros(n)[..n - 1] == Zeros(n - 1);
      OS2IPZeros(n - 1);
    }
  }

  /** The order that comparing two arrays of octets gives: by the first octet that differs. */
  predicate LexLess(a: seq<byte>, b: seq<byte>) {
    b != [] && (a == [] || a[0] < b[0] || (a[0] == b[0] && LexLess(a[1..], b[1..])))
  }

  /** On strings of one length the lexicographic order is the numeric order. */
  lemma {:induction false} LexIsNumeric(a: seq<byte>, b: seq<byte>)
    requires |a| == |b|
    ensures LexLess(a, b) <==> OS2IP(a) < OS2IP(b)
    decreases |a|
  {
    if a == [] {
    } else {
      var a', b', p := a[1..], b[1..], Pow256(|a| - 1);
      assert a == [a[0]] + a' && b == [b[0]] + b';
      OS2IPAppend([a[0]], a');
      OS2IPAppend([b[0]], b');
      assert OS2IP([a[0]]) == a[0] && OS2IP([b[0]]) == b[0];
      OS2IPBound(a');
      OS2IPBound(b');
      if a[0] == b[0] {
        LexIsNumeric(a', b');
      } else if a[0] < b[0] {
        LeadingDigit(a[0], b[0], p, OS2IP(a'), OS2IP(b'));
      } else {
        LeadingDigit(b[0], a[0], p, OS2IP(b'), OS2IP(a'));
      }
    }
  }
}
