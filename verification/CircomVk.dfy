/** The number and point codecs of the snarkjs key generator: decimal coordinates to fixed-width
    big-endian octets.  Reading a decimal is a parameter, because the big-integer library does it. */
module CircomVk {
  import opened Wrappers
  import opened ByteStrings
  import opened Bn254
  import opened PairingSetting

  type ParseDecimal = string -> Option<nat>

  datatype VkParseError =
    | NotANumber(text: string)
    | NotAPair(count: nat)
    | EmptyPoint

  // ----- the library's conversions -----

  /** The octets of a number, least significant first, without superfluous zeros; zero has one octet. */
  function ToBytesLe(n: nat): seq<byte> {
    if n < 256 then [n] else [n % 256] + ToBytesLe(n / 256)
  }

  /** Cuts or pads with zeros at the end. */
  function Resize(s: seq<byte>, size: nat): (r: seq<byte>)
    ensures |r| == size
  {
    if |s| >= size then s[..size] else s + Zeros(size - |s|)
  }

  function Reversed(s: seq<byte>): (r: seq<byte>)
    ensures |r| == |s|
  {
    if s == [] then [] else Reversed(s[1..]) + [s[0]]
  }

  // ----- the codecs -----

  /** The number modulo 256^size in `size` big-endian octets: padded or truncated, never rejected for
      its size. */
  method BigintStringToBeBytes(parse: ParseDecimal, s: string, size: nat) returns (r: Result<seq<byte>, VkParseError>)
    ensures parse(s).None? ==> r == Err(NotANumber(s))
    ensures parse(s).Some? ==> r.Ok? && |r.value| == size && OS2IP(r.value) == parse(s).value % Pow256(size)
  {
    var bigint := parse(s);
    if bigint.None? {
      return Err(NotANumber(s));
    }
    var padded := ToBytesLe(bigint.value);
    padded := Resize(padded, size);
    padded := Reversed(padded);
    ReversedPadded(bigint.value, size);
    OS2IPOfI2OSP(bigint.value, size);
    return Ok(padded);
  }

  /** Both coordinates of an extension-field element.  Their little-endian forms are joined and reversed
      as one, so the second component comes out first. */
  method ProcessG2Component(parse: ParseDecimal, components: seq<string>)
    returns (r: Result<(Bytes32, Bytes32), VkParseError>)
    ensures |components| != 2 ==> r == Err(NotAPair(|components|))
    ensures |components| == 2 ==>
      match (parse(components[0]), parse(components[1]))
      case (None, _) => r == Err(NotANumber(components[0]))
      case (_, None) => r == Err(NotANumber(components[1]))
      case (Some(c0), Some(c1)) =>
        && r.Ok?
        && OS2IP(r.value.0) == c1 % TWO_256
        && OS2IP(r.value.1) == c0 % TWO_256
  {
    assert Pow256(32) == TWO_256 by { Pow256Values(); }
    hide Pow256, OS2IP, I2OSP, Reversed, Resize, ToBytesLe;
    if |components| != 2 {
      return Err(NotAPair(|components|));
    }
    var c0 := parse(components[0]);
    if c0.None? {
      return Err(NotANumber(components[0]));
    }
    var c1 := parse(components[1]);
    if c1.None? {
      return Err(NotANumber(components[1]));
    }
    var c0Padded := Resize(ToBytesLe(c0.value), 32);
    var c1Padded := Resize(ToBytesLe(c1.value), 32);
    var concat: seq<byte> := [];
    concat := concat + c0Padded;
    concat := concat + c1Padded;
    concat := Reversed(concat);
    ReversedAppend(c0Padded, c1Padded);
    assert [] + c0Padded + c1Padded == c0Padded + c1Padded;
    ReversedPadded(c0.value, 32);
    ReversedPadded(c1.value, 32);
    OS2IPOfI2OSP(c0.value, 32);
    OS2IPOfI2OSP(c1.value, 32);
    assert concat[0..32] == I2OSP(c1.value, 32) && concat[32..64] == I2OSP(c0.value, 32);
    return Ok((concat[0..32], concat[32..64]));
  }

  /** A projective point without its last component. */
  function AffineComponents<T>(point: seq<T>): (r: Result<seq<T>, VkParseError>)
    ensures r == Err(EmptyPoint) <==> point == []
    ensures point != [] ==> r.Ok? && point == r.value + [point[|point| - 1]]
  {
    if point == [] then Err(EmptyPoint) else Ok(point[..|point| - 1])
  }

  /** `b` holds the coordinates of `point`, all components but the last, modulo 2^256. */
  ghost predicate IsEncoded(parse: ParseDecimal, point: seq<string>, b: seq<byte>) {
    && |b| == 32 * (|point| - 1)
    && forall i :: 0 <= i < |point| - 1 ==>
         parse(point[i]).Some? && CoordinateAt(b, i) == parse(point[i]).value % TWO_256
  }

  /** The octets of a G1 point: its affine coordinates one behind the other. */
  method G1Bytes(parse: ParseDecimal, point: seq<string>) returns (r: Result<seq<byte>, VkParseError>)
    ensures r.Ok? <==> point != [] && forall i :: 0 <= i < |point| - 1 ==> parse(point[i]).Some?
    ensures r.Ok? ==> IsEncoded(parse, point, r.value)
    ensures point == [] ==> r == Err(EmptyPoint)
    ensures point != [] && r.Err? ==>
      exists i :: 0 <= i < |point| - 1 && r.error == NotANumber(point[i]) && parse(point[i]).None?
        && forall k :: 0 <= k < i ==> parse(point[k]).Some?
  {
    assert Pow256(32) == TWO_256 by { Pow256Values(); }
    hide Pow256, OS2IP, CoordinateAt;
    var affine :- AffineComponents(point);
    assert affine == point[..|point| - 1];
    var bytes: seq<byte> := [];
    for i := 0 to |affine|
      invariant |bytes| == 32 * i
      invariant forall k :: 0 <= k < i ==>
        parse(affine[k]).Some? && CoordinateAt(bytes, k) == parse(affine[k]).value % TWO_256
    {
      assert affine[i] == point[i];
      var component :- BigintStringToBeBytes(parse, affine[i], 32);
      AppendCoordinate(bytes, component, i);
      bytes := bytes + component;
    }
    return Ok(bytes);
  }

  lemma AppendCoordinate(bytes: seq<byte>, component: seq<byte>, i: nat)
    requires |bytes| == 32 * i && |component| == 32
    ensures forall k :: 0 <= k < i ==> CoordinateAt(bytes + component, k) == CoordinateAt(bytes, k)
    ensures CoordinateAt(bytes + component, i) == OS2IP(component)
  {
    forall k | 0 <= k < i
      ensures CoordinateAt(bytes + component, k) == CoordinateAt(bytes, k)
    {
      assert (bytes + component)[32 * k..32 * k + 32] == bytes[32 * k..32 * k + 32];
    }
    assert (bytes + component)[32 * i..32 * i + 32] == component;
  }

  /** The `i`-th coordinate of an encoded point. */
  function CoordinateAt(b: seq<byte>, i: nat): nat {
    if 32 * i + 32 <= |b| then OS2IP(b[32 * i..32 * i + 32]) else 0
  }

  /** The octets generated for a projective point whose decimals are the coordinates of a curve point are
      an encoding of that point, whatever its last component says. */
  lemma GeneratedPointDecodes<G1(!new), G2(!new), GT(!new)>(
    s: Setting<G1, G2, GT>, parse: ParseDecimal, point: seq<string>, b: seq<byte>, x: nat, y: nat)
    requires s.Lawful() && s.Canonical(x, y)
    requires |point| == 3 && parse(point[0]) == Some(x) && parse(point[1]) == Some(y)
    requires IsEncoded(parse, point, b)
    ensures |b| == 64 && s.DecodeG1(b) == Some(s.point(x, y))
  {
    hide CoordinateAt, Setting.Lawful;
    CoordinatesDecode(s, b, x, y);
  }

  lemma CoordinatesDecode<G1(!new), G2(!new), GT(!new)>(s: Setting<G1, G2, GT>, b: Bytes64, x: nat, y: nat)
    requires s.Lawful() && s.Canonical(x, y)
    requires CoordinateAt(b, 0) == x % TWO_256 && CoordinateAt(b, 1) == y % TWO_256
    ensures s.DecodeG1(b) == Some(s.point(x, y))
  {
    assert CoordinateAt(b, 0) == x && CoordinateAt(b, 1) == y;
    hide OS2IP, Pow256, Setting.Lawful;
    assert b[0..32] == b[..32] && b[32..64] == b[32..];
    assert s.CurveAt(x, y) && s.PointAt(x, y) by { PointLaw(s, x, y); }
    OS2IPZeros(32);
    assert Zeros(64)[..32] == Zeros(32) && Zeros(64)[32..] == Zeros(32);
  }

  lemma PointLaw<G1(!new), G2(!new), GT(!new)>(s: Setting<G1, G2, GT>, x: nat, y: nat)
    requires s.Lawful()
    ensures s.CurveAt(x, y) && s.PointAt(x, y)
  {
  }

  // ----- proofs -----

  function DigitsLe(n: nat, size: nat): (s: seq<byte>)
    ensures |s| == size
  {
    if size == 0 then [] else [n % 256] + DigitsLe(n / 256, size - 1)
  }

  lemma {:induction false} DigitsOfZero(size: nat)
    ensures DigitsLe(0, size) == Zeros(size)
  {
    if size == 0 {
    } else {
      DigitsOfZero(size - 1);
      assert Zeros(size) == [0] + Zeros(size - 1);
    }
  }

  lemma {:induction false} ResizeIsDigits(n: nat, size: nat)
    ensures Resize(ToBytesLe(n), size) == DigitsLe(n, size)
    decreases size
  {
    if size == 0 {
    } else if n < 256 {
      DigitsOfZero(size - 1);
    } else {
      ResizeIsDigits(n / 256, size - 1);
      ResizeBehindFirst(n % 256, ToBytesLe(n / 256), size);
    }
  }

  lemma ResizeBehindFirst(d: byte, tail: seq<byte>, size: nat)
    requires size > 0
    ensures Resize([d] + tail, size) == [d] + Resize(tail, size - 1)
  {
  }

  lemma {:induction false} ReversedDigits(n: nat, size: nat)
    ensures Reversed(DigitsLe(n, size)) == I2OSP(n, size)
    decreases size
  {
    if size == 0 {
    } else {
      ReversedDigits(n / 256, size - 1);
      assert DigitsLe(n, size)[1..] == DigitsLe(n / 256, size - 1);
    }
  }

  /** Little-endian octets, padded or cut, and reversed, are the big-endian octets. */
  lemma ReversedPadded(n: nat, size: nat)
    ensures Reversed(Resize(ToBytesLe(n), size)) == I2OSP(n, size)
  {
    ResizeIsDigits(n, size);
    ReversedDigits(n, size);
  }

  lemma {:induction false} ReversedAppend(a: seq<byte>, b: seq<byte>)
    ensures Reversed(a + b) == Reversed(b) + Reversed(a)
    decreases |a|
  {
    if a == [] {
      assert a + b == b;
    } else {
      assert (a + b)[1..] == a[1..] + b;
      ReversedAppend(a[1..], b);
    }
  }
}
