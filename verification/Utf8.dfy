/** Well-formed UTF-8, as table 3-7 of the Unicode Standard defines it. */
module Utf8 {
  import opened ByteStrings

  predicate Continuation(b: byte) {
    0x80 <= b <= 0xBF
  }

  /** The length of the well-formed sequence that `s` starts with, or 0. */
  function SequenceLength(s: seq<byte>): (n: nat)
    ensures n <= 4 && n <= |s|
  {
    if s == [] then 0
    else if s[0] <= 0x7F then 1
    else if 0xC2 <= s[0] <= 0xDF then (if |s| >= 2 && Continuation(s[1]) then 2 else 0)
    else if 0xE0 <= s[0] <= 0xEF then
      (if |s| >= 3 && Continuation(s[1]) && Continuation(s[2])
          && (s[0] == 0xE0 ==> s[1] >= 0xA0) && (s[0] == 0xED ==> s[1] <= 0x9F) then 3 else 0)
    else if 0xF0 <= s[0] <= 0xF4 then
      (if |s| >= 4 && Continuation(s[1]) && Continuation(s[2]) && Continuation(s[3])
          && (s[0] == 0xF0 ==> s[1] >= 0x90) && (s[0] == 0xF4 ==> s[1] <= 0x8F) then 4 else 0)
    else 0
  }

  predicate Valid(s: seq<byte>)
    decreases |s|
  {
    s == [] || (SequenceLength(s) > 0 && Valid(s[SequenceLength(s)..]))
  }

  /** A NUL is never part of a longer sequence, so text is valid exactly when the pieces around it are. */
  lemma {:induction false} ValidAroundNul(a: seq<byte>, b: seq<byte>)
    ensures Valid(a + [0] + b) <==> Valid(a) && Valid(b)
    decreases |a|
  {
    var t := a + [0] + b;
    if a == [] {
      assert t[1..] == b;
    } else {
      var n := SequenceLength(t);
      assert t[0] == a[0];
      assert forall i :: 0 <= i < 4 && i < |t| ==>
        t[i] == if i < |a| then a[i] else if i == |a| then 0 else b[i - |a| - 1];
      assert n <= |a| && SequenceLength(a) == n;
      if n > 0 {
        assert t == a[..n] + (a[n..] + [0] + b);
        assert t[n..] == a[n..] + [0] + b;
        ValidAroundNul(a[n..], b);
      }
    }
  }

  lemma {:induction false} AsciiIsValid(s: seq<byte>)
    requires forall i :: 0 <= i < |s| ==> s[i] <= 0x7F
    ensures Valid(s)
    decreases |s|
  {
    if s == [] {
    } else {
      AsciiIsValid(s[1..]);
    }
  }

  // ----- the encoding of characters -----

  /** A code point other than a surrogate. */
  predicate IsScalar(c: nat) {
    c < 0xD800 || 0xE000 <= c <= 0x10FFFF
  }

  /** Section 3 of RFC 3629. */
  function Encode(c: nat): (s: seq<byte>)
    requires IsScalar(c)
    ensures 1 <= |s| <= 4
  {
    if c <= 0x7F then [c]
    else if c <= 0x7FF then [0xC0 + c / 64, 0x80 + c % 64]
    else if c <= 0xFFFF then [0xE0 + c / 64 / 64, 0x80 + c / 64 % 64, 0x80 + c % 64]
    else [0xF0 + c / 64 / 64 / 64, 0x80 + c / 64 / 64 % 64, 0x80 + c / 64 % 64, 0x80 + c % 64]
  }

  predicate AreScalars(cs: seq<nat>) {
    forall i :: 0 <= i < |cs| ==> IsScalar(cs[i])
  }

  function EncodeAll(cs: seq<nat>): seq<byte>
    requires AreScalars(cs)
  {
    if cs == [] then [] else Encode(cs[0]) + EncodeAll(cs[1..])
  }

  lemma EncodedIsSequence(c: nat, rest: seq<byte>)
    requires IsScalar(c)
    ensures SequenceLength(Encode(c) + rest) == |Encode(c)|
  {
    var t := Encode(c) + rest;
    assert forall i :: 0 <= i < |Encode(c)| ==> t[i] == Encode(c)[i];
  }

  lemma SequenceIsEncoded(s: seq<byte>) returns (c: nat)
    requires SequenceLength(s) > 0
    ensures IsScalar(c) && Encode(c) == s[..SequenceLength(s)]
  {
    var n := SequenceLength(s);
    if n == 1 {
      c := s[0];
    } else if n == 2 {
      c := TwoOctets(s[0], s[1]);
    } else if n == 3 {
      c := ThreeOctets(s[0], s[1], s[2]);
    } else {
      c := FourOctets(s[0], s[1], s[2], s[3]);
    }
  }

  lemma SixBits(p: nat, q: nat)
    requires q < 64
    ensures (64 * p + q) / 64 == p && (64 * p + q) % 64 == q
  {
  }

  lemma TwoOctets(a: byte, b: byte) returns (c: nat)
    requires 0xC2 <= a <= 0xDF && Continuation(b)
    ensures IsScalar(c) && Encode(c) == [a, b]
  {
    var c1 := a - 0xC0;
    c := 64 * c1 + (b - 0x80);
    SixBits(c1, b - 0x80);
  }

  lemma ThreeOctets(a: byte, b: byte, d: byte) returns (c: nat)
    requires 0xE0 <= a <= 0xEF && Continuation(b) && Continuation(d)
    requires (a == 0xE0 ==> b >= 0xA0) && (a == 0xED ==> b <= 0x9F)
    ensures IsScalar(c) && Encode(c) == [a, b, d]
  {
    var c2 := a - 0xE0;
    var c1 := 64 * c2 + (b - 0x80);
    c := 64 * c1 + (d - 0x80);
    SixBits(c2, b - 0x80);
    SixBits(c1, d - 0x80);
  }

  lemma FourOctets(a: byte, b: byte, d: byte, e: byte) returns (c: nat)
    requires 0xF0 <= a <= 0xF4 && Continuation(b) && Continuation(d) && Continuation(e)
    requires (a == 0xF0 ==> b >= 0x90) && (a == 0xF4 ==> b <= 0x8F)
    ensures IsScalar(c) && Encode(c) == [a, b, d, e]
  {
    var c3 := a - 0xF0;
    var c2 := 64 * c3 + (b - 0x80);
    var c1 := 64 * c2 + (d - 0x80);
    c := 64 * c1 + (e - 0x80);
    SixBits(c3, b - 0x80);
    SixBits(c2, d - 0x80);
    SixBits(c1, e - 0x80);
  }

  lemma {:induction false} EncodedIsValid(cs: seq<nat>)
    requires AreScalars(cs)
    ensures Valid(EncodeAll(cs))
  {
    hide Encode, SequenceLength;
    if cs == [] {
    } else {
      EncodedIsValid(cs[1..]);
      EncodedIsSequence(cs[0], EncodeAll(cs[1..]));
      assert EncodeAll(cs)[|Encode(cs[0])|..] == EncodeAll(cs[1..]);
    }
  }

  lemma {:induction false} ValidIsEncoded(s: seq<byte>) returns (cs: seq<nat>)
    requires Valid(s)
    ensures AreScalars(cs) && EncodeAll(cs) == s
    decreases |s|
  {
    hide Encode, SequenceLength;
    if s == [] {
      cs := [];
    } else {
      var n := SequenceLength(s);
      var c := SequenceIsEncoded(s);
      var rest := ValidIsEncoded(s[n..]);
      cs := [c] + rest;
      assert cs[1..] == rest && s == s[..n] + s[n..];
    }
  }

  /** The well-formed strings are exactly the encodings of characters. */
  lemma ValidExactly(s: seq<byte>)
    ensures Valid(s) <==> exists cs: seq<nat> :: AreScalars(cs) && EncodeAll(cs) == s
  {
    if Valid(s) {
      var cs := ValidIsEncoded(s);
    }
    if cs: seq<nat> :| AreScalars(cs) && EncodeAll(cs) == s {
      EncodedIsValid(cs);
    }
  }
}
