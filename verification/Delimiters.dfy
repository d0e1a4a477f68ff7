/** Searching for delimiters, and texts made of NUL-terminated pieces.  A delimiter's only NUL is its last
    octet, so an occurrence can neither straddle the start of another nor reach across a piece's end. */
module Delimiters {
  import opened Wrappers
  import opened ByteStrings

  predicate OccursAt(h: seq<byte>, i: nat, needle: seq<byte>) {
    i + |needle| <= |h| && h[i..i + |needle|] == needle
  }

  predicate Occurs(h: seq<byte>, needle: seq<byte>) {
    exists i: nat :: i <= |h| && OccursAt(h, i, needle)
  }

  /** The position of the first window of the haystack that equals the needle. */
  function FindBytes(h: seq<byte>, needle: seq<byte>): (r: Option<nat>)
    requires needle != []
    ensures r.Some? ==> r.value + |needle| <= |h|
  {
    FindFrom(h, needle, 0)
  }

  function FindFrom(h: seq<byte>, needle: seq<byte>, from: nat): (r: Option<nat>)
    requires needle != [] && from <= |h|
    ensures r.Some? ==> from <= r.value && r.value + |needle| <= |h|
    decreases |h| - from
  {
    if from + |needle| > |h| then None
    else if h[from..from + |needle|] == needle then Some(from)
    else FindFrom(h, needle, from + 1)
  }

  lemma {:induction false} FindFromFirst(h: seq<byte>, needle: seq<byte>, from: nat)
    requires needle != [] && from <= |h|
    ensures match FindFrom(h, needle, from)
      case Some(at) => OccursAt(h, at, needle) && forall i: nat :: from <= i < at ==> !OccursAt(h, i, needle)
      case None => forall i: nat :: from <= i ==> !OccursAt(h, i, needle)
    decreases |h| - from
  {
    if from + |needle| <= |h| && h[from..from + |needle|] != needle {
      FindFromFirst(h, needle, from + 1);
      assert !OccursAt(h, from, needle);
    }
  }

  /** What is found occurs, and nothing before it does; nothing is found only if nothing occurs. */
  lemma FindsFirst(h: seq<byte>, needle: seq<byte>)
    requires needle != []
    ensures match FindBytes(h, needle)
      case Some(at) => OccursAt(h, at, needle) && forall i: nat :: i < at ==> !OccursAt(h, i, needle)
      case None => !Occurs(h, needle)
  {
    FindFromFirst(h, needle, 0);
  }

  lemma FindsNothing(h: seq<byte>, needle: seq<byte>)
    requires needle != [] && !Occurs(h, needle)
    ensures FindBytes(h, needle) == None
  {
    FindsFirst(h, needle);
  }

  predicate NulFree(s: seq<byte>) {
    forall i :: 0 <= i < |s| ==> s[i] != 0
  }

  /** `text` and a final NUL, the only one. */
  predicate IsDelimiter(d: seq<byte>, text: seq<byte>) {
    d == text + [0] && NulFree(text)
  }

  predicate EndsWith(s: seq<byte>, t: seq<byte>) {
    |t| <= |s| && s[|s| - |t|..] == t
  }

  lemma OccurrenceHasNul(h: seq<byte>, i: nat, d: seq<byte>, text: seq<byte>)
    requires IsDelimiter(d, text) && OccursAt(h, i, d)
    ensures h[i + |text|] == 0
    ensures forall k :: i <= k < i + |text| ==> h[k] == text[k - i]
  {
    var w := h[i..i + |d|];
    assert w[|text|] == h[i + |text|];
    forall k | i <= k < i + |text|
      ensures h[k] == text[k - i]
    {
      assert w[k - i] == h[k];
    }
  }

  /** An occurrence that starts in the gap ends in it. */
  lemma OccurrenceInGap(gap: seq<byte>, d: seq<byte>, text: seq<byte>, rest: seq<byte>, i: nat)
    requires IsDelimiter(d, text) && i < |gap|
    requires OccursAt(gap + d + rest, i, d)
    ensures OccursAt(gap, i, d)
  {
    var h, last := gap + d + rest, i + |text|;
    OccurrenceHasNul(h, i, d, text);
    assert gap[i..i + |d|] == h[i..i + |d|];
  }

  /** Behind a stretch without the delimiter, the first occurrence is the one that follows. */
  lemma NoStraddle(gap: seq<byte>, d: seq<byte>, text: seq<byte>, rest: seq<byte>)
    requires IsDelimiter(d, text) && !Occurs(gap, d)
    ensures FindBytes(gap + d + rest, d) == Some(|gap|)
  {
    var h := gap + d + rest;
    assert OccursAt(h, |gap|, d);
    var r := FindBytes(h, d);
    FindsFirst(h, d);
    assert r.Some? && r.value <= |gap|;
    if r.value < |gap| {
      OccurrenceInGap(gap, d, text, rest, r.value);
    }
  }

  // ----- NUL-terminated pieces -----

  function Terminated(ps: seq<seq<byte>>): seq<byte> {
    if ps == [] then [] else ps[0] + [0] + Terminated(ps[1..])
  }

  /** An occurrence that starts in a piece is that piece's end. */
  lemma OccurrenceInPiece(p: seq<byte>, rest: seq<byte>, d: seq<byte>, text: seq<byte>, i: nat)
    requires IsDelimiter(d, text) && NulFree(p)
    requires OccursAt(p + [0] + rest, i, d)
    ensures (i + |d| == |p| + 1 && EndsWith(p, text)) || Occurs(rest, d)
  {
    var t := p + [0] + rest;
    if i > |p| {
      assert t[i..i + |d|] == rest[i - |p| - 1..i - |p| - 1 + |d|];
      assert OccursAt(rest, i - |p| - 1, d);
    } else {
      OccurrenceHasNul(t, i, d, text);
      assert t[|p|] == 0;
      assert i + |text| == |p|;
      assert p[i..] == t[i..|p|] == text;
    }
  }

  lemma {:induction false} NoneInTerminated(ps: seq<seq<byte>>, d: seq<byte>, text: seq<byte>)
    requires IsDelimiter(d, text)
    requires forall k :: 0 <= k < |ps| ==> NulFree(ps[k]) && !EndsWith(ps[k], text)
    ensures !Occurs(Terminated(ps), d)
  {
    if ps == [] {
    } else {
      NoneInTerminated(ps[1..], d, text);
      forall i: nat | OccursAt(Terminated(ps), i, d)
        ensures false
      {
        OccurrenceInPiece(ps[0], Terminated(ps[1..]), d, text, i);
      }
    }
  }

  lemma NoneInNulFree(s: seq<byte>, d: seq<byte>, text: seq<byte>)
    requires IsDelimiter(d, text) && NulFree(s)
    ensures !Occurs(s, d)
  {
    forall i: nat | OccursAt(s, i, d)
      ensures false
    {
      OccurrenceHasNul(s, i, d, text);
    }
  }

  /** One piece and the beginning of the next hold no delimiter that the piece does not end with. */
  lemma NoneInPieceAndTail(p: seq<byte>, tail: seq<byte>, d: seq<byte>, text: seq<byte>)
    requires IsDelimiter(d, text) && NulFree(p) && !EndsWith(p, text) && NulFree(tail)
    ensures !Occurs(p + [0] + tail, d)
  {
    NoneInNulFree(tail, d, text);
    forall i: nat | OccursAt(p + [0] + tail, i, d)
      ensures false
    {
      OccurrenceInPiece(p, tail, d, text, i);
    }
  }

  // ----- splitting at NULs -----

  /** The pieces between NULs; one more than there are NULs. */
  function SplitNul(t: seq<byte>): (ps: seq<seq<byte>>)
    ensures |ps| >= 1
    ensures forall k :: 0 <= k < |ps| ==> NulFree(ps[k])
  {
    if t == [] then [[]]
    else if t[0] == 0 then [[]] + SplitNul(t[1..])
    else
      var ps := SplitNul(t[1..]);
      [[t[0]] + ps[0]] + ps[1..]
  }

  lemma {:induction false} SplitPiece(p: seq<byte>, rest: seq<byte>)
    requires NulFree(p)
    ensures SplitNul(p + [0] + rest) == [p] + SplitNul(rest)
    decreases |p|
  {
    var t := p + [0] + rest;
    if p == [] {
      assert t[1..] == rest;
    } else {
      assert t[1..] == p[1..] + [0] + rest && t[0] == p[0];
      SplitPiece(p[1..], rest);
      assert [p[0]] + p[1..] == p;
    }
  }

  lemma {:induction false} SplitLast(p: seq<byte>)
    requires NulFree(p)
    ensures SplitNul(p) == [p]
  {
    if p == [] {
    } else {
      SplitLast(p[1..]);
      assert [p[0]] + p[1..] == p;
    }
  }

  /** Splitting NUL-terminated pieces gives the pieces and an empty rest. */
  lemma {:induction false} SplitTerminated(ps: seq<seq<byte>>)
    requires forall k :: 0 <= k < |ps| ==> NulFree(ps[k])
    ensures SplitNul(Terminated(ps)) == ps + [[]]
  {
    if ps == [] {
    } else {
      SplitTerminated(ps[1..]);
      SplitPiece(ps[0], Terminated(ps[1..]));
      assert ps == [ps[0]] + ps[1..];
    }
  }

  function JoinNul(ps: seq<seq<byte>>): seq<byte>
    requires ps != []
  {
    if |ps| == 1 then ps[0] else ps[0] + [0] + JoinNul(ps[1..])
  }

  /** The pieces are the one sequence of NUL-free texts that gives the text when joined by NULs. */
  lemma {:induction false} SplitExact(t: seq<byte>, ps: seq<seq<byte>>)
    requires ps != [] && JoinNul(ps) == t && forall k :: 0 <= k < |ps| ==> NulFree(ps[k])
    ensures SplitNul(t) == ps
    decreases |ps|
  {
    if |ps| == 1 {
      SplitLast(ps[0]);
    } else {
      SplitExact(JoinNul(ps[1..]), ps[1..]);
      SplitPiece(ps[0], JoinNul(ps[1..]));
    }
  }

  /** A text whose last piece is empty consists of its other pieces, each terminated. */
  lemma {:induction false} TerminatedSplit(t: seq<byte>)
    requires SplitNul(t)[|SplitNul(t)| - 1] == []
    ensures Terminated(SplitNul(t)[..|SplitNul(t)| - 1]) == t
  {
    var ps := SplitNul(t);
    if t == [] {
    } else {
      var rest := SplitNul(t[1..]);
      assert rest[|rest| - 1] == [];
      TerminatedSplit(t[1..]);
      var init, init' := ps[..|ps| - 1], rest[..|rest| - 1];
      if t[0] == 0 {
        assert init == [[]] + init';
        assert init[1..] == init';
      } else {
        assert init' != [];
        assert init == [[t[0]] + init'[0]] + init'[1..];
        assert init[1..] == init'[1..];
        assert Terminated(init) == [t[0]] + (init'[0] + [0] + Terminated(init'[1..]));
      }
    }
  }
}
