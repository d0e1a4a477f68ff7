/** The binary form of a gnark verifying key: the documented layout as a serializer, the format that the
    parser accepts as a function of fixed positions, and the cursor parser proved against it. */
module GnarkVk {
  import opened Wrappers
  import opened ByteStrings
  import opened Groth16Errors
  import opened VerifyingKeys
  import opened Groth16

  type ParseResult = Result<VerifyingKey, Groth16Error>

  const MALFORMED: Groth16Error := Bsb22InvalidVerifyingKeyBinary

  // ----- the documented layout -----

  /** A key as gnark writes it, with the sections the verifier has no use for. */
  datatype GnarkKey = GnarkKey(
    alphaG1: Bytes64,
    betaG1: Bytes64,
    betaG2: Bytes128,
    gammaG2: Bytes128,
    deltaG1: Bytes64,
    deltaG2: Bytes128,
    k: seq<Bytes64>,
    committed: seq<seq<u64>>,
    commitmentKeys: seq<CommitmentVerifyingKey>)
  {
    /** The counts fit their 32-bit fields. */
    predicate Writable() {
      && |k| < 0x1_0000_0000 && |committed| < 0x1_0000_0000 && |commitmentKeys| < 0x1_0000_0000
      && forall i :: 0 <= i < |committed| ==> |committed[i]| < 0x1_0000_0000
    }
  }

  function U32(n: nat): (s: seq<byte>)
    ensures |s| == 4
  {
    I2OSP(n, 4)
  }

  function Points(ps: seq<Bytes64>): (s: seq<byte>)
    ensures |s| == 64 * |ps|
  {
    if ps == [] then [] else ps[0] + Points(ps[1..])
  }

  function Wires(ws: seq<u64>): seq<byte> {
    if ws == [] then [] else I2OSP(ws[0], 8) + Wires(ws[1..])
  }

  function Committed(cs: seq<seq<u64>>): seq<byte> {
    if cs == [] then [] else U32(|cs[0]|) + Wires(cs[0]) + Committed(cs[1..])
  }

  function CommitmentKeys(keys: seq<CommitmentVerifyingKey>): seq<byte> {
    if keys == [] then [] else keys[0].g2 + keys[0].gSigmaNegG2 + CommitmentKeys(keys[1..])
  }

  function Head(key: GnarkKey): (s: seq<byte>)
    ensures |s| == 576
  {
    key.alphaG1 + key.betaG1 + key.betaG2 + key.gammaG2 + key.deltaG1 + key.deltaG2
  }

  function Trailer(key: GnarkKey): seq<byte> {
    U32(|key.committed|) + Committed(key.committed) + U32(|key.commitmentKeys|) + CommitmentKeys(key.commitmentKeys)
  }

  function Serialize(key: GnarkKey): seq<byte> {
    Head(key) + U32(|key.k|) + Points(key.k) + Trailer(key)
  }

  /** What the parser makes of a key that gnark wrote. */
  function Supported(key: GnarkKey): ParseResult {
    if key.k == [] then Err(MALFORMED)
    else if |key.committed| > 1 then Err(Bsb22UnsupportedMultiCommitment)
    else if |key.committed| == 1 && key.committed[0] != [] then Err(Bsb22CommittedPublicInputsUnsupported)
    else if |key.commitmentKeys| > 1 then Err(Bsb22UnsupportedMultiCommitment)
    else if |key.commitmentKeys| != |key.committed| then Err(MALFORMED)
    else if |key.commitmentKeys| == 1 && |key.k| < 2 then Err(MALFORMED)
    else
      Ok(VerifyingKey(|key.k| - 1 - |key.commitmentKeys|, key.alphaG1, key.betaG2, key.gammaG2, key.deltaG2, key.k,
                      if key.commitmentKeys == [] then None else Some(key.commitmentKeys[0])))
  }

  /** The gnark key of a verifying key, given the two points that the verifier drops. */
  function Unparsed(vk: VerifyingKey, betaG1: Bytes64, deltaG1: Bytes64): GnarkKey {
    var (committed, keys) := match vk.commitment case None => ([], []) case Some(key) => ([[]], [key]);
    GnarkKey(vk.alphaG1, betaG1, vk.betaG2, vk.gammaG2, deltaG1, vk.deltaG2, vk.ic, committed, keys)
  }

  // ----- the accepted format -----

  function ReadU32(b: seq<byte>, at: nat): (n: nat)
    requires at + 4 <= |b|
    ensures n < 0x1_0000_0000
  {
    OS2IPBound(b[at..at + 4]);
    assert Pow256(4) == 0x1_0000_0000;
    OS2IP(b[at..at + 4])
  }

  /** Consecutive 64-octet points. */
  function Split64(b: seq<byte>, n: nat): (ps: seq<Bytes64>)
    requires |b| == 64 * n
    ensures |ps| == n
  {
    if n == 0 then [] else [b[..64]] + Split64(b[64..], n - 1)
  }

  /** Everything behind the K columns. */
  function ParseTrailer(t: seq<byte>): Result<Option<CommitmentVerifyingKey>, Groth16Error> {
    if |t| < 4 then Err(MALFORMED)
    else
      var outerLen := ReadU32(t, 0);
      if outerLen > 1 then Err(Bsb22UnsupportedMultiCommitment)
      else if outerLen == 1 && |t| < 8 then Err(MALFORMED)
      else if outerLen == 1 && ReadU32(t, 4) != 0 then Err(Bsb22CommittedPublicInputsUnsupported)
      else
        var at := 4 + 4 * outerLen;
        if |t| < at + 4 then Err(MALFORMED)
        else
          var nbKeys := ReadU32(t, at);
          if nbKeys > 1 then Err(Bsb22UnsupportedMultiCommitment)
          else if nbKeys != outerLen || |t| != at + 4 + 256 * nbKeys then Err(MALFORMED)
          else if nbKeys == 0 then Ok(None)
          else Ok(Some(CommitmentVerifyingKey(t[at + 4..at + 132], t[at + 132..at + 260])))
  }

  function Parse(b: seq<byte>): ParseResult {
    if |b| < 580 then Err(MALFORMED)
    else
      var nbK := ReadU32(b, 576);
      if nbK == 0 || nbK > (|b| - 580) / 64 then Err(MALFORMED)
      else
        match ParseTrailer(b[580 + 64 * nbK..])
        case Err(e) => Err(e)
        case Ok(commitment) =>
          var nbKeys := if commitment.Some? then 1 else 0;
          if nbK < 1 + nbKeys then Err(MALFORMED)
          else
            Ok(VerifyingKey(nbK - 1 - nbKeys, b[0..64], b[128..256], b[256..384], b[448..576],
                            Split64(b[580..580 + 64 * nbK], nbK), commitment))
  }

  // ----- the parser -----

  class Cursor {
    const buf: seq<byte>
    var pos: nat

    constructor (buf: seq<byte>)
      ensures this.buf == buf && pos == 0
    {
      this.buf := buf;
      pos := 0;
    }

    /** Either the next `n` octets, or an error and no movement. */
    method Take(n: nat) returns (r: Result<seq<byte>, Groth16Error>)
      requires pos <= |buf|
      modifies this
      ensures pos <= |buf|
      ensures if old(pos) + n <= |buf|
        then pos == old(pos) + n && r == Ok(buf[old(pos)..pos])
        else pos == old(pos) && r == Err(MALFORMED)
    {
      var end := pos + n;
      if end > |buf| {
        return Err(MALFORMED);
      }
      var out := buf[pos..end];
      pos := end;
      return Ok(out);
    }

    function Remaining(): (n: nat)
      requires pos <= |buf|
      reads this
    {
      |buf| - pos
    }

    method Take64() returns (r: Result<Bytes64, Groth16Error>)
      requires pos <= |buf|
      modifies this
      ensures pos <= |buf|
      ensures if old(pos) + 64 <= |buf|
        then pos == old(pos) + 64 && r == Ok(buf[old(pos)..pos])
        else pos == old(pos) && r == Err(MALFORMED)
    {
      var s :- Take(64);
      return Ok(s);
    }

    method Take128() returns (r: Result<Bytes128, Groth16Error>)
      requires pos <= |buf|
      modifies this
      ensures pos <= |buf|
      ensures if old(pos) + 128 <= |buf|
        then pos == old(pos) + 128 && r == Ok(buf[old(pos)..pos])
        else pos == old(pos) && r == Err(MALFORMED)
    {
      var s :- Take(128);
      return Ok(s);
    }

    method TakeU32() returns (r: Result<nat, Groth16Error>)
      requires pos <= |buf|
      modifies this
      ensures pos <= |buf|
      ensures if old(pos) + 4 <= |buf|
        then pos == old(pos) + 4 && r == Ok(ReadU32(buf, old(pos)))
        else pos == old(pos) && r == Err(MALFORMED)
    {
      var s :- Take(4);
      return Ok(OS2IP(s));
    }
  }

  /** The six points in front of the K columns. */
  datatype HeadPoints = HeadPoints(alphaG1: Bytes64, betaG2: Bytes128, gammaG2: Bytes128, deltaG2: Bytes128)

  method ParseHead(cursor: Cursor) returns (r: Result<HeadPoints, Groth16Error>)
    requires cursor.pos == 0
    modifies cursor
    ensures cursor.pos <= |cursor.buf|
    ensures |cursor.buf| < 576 ==> r == Err(MALFORMED)
    ensures |cursor.buf| >= 576 ==>
      && cursor.pos == 576
      && r == Ok(HeadPoints(cursor.buf[0..64], cursor.buf[128..256], cursor.buf[256..384], cursor.buf[448..576]))
  {
    var alphaG1 :- cursor.Take64();
    var _ :- cursor.Take(64);
    var betaG2 :- cursor.Take128();
    var gammaG2 :- cursor.Take128();
    var _ :- cursor.Take(64);
    var deltaG2 :- cursor.Take128();
    return Ok(HeadPoints(alphaG1, betaG2, gammaG2, deltaG2));
  }

  /** Reading behind a position is reading in the suffix that starts there. */
  lemma SuffixRead(b: seq<byte>, base: nat)
    requires base <= |b|
    ensures forall at: nat :: base + at + 4 <= |b| ==> ReadU32(b[base..], at) == ReadU32(b, base + at)
  {
    forall at: nat | base + at + 4 <= |b|
      ensures ReadU32(b[base..], at) == ReadU32(b, base + at)
    {
      assert b[base..][at..at + 4] == b[base + at..base + at + 4];
    }
  }

  /** The lockstep sections behind the K columns, up to the end of the buffer. */
  method ParseTail(cursor: Cursor) returns (r: Result<Option<CommitmentVerifyingKey>, Groth16Error>)
    requires cursor.pos <= |cursor.buf|
    modifies cursor
    ensures r == ParseTrailer(cursor.buf[old(cursor.pos)..])
  {
    hide ReadU32;
    ghost var t, base := cursor.buf[cursor.pos..], cursor.pos;
    SuffixRead(cursor.buf, base);
    var outerLen :- cursor.TakeU32();
    if outerLen > 1 {
      return Err(Bsb22UnsupportedMultiCommitment);
    }
    for k := 0 to outerLen
      invariant cursor.pos == base + 4 + 4 * k <= |cursor.buf|
      invariant k == 1 ==> ReadU32(t, 4) == 0
    {
      var innerLen :- cursor.TakeU32();
      if innerLen != 0 {
        return Err(Bsb22CommittedPublicInputsUnsupported);
      }
    }
    var nbKeys :- cursor.TakeU32();
    if nbKeys > 1 {
      return Err(Bsb22UnsupportedMultiCommitment);
    }
    if nbKeys != outerLen {
      return Err(MALFORMED);
    }
    var commitment := None;
    if nbKeys == 1 {
      var g2 :- cursor.Take128();
      var gSigmaNegG2 :- cursor.Take128();
      assert t[12..140] == g2 && t[140..268] == gSigmaNegG2;
      commitment := Some(CommitmentVerifyingKey(g2, gSigmaNegG2));
    }
    if cursor.pos != |cursor.buf| {
      return Err(MALFORMED);
    }
    return Ok(commitment);
  }

  /** Reads as many points as the caller has made sure are there. */
  method ReadColumns(cursor: Cursor, nbK: nat) returns (ic: seq<Bytes64>)
    requires cursor.pos + 64 * nbK <= |cursor.buf|
    modifies cursor
    ensures cursor.pos == old(cursor.pos) + 64 * nbK
    ensures ic == Split64(cursor.buf[old(cursor.pos)..cursor.pos], nbK)
  {
    ghost var rest := cursor.buf[cursor.pos..cursor.pos + 64 * nbK];
    ghost var end, columns := cursor.pos + 64 * nbK, rest;
    ic := [];
    for i := 0 to nbK
      invariant cursor.pos + |rest| == end <= |cursor.buf| && |rest| == 64 * (nbK - i)
      invariant rest == cursor.buf[cursor.pos..end]
      invariant |ic| == i && ic + Split64(rest, nbK - i) == Split64(columns, nbK)
    {
      var point := cursor.Take64();
      assert point.value == rest[..64];
      ghost var behind := Split64(rest[64..], nbK - i - 1);
      assert ic + ([rest[..64]] + behind) == ic + [rest[..64]] + behind;
      rest := rest[64..];
      ic := ic + [point.value];
    }
  }

  /** `capacity` is what is reserved for the K columns before they are read. */
  method ParseGnarkVkBytes(bytes: seq<byte>) returns (r: ParseResult, ghost capacity: nat)
    ensures r == Parse(bytes)
    ensures capacity > 0 ==> 580 + 64 * capacity <= |bytes|
    ensures r.Ok? ==> |r.value.ic| == capacity
  {
    hide ReadU32, ParseTrailer, Split64;
    capacity := 0;
    var cursor := new Cursor(bytes);
    var head := ParseHead(cursor);
    if head.Err? {
      return Err(head.error), capacity;
    }
    var count := cursor.TakeU32();
    if count.Err? {
      return Err(count.error), capacity;
    }
    var nbK := count.value;
    if nbK == 0 {
      return Err(MALFORMED), capacity;
    }
    if nbK > cursor.Remaining() / 64 {
      return Err(MALFORMED), capacity;
    }
    capacity := nbK;
    var ic := ReadColumns(cursor, nbK);
    var commitment := ParseTail(cursor);
    if commitment.Err? {
      return Err(commitment.error), capacity;
    }
    var nrPubinputs;
    if commitment.value.Some? {
      if nbK < 2 {
        return Err(MALFORMED), capacity;
      }
      nrPubinputs := nbK - 2;
    } else {
      nrPubinputs := nbK - 1;
    }
    var h := head.value;
    return Ok(VerifyingKey(nrPubinputs, h.alphaG1, h.betaG2, h.gammaG2, h.deltaG2, ic, commitment.value)), capacity;
  }

  // ----- the parser and the layout undo each other -----

  lemma U32Value(n: nat)
    requires n < 0x1_0000_0000
    ensures OS2IP(U32(n)) == n
  {
    assert Pow256(4) == 0x1_0000_0000;
    I2OSPRoundTrip(n, 4);
  }

  lemma ReadBack(a: seq<byte>, n: nat, c: seq<byte>)
    requires n < 0x1_0000_0000
    ensures ReadU32(a + U32(n) + c, |a|) == n
  {
    assert (a + U32(n) + c)[|a|..|a| + 4] == U32(n);
    U32Value(n);
  }

  lemma {:induction false} SplitPoints(ps: seq<Bytes64>)
    ensures Split64(Points(ps), |ps|) == ps
  {
    if ps == [] {
    } else {
      SplitPoints(ps[1..]);
      assert Points(ps)[..64] == ps[0] && Points(ps)[64..] == Points(ps[1..]);
      assert ps == [ps[0]] + ps[1..];
    }
  }

  lemma {:induction false} PointsOfSplit(b: seq<byte>, n: nat)
    requires |b| == 64 * n
    ensures Points(Split64(b, n)) == b
    decreases n
  {
    if n == 0 {
    } else {
      PointsOfSplit(b[64..], n - 1);
      assert Split64(b, n)[1..] == Split64(b[64..], n - 1);
      assert b == b[..64] + b[64..];
    }
  }

  /** What the parser of the trailing sections makes of any trailer that gnark can write. */
  lemma TrailerOfSerialized(key: GnarkKey)
    requires key.Writable() && key.k != []
    ensures ParseTrailer(Trailer(key)) ==
      if |key.committed| > 1 then Err(Bsb22UnsupportedMultiCommitment)
      else if |key.committed| == 1 && key.committed[0] != [] then Err(Bsb22CommittedPublicInputsUnsupported)
      else if |key.commitmentKeys| > 1 then Err(Bsb22UnsupportedMultiCommitment)
      else if |key.commitmentKeys| != |key.committed| then Err(MALFORMED)
      else Ok(if key.commitmentKeys == [] then None else Some(key.commitmentKeys[0]))
  {
    hide ReadU32, U32, Wires;
    var cs := key.committed;
    ReadOuter(key);
    if |cs| == 1 {
      ReadInner(key);
    }
    if cs == [] || cs == [[]] {
      ReadKeys(key);
    }
  }

  lemma ReadOuter(key: GnarkKey)
    requires key.Writable()
    ensures |Trailer(key)| >= 8 && ReadU32(Trailer(key), 0) == |key.committed|
  {
    hide ReadU32, U32;
    var rest := Committed(key.committed) + U32(|key.commitmentKeys|) + CommitmentKeys(key.commitmentKeys);
    assert Trailer(key) == [] + U32(|key.committed|) + rest;
    ReadBack([], |key.committed|, rest);
  }

  lemma ReadInner(key: GnarkKey)
    requires key.Writable() && |key.committed| == 1
    ensures |Trailer(key)| >= 12 && ReadU32(Trailer(key), 4) == |key.committed[0]|
  {
    hide ReadU32, U32, Wires;
    var wires := key.committed[0];
    var rest := Wires(wires) + Committed([]) + U32(|key.commitmentKeys|) + CommitmentKeys(key.commitmentKeys);
    assert key.committed[1..] == [];
    assert Trailer(key) == U32(1) + U32(|wires|) + rest;
    ReadBack(U32(1), |wires|, rest);
  }

  lemma ReadKeys(key: GnarkKey)
    requires key.Writable() && (key.committed == [] || key.committed == [[]])
    ensures var t, keys, at := Trailer(key), key.commitmentKeys, 4 + 4 * |key.committed|;
      && |t| == at + 4 + |CommitmentKeys(keys)|
      && ReadU32(t, at) == |keys|
      && (keys == [] ==> |t| == at + 4)
      && (|keys| == 1 ==>
           |t| == at + 260 && t[at + 4..at + 132] == keys[0].g2 && t[at + 132..at + 260] == keys[0].gSigmaNegG2)
  {
    hide ReadU32, U32;
    var keys := key.commitmentKeys;
    var front := U32(|key.committed|) + Committed(key.committed);
    assert |Committed(key.committed)| == 4 * |key.committed|;
    assert Trailer(key) == front + U32(|keys|) + CommitmentKeys(keys);
    ReadBack(front, |keys|, CommitmentKeys(keys));
    if |keys| == 1 {
      assert keys[1..] == [] && CommitmentKeys([]) == [];
      assert CommitmentKeys(keys) == keys[0].g2 + keys[0].gSigmaNegG2;
    }
  }

  /** Every key that gnark can write is either parsed to the key it describes, or rejected with the error
      for the feature it uses. */
  lemma ParseOfSerialized(key: GnarkKey)
    requires key.Writable()
    ensures Parse(Serialize(key)) == Supported(key)
  {
    hide ReadU32, U32, ParseTrailer, Trailer, Split64, Points;
    var b, n := Serialize(key), |key.k|;
    assert b == Head(key) + U32(n) + (Points(key.k) + Trailer(key));
    ReadBack(Head(key), n, Points(key.k) + Trailer(key));
    assert |Trailer(key)| >= 4 by { ReadOuter(key); }
    if n > 0 {
      SplitPoints(key.k);
      TrailerOfSerialized(key);
      SerializedParts(key);
    }
  }

  /** The same case by case: which written keys are accepted and as what, and which error names the reason
      for each of the others. */
  lemma WrittenKeys(key: GnarkKey)
    requires key.Writable()
    ensures Parse(Serialize(key)) == Err(Bsb22UnsupportedMultiCommitment) <==>
      && key.k != []
      && (|key.committed| > 1 || ((key.committed == [] || key.committed == [[]]) && |key.commitmentKeys| > 1))
    ensures Parse(Serialize(key)) == Err(Bsb22CommittedPublicInputsUnsupported) <==>
      key.k != [] && |key.committed| == 1 && key.committed[0] != []
    ensures Parse(Serialize(key)) == Err(Bsb22InvalidVerifyingKeyBinary) <==>
      || key.k == []
      || (key.committed == [] && |key.commitmentKeys| == 1)
      || (key.committed == [[]] && key.commitmentKeys == [])
      || (key.committed == [[]] && |key.commitmentKeys| == 1 && |key.k| == 1)
    ensures key.k != [] && key.committed == [] && key.commitmentKeys == [] ==>
      Parse(Serialize(key)) == Ok(VerifyingKey(
        |key.k| - 1, key.alphaG1, key.betaG2, key.gammaG2, key.deltaG2, key.k, None))
    ensures |key.k| >= 2 && key.committed == [[]] && |key.commitmentKeys| == 1 ==>
      Parse(Serialize(key)) == Ok(VerifyingKey(
        |key.k| - 2, key.alphaG1, key.betaG2, key.gammaG2, key.deltaG2, key.k, Some(key.commitmentKeys[0])))
  {
    hide Parse, Serialize;
    ParseOfSerialized(key);
  }

  lemma SerializedParts(key: GnarkKey)
    ensures var b, at := Serialize(key), 580 + 64 * |key.k|;
      && |b| == at + |Trailer(key)|
      && b[580..at] == Points(key.k) && b[at..] == Trailer(key)
      && b[0..64] == key.alphaG1 && b[128..256] == key.betaG2
      && b[256..384] == key.gammaG2 && b[448..576] == key.deltaG2
  {
    hide U32, Trailer, Points;
    var b := Serialize(key);
    assert b[..576] == Head(key);
    assert Head(key)[0..64] == key.alphaG1 && Head(key)[128..256] == key.betaG2;
    assert Head(key)[256..384] == key.gammaG2 && Head(key)[448..576] == key.deltaG2;
    assert b[0..64] == b[..576][0..64] && b[128..256] == b[..576][128..256];
    assert b[256..384] == b[..576][256..384] && b[448..576] == b[..576][448..576];
  }

  lemma U32OfValue(b: seq<byte>, at: nat)
    requires at + 4 <= |b|
    ensures U32(ReadU32(b, at)) == b[at..at + 4]
  {
    I2OSPOfOS2IP(b[at..at + 4]);
  }

  /** An accepted trailer is the one that gnark writes for its result. */
  lemma TrailerOfAccepted(t: seq<byte>, commitment: Option<CommitmentVerifyingKey>, key: GnarkKey)
    requires ParseTrailer(t) == Ok(commitment)
    requires match commitment
      case None => key.committed == [] && key.commitmentKeys == []
      case Some(ck) => key.committed == [[]] && key.commitmentKeys == [ck]
    ensures Trailer(key) == t
  {
    hide ReadU32, U32;
    U32OfValue(t, 0);
    if commitment.Some? {
      U32OfValue(t, 4);
      U32OfValue(t, 8);
      assert Committed(key.committed) == U32(0) + Wires([]) + Committed([]);
      assert CommitmentKeys(key.commitmentKeys) == t[12..140] + t[140..268] + [];
      assert t == t[0..4] + t[4..8] + t[8..12] + (t[12..140] + t[140..268]);
    } else {
      U32OfValue(t, 4);
      assert t == t[0..4] + t[4..8];
    }
  }

  /** An accepted buffer is the serialization of its result with the two points that the parser skips. */
  lemma SerializeOfParsed(b: seq<byte>, vk: VerifyingKey)
    requires Parse(b) == Ok(vk)
    ensures Serialize(Unparsed(vk, b[64..128], b[384..448])) == b
    ensures Unparsed(vk, b[64..128], b[384..448]).Writable()
  {
    hide ReadU32, U32, ParseTrailer, Trailer, Split64, Points;
    var key, n := Unparsed(vk, b[64..128], b[384..448]), |vk.ic|;
    U32OfValue(b, 576);
    PointsOfSplit(b[580..580 + 64 * n], n);
    TrailerOfAccepted(b[580 + 64 * n..], vk.commitment, key);
    assert Head(key) == b[..576];
    assert b == b[..576] + b[576..580] + b[580..580 + 64 * n] + b[580 + 64 * n..];
  }

  // ----- which error, for every buffer -----

  /** Where the sections behind the columns start, going by the announced number of columns. */
  function TrailerAt(b: seq<byte>): nat {
    if |b| < 580 then 0 else 580 + 64 * OS2IP(b[576..580])
  }

  /** There is at least one column, and a 32-bit number behind the columns. */
  predicate HoldsColumns(b: seq<byte>) {
    TrailerAt(b) > 580 && |b| >= TrailerAt(b) + 4
  }

  /** More than one list of committed wires; or more than one commitment key behind at most one empty list. */
  predicate AnnouncesSeveral(b: seq<byte>) {
    var at := TrailerAt(b);
    && HoldsColumns(b)
    && (|| OS2IP(b[at..at + 4]) > 1
        || (|b| >= at + 8 && OS2IP(b[at..at + 4]) == 0 && OS2IP(b[at + 4..at + 8]) > 1)
        || (|b| >= at + 12 && OS2IP(b[at..at + 4]) == 1 && OS2IP(b[at + 4..at + 8]) == 0
            && OS2IP(b[at + 8..at + 12]) > 1))
  }

  /** One list of committed wires, and it is not empty. */
  predicate AnnouncesCommittedInputs(b: seq<byte>) {
    var at := TrailerAt(b);
    HoldsColumns(b) && |b| >= at + 8 && OS2IP(b[at..at + 4]) == 1 && OS2IP(b[at + 4..at + 8]) > 0
  }

  /** The two feature errors arise exactly for what announces the feature, whatever follows; every other
      buffer is accepted or malformed. */
  lemma ParseErrorsExact(b: seq<byte>)
    ensures Parse(b) == Err(Bsb22UnsupportedMultiCommitment) <==> AnnouncesSeveral(b)
    ensures Parse(b) == Err(Bsb22CommittedPublicInputsUnsupported) <==> AnnouncesCommittedInputs(b)
    ensures Parse(b).Err? ==> Parse(b).error in {Bsb22UnsupportedMultiCommitment,
      Bsb22CommittedPublicInputsUnsupported, Bsb22InvalidVerifyingKeyBinary}
  {
    hide OS2IP, Split64;
    if |b| >= 580 && |b| >= TrailerAt(b) {
      SuffixRead(b, TrailerAt(b));
    }
  }

  // ----- the accepted buffers are prefix-free -----

  ghost predicate StrictlyExtends(long: seq<byte>, short: seq<byte>) {
    |short| < |long| && long[..|short|] == short
  }

  lemma SuffixExtends(long: seq<byte>, short: seq<byte>, at: nat)
    requires at <= |short| && StrictlyExtends(long, short)
    ensures StrictlyExtends(long[at..], short[at..])
  {
    assert long[at..][..|short| - at] == long[..|short|][at..];
  }

  lemma TrailerPrefixFree(t: seq<byte>, t': seq<byte>)
    requires ParseTrailer(t).Ok?
    requires StrictlyExtends(t, t') || StrictlyExtends(t', t)
    ensures ParseTrailer(t') == Err(Bsb22InvalidVerifyingKeyBinary)
  {
    var m := if |t| < |t'| then |t| else |t'|;
    assert forall i :: 0 <= i < m ==> t[i] == t'[i];
    if |t'| >= 4 {
      assert t[0..4] == t'[0..4];
    }
    if |t'| >= 8 {
      assert t[4..8] == t'[4..8];
    }
    if |t'| >= 12 && |t| >= 12 {
      assert t[8..12] == t'[8..12];
    }
  }

  /** No accepted buffer is a strict prefix of anything the parser treats differently from malformed. */
  lemma PrefixFree(b: seq<byte>, b': seq<byte>)
    requires Parse(b).Ok?
    requires StrictlyExtends(b, b') || StrictlyExtends(b', b)
    ensures Parse(b') == Err(Bsb22InvalidVerifyingKeyBinary)
  {
    if |b'| >= 580 {
      assert b[576..580] == b'[576..580];
      var n := ReadU32(b, 576);
      var at := 580 + 64 * n;
      if n <= (|b'| - 580) / 64 {
        assert at <= |b'|;
        var t, t' := b[at..], b'[at..];
        if |b| < |b'| {
          SuffixExtends(b', b, at);
        } else {
          SuffixExtends(b, b', at);
        }
        assert StrictlyExtends(t, t') || StrictlyExtends(t', t);
        TrailerPrefixFree(t, t');
      }
    }
  }

  // ----- parsed keys and the constructors -----

  /** A parsed key is accepted by exactly one constructor, the one its commitment key calls for, and for
      exactly the number of inputs it announces.  The other constructor names the commitment key as the
      reason for every number of inputs, even one that would fit neither. */
  lemma ParsedKeyFitsConstructor(b: seq<byte>, vk: VerifyingKey, n: nat)
    requires Parse(b) == Ok(vk)
    ensures NewError(vk, n) ==
      if vk.commitment.Some? then Some(UnexpectedCommitmentKey)
      else if n != vk.nrPubinputs then Some(InvalidPublicInputsLength)
      else None
    ensures NewWithCommitmentError(vk, n) ==
      if vk.commitment.None? then Some(MissingCommitmentKey)
      else if n != vk.nrPubinputs then Some(InvalidPublicInputsLength)
      else None
  {
  }
}
