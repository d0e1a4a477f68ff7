/** Setup metadata embedded in a program binary: the marker printer, the body parser, the scanner that
    finds every marker between other bytes, and the literal that a generated source file carries. */
module SetupTxt {
  import opened Wrappers
  import opened ByteStrings
  import opened Delimiters
  import opened Hex
  import Utf8

  const BEGIN_TEXT: seq<byte> := Ascii("=======BEGIN") + Ascii(" GROTH16 VK SETUP V1") + Ascii("=======")
  const END_TEXT: seq<byte> := Ascii("=======END") + Ascii(" GROTH16 VK SETUP V1") + Ascii("=======")
  const BEGIN: seq<byte> := BEGIN_TEXT + [0]
  const END: seq<byte> := END_TEXT + [0]

  const FIELD_NAME: seq<byte> := Ascii("name")
  const FIELD_INSECURE_TEST_SETUP: seq<byte> := Ascii("insecure_test_setup")
  const FIELD_PROVING_KEY_SHA256: seq<byte> := Ascii("proving_key_sha256")
  const TRUE: seq<byte> := Ascii("true")
  const FALSE: seq<byte> := Ascii("false")

  /** The metadata of one verifying key. */
  datatype Setup = Setup(name: seq<byte>, insecureTestSetup: bool, provingKeySha256: Bytes32)

  datatype Reason =
    | NotUtf8
    | ExpectedField(key: seq<byte>)
    | NotTrueOrFalse
    | NotHexDigits
    | TrailingFields

  datatype SetupError = Unterminated(at: nat) | Malformed(offset: nat, reason: Reason)

  // ----- printing -----

  function Flag(b: bool): seq<byte> {
    if b then TRUE else FALSE
  }

  /** A record's fields, with the digest in any spelling. */
  function BodyWith(name: seq<byte>, flag: bool, hex: seq<byte>): seq<byte> {
    FIELD_NAME + [0] + name + [0] + BodyRest(flag, hex)
  }

  /** The fields behind the name. */
  function BodyRest(flag: bool, hex: seq<byte>): seq<byte> {
    FIELD_INSECURE_TEST_SETUP + [0] + Flag(flag) + [0] + FIELD_PROVING_KEY_SHA256 + [0] + hex + [0]
  }

  function Body(r: Setup): seq<byte> {
    BodyWith(r.name, r.insecureTestSetup, ToHex(r.provingKeySha256))
  }

  function ToMarker(r: Setup): seq<byte> {
    BEGIN + Body(r) + END
  }

  // ----- parsing a body -----

  /** The body's pieces, read in order; the first one that is wrong decides the error. */
  function ParsePieces(ps: seq<seq<byte>>): Result<Setup, Reason> {
    if |ps| < 2 || ps[0] != FIELD_NAME then Err(ExpectedField(FIELD_NAME))
    else if |ps| < 4 || ps[2] != FIELD_INSECURE_TEST_SETUP then Err(ExpectedField(FIELD_INSECURE_TEST_SETUP))
    else if ps[3] != TRUE && ps[3] != FALSE then Err(NotTrueOrFalse)
    else if |ps| < 6 || ps[4] != FIELD_PROVING_KEY_SHA256 then Err(ExpectedField(FIELD_PROVING_KEY_SHA256))
    else if FromHexSpec(ps[5]).None? then Err(NotHexDigits)
    else if |ps| != 7 || ps[6] != [] then Err(TrailingFields)
    else Ok(Setup(ps[1], ps[3] == TRUE, FromHexSpec(ps[5]).value))
  }

  function ParseBodySpec(body: seq<byte>): Result<Setup, Reason> {
    if !Utf8.Valid(body) then Err(NotUtf8) else ParsePieces(SplitNul(body))
  }

  /** The pieces of a body, handed out one by one. */
  class Pieces {
    const all: seq<seq<byte>>
    var next: nat

    constructor (all: seq<seq<byte>>)
      ensures this.all == all && next == 0
    {
      this.all := all;
      next := 0;
    }

    method Next() returns (r: Option<seq<byte>>)
      modifies this
      ensures next == old(next) + 1
      ensures r == if old(next) < |all| then Some(all[old(next)]) else None
    {
      r := if next < |all| then Some(all[next]) else None;
      next := next + 1;
    }

    /** A key and its value, if the key is the expected one. */
    method Field(key: seq<byte>) returns (r: Result<seq<byte>, Reason>)
      modifies this
      ensures next == old(next) + 2
      ensures r == if old(next) + 1 < |all| && all[old(next)] == key
        then Ok(all[old(next) + 1]) else Err(ExpectedField(key))
    {
      var k := Next();
      var v := Next();
      if k.Some? && v.Some? && k.value == key {
        return Ok(v.value);
      }
      return Err(ExpectedField(key));
    }
  }

  method ParseBody(body: seq<byte>, offset: nat) returns (r: Result<Setup, SetupError>)
    ensures match ParseBodySpec(body)
      case Ok(setup) => r == Ok(setup)
      case Err(reason) => r == Err(Malformed(offset, reason))
  {
    if !Utf8.Valid(body) {
      return Err(Malformed(offset, NotUtf8));
    }
    var parts := new Pieces(SplitNul(body));
    var name := parts.Field(FIELD_NAME);
    if name.Err? {
      return Err(Malformed(offset, name.error));
    }
    var flag := parts.Field(FIELD_INSECURE_TEST_SETUP);
    if flag.Err? {
      return Err(Malformed(offset, flag.error));
    }
    if flag.value != TRUE && flag.value != FALSE {
      return Err(Malformed(offset, NotTrueOrFalse));
    }
    var hex := parts.Field(FIELD_PROVING_KEY_SHA256);
    if hex.Err? {
      return Err(Malformed(offset, hex.error));
    }
    var digest := FromHex(hex.value);
    if digest.None? {
      return Err(Malformed(offset, NotHexDigits));
    }
    var empty := parts.Next();
    if empty != Some([]) {
      return Err(Malformed(offset, TrailingFields));
    }
    var more := parts.Next();
    if more.Some? {
      return Err(Malformed(offset, TrailingFields));
    }
    return Ok(Setup(name.value, flag.value == TRUE, digest.value));
  }

  // ----- scanning -----

  /** All records from a position on, in order; the first one that is wrong decides the error. */
  function Scan(binary: seq<byte>, pos: nat): Result<seq<Setup>, SetupError>
    requires pos <= |binary|
    decreases |binary| - pos
  {
    match FindBytes(binary[pos..], BEGIN)
    case None => Ok([])
    case Some(start) =>
      var bodyStart := pos + start + |BEGIN|;
      match FindBytes(binary[bodyStart..], END)
      case None => Err(Unterminated(pos + start))
      case Some(len) =>
        match ParseBodySpec(binary[bodyStart..][..len])
        case Err(reason) => Err(Malformed(pos + start, reason))
        case Ok(setup) => Prepend([setup], Scan(binary, bodyStart + len + |END|))
  }

  /** The records already found, in front of those still to come. */
  function Prepend(found: seq<Setup>, r: Result<seq<Setup>, SetupError>): Result<seq<Setup>, SetupError> {
    match r
    case Ok(more) => Ok(found + more)
    case Err(e) => Err(e)
  }

  ghost predicate Increasing(positions: seq<nat>) {
    forall i, j :: 0 <= i < j < |positions| ==> positions[i] < positions[j]
  }

  /** `positions` records where each round of the search started. */
  method FindSetupTxts(binary: seq<byte>) returns (r: Result<seq<Setup>, SetupError>, ghost positions: seq<nat>)
    ensures r == Scan(binary, 0)
    ensures |positions| > 0 && positions[0] == 0 && Increasing(positions)
    ensures positions[|positions| - 1] <= |binary|
  {
    hide ParseBodySpec, FindBytes, BEGIN_TEXT, END_TEXT;
    var found: seq<Setup> := [];
    var pos := 0;
    positions := [0];
    PrependNothing(Scan(binary, 0));
    while true
      invariant pos <= |binary|
      invariant Scan(binary, 0) == Prepend(found, Scan(binary, pos))
      invariant |positions| > 0 && positions[0] == 0 && positions[|positions| - 1] == pos && Increasing(positions)
      decreases |binary| - pos
    {
      var start := FindBytes(binary[pos..], BEGIN);
      if start.None? {
        break;
      }
      var offset := pos + start.value;
      var bodyStart := offset + |BEGIN|;
      var bodyRest := binary[bodyStart..];
      var bodyLen := FindBytes(bodyRest, END);
      if bodyLen.None? {
        return Err(Unterminated(offset)), positions;
      }
      var setup := ParseBody(bodyRest[..bodyLen.value], offset);
      if setup.Err? {
        return Err(setup.error), positions;
      }
      pos := bodyStart + bodyLen.value + |END|;
      PrependMore(found, setup.value, Scan(binary, pos));
      found := found + [setup.value];
      positions := positions + [pos];
    }
    assert found + [] == found;
    return Ok(found), positions;
  }

  lemma PrependNothing(r: Result<seq<Setup>, SetupError>)
    ensures Prepend([], r) == r
  {
    assert r.Ok? ==> [] + r.value == r.value;
  }

  lemma PrependMore(found: seq<Setup>, setup: Setup, r: Result<seq<Setup>, SetupError>)
    ensures Prepend(found, Prepend([setup], r)) == Prepend(found + [setup], r)
  {
    assert r.Ok? ==> found + ([setup] + r.value) == (found + [setup]) + r.value;
  }
}
