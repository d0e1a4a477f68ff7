/** Printing and reading back setup markers: one body, a whole binary, and the source literal. */
module SetupTxtTheorems {
  import opened Wrappers
  import opened ByteStrings
  import opened Delimiters
  import opened Hex
  import opened SetupTxt
  import Utf8

  const EQUALS: byte := 0x3D

  // ----- the constant texts -----

  predicate PlainText(s: seq<byte>) {
    forall i :: 0 <= i < |s| ==> IsPlain(s[i])
  }

  lemma FieldTexts()
    ensures PlainText(FIELD_NAME) && FIELD_NAME != []
    ensures PlainText(FIELD_INSECURE_TEST_SETUP) && FIELD_INSECURE_TEST_SETUP != []
    ensures PlainText(FIELD_PROVING_KEY_SHA256) && FIELD_PROVING_KEY_SHA256 != []
    ensures PlainText(TRUE) && PlainText(FALSE) && TRUE != FALSE && TRUE != [] && FALSE != []
  {
    assert TRUE[0] != FALSE[0];
  }

  lemma DelimiterTexts()
    ensures IsDelimiter(BEGIN, BEGIN_TEXT) && IsDelimiter(END, END_TEXT)
    ensures END_TEXT != [] && END_TEXT[|END_TEXT| - 1] == EQUALS
  {
    BeginIsDelimiter();
    EndIsDelimiter();
    hide BEGIN_TEXT;
  }

  lemma BeginIsDelimiter()
    ensures IsDelimiter(BEGIN, BEGIN_TEXT)
  {
  }

  lemma EndIsDelimiter()
    ensures IsDelimiter(END, END_TEXT)
  {
  }

  /** Plain text does not end with an equals sign, so it does not end with the text of a delimiter. */
  lemma PlainIsHarmless(s: seq<byte>)
    requires PlainText(s)
    ensures NulFree(s) && !EndsWith(s, END_TEXT)
    ensures Utf8.Valid(s)
  {
    DelimiterTexts();
    hide END_TEXT;
    Utf8.AsciiIsValid(s);
    if EndsWith(s, END_TEXT) {
      EndsWithLast(s, END_TEXT);
    }
  }

  lemma EndsWithLast(s: seq<byte>, t: seq<byte>)
    requires EndsWith(s, t) && t != []
    ensures s != [] && s[|s| - 1] == t[|t| - 1]
  {
    assert s[|s| - 1] == s[|s| - |t|..][|t| - 1];
  }

  lemma SpellingIsHarmless(hex: seq<byte>)
    requires FromHexSpec(hex).Some?
    ensures NulFree(hex) && !EndsWith(hex, END_TEXT) && Utf8.Valid(hex)
  {
    SpellingIsPlain(hex);
    PlainIsHarmless(hex);
  }

  lemma FieldsAreHarmless(flag: bool)
    ensures NulFree(FIELD_NAME) && NulFree(FIELD_INSECURE_TEST_SETUP)
    ensures NulFree(FIELD_PROVING_KEY_SHA256) && NulFree(Flag(flag))
    ensures !EndsWith(FIELD_NAME, END_TEXT) && !EndsWith(FIELD_INSECURE_TEST_SETUP, END_TEXT)
    ensures !EndsWith(FIELD_PROVING_KEY_SHA256, END_TEXT) && !EndsWith(Flag(flag), END_TEXT)
    ensures Utf8.Valid(FIELD_NAME) && Utf8.Valid(FIELD_INSECURE_TEST_SETUP)
    ensures Utf8.Valid(FIELD_PROVING_KEY_SHA256) && Utf8.Valid(Flag(flag))
  {
    FieldTexts();
    PlainIsHarmless(FIELD_NAME);
    PlainIsHarmless(FIELD_INSECURE_TEST_SETUP);
    PlainIsHarmless(FIELD_PROVING_KEY_SHA256);
    PlainIsHarmless(Flag(flag));
  }

  // The same texts, octet by octet.
  const NAME_OCTETS: seq<byte> := [0x6E, 0x61, 0x6D, 0x65]
  const INSECURE_OCTETS: seq<byte> := [
    0x69, 0x6E, 0x73, 0x65, 0x63, 0x75, 0x72, 0x65, 0x5F, 0x74, 0x65, 0x73, 0x74, 0x5F, 0x73, 0x65,
    0x74, 0x75, 0x70]
  const SHA256_OCTETS: seq<byte> := [
    0x70, 0x72, 0x6F, 0x76, 0x69, 0x6E, 0x67, 0x5F, 0x6B, 0x65, 0x79, 0x5F, 0x73, 0x68, 0x61, 0x32,
    0x35, 0x36]
  const TRUE_OCTETS: seq<byte> := [0x74, 0x72, 0x75, 0x65]
  const FALSE_OCTETS: seq<byte> := [0x66, 0x61, 0x6C, 0x73, 0x65]
  const SEVEN_EQUALS: seq<byte> := [0x3D, 0x3D, 0x3D, 0x3D, 0x3D, 0x3D, 0x3D]
  const TITLE_OCTETS: seq<byte> := [
    0x20, 0x47, 0x52, 0x4F, 0x54, 0x48, 0x31, 0x36, 0x20, 0x56,
    0x4B, 0x20, 0x53, 0x45, 0x54, 0x55, 0x50, 0x20, 0x56, 0x31]
  const BEGIN_OCTETS: seq<byte> :=
    SEVEN_EQUALS + [0x42, 0x45, 0x47, 0x49, 0x4E] + TITLE_OCTETS + SEVEN_EQUALS + [0]
  const END_OCTETS: seq<byte> :=
    SEVEN_EQUALS + [0x45, 0x4E, 0x44] + TITLE_OCTETS + SEVEN_EQUALS + [0]

  lemma FieldOctets()
    ensures FIELD_NAME == NAME_OCTETS && FIELD_INSECURE_TEST_SETUP == INSECURE_OCTETS
    ensures FIELD_PROVING_KEY_SHA256 == SHA256_OCTETS
    ensures TRUE == TRUE_OCTETS && FALSE == FALSE_OCTETS
  {
  }

  lemma SharedOctets()
    ensures Ascii("=======") == SEVEN_EQUALS && Ascii(" GROTH16 VK SETUP V1") == TITLE_OCTETS
  {
  }

  lemma OpeningOctets()
    ensures Ascii("=======BEGIN") == SEVEN_EQUALS + [0x42, 0x45, 0x47, 0x49, 0x4E]
    ensures Ascii("=======END") == SEVEN_EQUALS + [0x45, 0x4E, 0x44]
  {
  }

  lemma BeginOctets()
    ensures BEGIN == BEGIN_OCTETS
  {
    SharedOctets();
    OpeningOctets();
    hide Ascii, SEVEN_EQUALS, TITLE_OCTETS;
  }

  lemma EndOctets()
    ensures END == END_OCTETS
  {
    SharedOctets();
    OpeningOctets();
    hide Ascii, SEVEN_EQUALS, TITLE_OCTETS;
  }

  // ----- one body -----

  function Fields(name: seq<byte>, flag: bool, hex: seq<byte>): seq<seq<byte>> {
    [FIELD_NAME, name, FIELD_INSECURE_TEST_SETUP, Flag(flag), FIELD_PROVING_KEY_SHA256, hex]
  }

  /** Every key and every value of a body is NUL-terminated. */
  lemma BodyIsTerminated(name: seq<byte>, flag: bool, hex: seq<byte>)
    ensures BodyWith(name, flag, hex) == Terminated(Fields(name, flag, hex))
  {
    hide FIELD_NAME, FIELD_INSECURE_TEST_SETUP, FIELD_PROVING_KEY_SHA256, Flag, Terminated;
    var rest := [FIELD_INSECURE_TEST_SETUP, Flag(flag), FIELD_PROVING_KEY_SHA256, hex];
    FourTerminated(FIELD_INSECURE_TEST_SETUP, Flag(flag), FIELD_PROVING_KEY_SHA256, hex);
    TwoTerminated(FIELD_NAME, name, rest);
    assert Fields(name, flag, hex) == [FIELD_NAME, name] + rest;
  }

  lemma FourTerminated(a: seq<byte>, b: seq<byte>, c: seq<byte>, d: seq<byte>)
    ensures Terminated([a, b, c, d]) == a + [0] + b + [0] + c + [0] + d + [0]
  {
    TwoTerminated(c, d, []);
    TwoTerminated(a, b, [c, d]);
    assert [c, d] + [] == [c, d] && [a, b] + [c, d] == [a, b, c, d];
  }

  lemma TwoTerminated(a: seq<byte>, b: seq<byte>, rest: seq<seq<byte>>)
    ensures Terminated([a, b] + rest) == a + [0] + b + [0] + Terminated(rest)
  {
    assert ([a, b] + rest)[1..] == [b] + rest && ([b] + rest)[1..] == rest;
  }

  lemma {:induction false} ValidTerminated(ps: seq<seq<byte>>)
    ensures Utf8.Valid(Terminated(ps)) <==> forall k :: 0 <= k < |ps| ==> Utf8.Valid(ps[k])
  {
    if ps == [] {
    } else {
      ValidTerminated(ps[1..]);
      Utf8.ValidAroundNul(ps[0], Terminated(ps[1..]));
      assert forall k :: 1 <= k < |ps| ==> ps[k] == ps[1..][k - 1];
    }
  }

  lemma ValidBody(name: seq<byte>, flag: bool, hex: seq<byte>)
    requires FromHexSpec(hex).Some?
    ensures Utf8.Valid(BodyWith(name, flag, hex)) <==> Utf8.Valid(name)
  {
    hide FIELD_NAME, FIELD_INSECURE_TEST_SETUP, FIELD_PROVING_KEY_SHA256, Flag, FromHexSpec, Terminated, END_TEXT;
    var ps := Fields(name, flag, hex);
    FieldsAreHarmless(flag);
    SpellingIsHarmless(hex);
    BodyIsTerminated(name, flag, hex);
    ValidTerminated(ps);
    assert ps[1] == name;
  }

  lemma PiecesOfBody(name: seq<byte>, flag: bool, hex: seq<byte>)
    requires NulFree(name) && FromHexSpec(hex).Some?
    ensures SplitNul(BodyWith(name, flag, hex)) == Fields(name, flag, hex) + [[]]
  {
    hide FIELD_NAME, FIELD_INSECURE_TEST_SETUP, FIELD_PROVING_KEY_SHA256, Flag, FromHexSpec, Terminated;
    hide END_TEXT, SplitNul;
    FieldsAreHarmless(flag);
    SpellingIsHarmless(hex);
    BodyIsTerminated(name, flag, hex);
    SplitTerminated(Fields(name, flag, hex));
  }

  /** A body with a NUL-free name and a readable digest, in whatever spelling, is read back. */
  lemma ParseOfBody(name: seq<byte>, flag: bool, hex: seq<byte>)
    requires NulFree(name) && Utf8.Valid(name) && FromHexSpec(hex).Some?
    ensures ParseBodySpec(BodyWith(name, flag, hex)) == Ok(Setup(name, flag, FromHexSpec(hex).value))
  {
    hide FIELD_NAME, FIELD_INSECURE_TEST_SETUP, FIELD_PROVING_KEY_SHA256, TRUE, FALSE, FromHexSpec, SplitNul, BodyWith;
    ValidBody(name, flag, hex);
    PiecesOfBody(name, flag, hex);
    FieldTexts();
  }

  /** A body written out, with any text for the flag and any for the digest. */
  function Written(name: seq<byte>, flag: seq<byte>, hex: seq<byte>): seq<byte> {
    NAME_OCTETS + [0] + name + [0] + INSECURE_OCTETS + [0] + flag + [0] + SHA256_OCTETS + [0] + hex + [0]
  }

  function WrittenPieces(name: seq<byte>, flag: seq<byte>, hex: seq<byte>): seq<seq<byte>> {
    [NAME_OCTETS, name, INSECURE_OCTETS, flag, SHA256_OCTETS, hex]
  }

  lemma WrittenIsTerminated(name: seq<byte>, flag: seq<byte>, hex: seq<byte>)
    ensures Written(name, flag, hex) == Terminated(WrittenPieces(name, flag, hex))
  {
    hide NAME_OCTETS, INSECURE_OCTETS, SHA256_OCTETS, Terminated;
    var rest := [INSECURE_OCTETS, flag, SHA256_OCTETS, hex];
    FourTerminated(INSECURE_OCTETS, flag, SHA256_OCTETS, hex);
    TwoTerminated(NAME_OCTETS, name, rest);
    assert WrittenPieces(name, flag, hex) == [NAME_OCTETS, name] + rest;
  }

  lemma PiecesOfWritten(name: seq<byte>, flag: seq<byte>, hex: seq<byte>)
    requires NulFree(name) && NulFree(flag) && NulFree(hex)
    requires Utf8.Valid(name) && Utf8.Valid(flag) && Utf8.Valid(hex)
    ensures Utf8.Valid(Written(name, flag, hex))
    ensures SplitNul(Written(name, flag, hex)) == WrittenPieces(name, flag, hex) + [[]]
  {
    hide NAME_OCTETS, INSECURE_OCTETS, SHA256_OCTETS, Terminated, SplitNul, Written, NulFree, Utf8.Valid;
    OctetsAreHarmless();
    WrittenIsTerminated(name, flag, hex);
    SplitTerminated(WrittenPieces(name, flag, hex));
    ValidTerminated(WrittenPieces(name, flag, hex));
  }

  lemma OctetsAreHarmless()
    ensures NulFree(NAME_OCTETS) && NulFree(INSECURE_OCTETS) && NulFree(SHA256_OCTETS)
    ensures Utf8.Valid(NAME_OCTETS) && Utf8.Valid(INSECURE_OCTETS) && Utf8.Valid(SHA256_OCTETS)
  {
    FieldOctets();
    hide FIELD_NAME, FIELD_INSECURE_TEST_SETUP, FIELD_PROVING_KEY_SHA256, END_TEXT, Utf8.Valid;
    FieldsAreHarmless(true);
  }

  /** What a body written out in octets is read as: "true" is a test setup, "false" is none, any other text in
      that place is an error, and so is a digest that does not spell 32 octets. */
  lemma ParseOfWritten(name: seq<byte>, flag: seq<byte>, hex: seq<byte>)
    requires NulFree(name) && NulFree(flag) && NulFree(hex)
    requires Utf8.Valid(name) && Utf8.Valid(flag) && Utf8.Valid(hex)
    ensures ParseBodySpec(Written(name, flag, hex)) ==
      if flag != TRUE_OCTETS && flag != FALSE_OCTETS then Err(NotTrueOrFalse)
      else match FromHexSpec(hex)
      case None => Err(NotHexDigits)
      case Some(d) => Ok(Setup(name, flag == TRUE_OCTETS, d))
  {
    FieldOctets();
    hide FIELD_NAME, FIELD_INSECURE_TEST_SETUP, FIELD_PROVING_KEY_SHA256, TRUE, FALSE, FromHexSpec, SplitNul;
    hide TRUE_OCTETS, FALSE_OCTETS, Written, Utf8.Valid;
    PiecesOfWritten(name, flag, hex);
  }

  // ----- why a body is rejected -----

  /** The pieces are wrong in their `k`-th respect. */
  predicate IsWrong(ps: seq<seq<byte>>, k: nat) {
    match k
    case 0 => |ps| < 2 || ps[0] != NAME_OCTETS
    case 1 => |ps| < 4 || ps[2] != INSECURE_OCTETS
    case 2 => |ps| < 4 || (ps[3] != TRUE_OCTETS && ps[3] != FALSE_OCTETS)
    case 3 => |ps| < 6 || ps[4] != SHA256_OCTETS
    case 4 => |ps| < 6 || FromHexSpec(ps[5]).None?
    case _ => |ps| != 7 || ps[6] != []
  }

  const REASONS: seq<Reason> := [
    ExpectedField(NAME_OCTETS), ExpectedField(INSECURE_OCTETS), NotTrueOrFalse,
    ExpectedField(SHA256_OCTETS), NotHexDigits, TrailingFields]

  /** `reason` is that of the first respect in which the pieces are wrong. */
  ghost predicate FirstWrong(ps: seq<seq<byte>>, reason: Reason) {
    exists k :: 0 <= k < 6 && IsWrong(ps, k) && reason == REASONS[k] && forall j :: 0 <= j < k ==> !IsWrong(ps, j)
  }

  /** Every rejected body, with its reason: what is not UTF-8, and otherwise the first thing that is wrong. */
  lemma RejectedExactly(body: seq<byte>, ps: seq<seq<byte>>, reason: Reason)
    requires ps != [] && JoinNul(ps) == body && forall k :: 0 <= k < |ps| ==> NulFree(ps[k])
    ensures ParseBodySpec(body) == Err(reason) <==>
      if Utf8.Valid(body) then FirstWrong(ps, reason) else reason == NotUtf8
  {
    FieldOctets();
    hide FIELD_NAME, FIELD_INSECURE_TEST_SETUP, FIELD_PROVING_KEY_SHA256, TRUE, FALSE, FromHexSpec, SplitNul, JoinNul;
    hide NAME_OCTETS, INSECURE_OCTETS, SHA256_OCTETS, TRUE_OCTETS, FALSE_OCTETS, Utf8.Valid;
    SplitExact(body, ps);
    FirstOfSix(ps, reason);
  }

  lemma FirstOfSix(ps: seq<seq<byte>>, reason: Reason)
    ensures FirstWrong(ps, reason) <==>
      if IsWrong(ps, 0) then reason == REASONS[0]
      else if IsWrong(ps, 1) then reason == REASONS[1]
      else if IsWrong(ps, 2) then reason == REASONS[2]
      else if IsWrong(ps, 3) then reason == REASONS[3]
      else if IsWrong(ps, 4) then reason == REASONS[4]
      else IsWrong(ps, 5) && reason == REASONS[5]
  {
    hide IsWrong;
    if FirstWrong(ps, reason) {
      var k :| 0 <= k < 6 && IsWrong(ps, k) && reason == REASONS[k] && forall j :: 0 <= j < k ==> !IsWrong(ps, j);
      assert k == 0 || k == 1 || k == 2 || k == 3 || k == 4 || k == 5;
    }
  }

  /** An accepted body is the printed body of its result, with some spelling of the digest. */
  lemma BodyOfParsed(body: seq<byte>, r: Setup) returns (hex: seq<byte>)
    requires ParseBodySpec(body) == Ok(r)
    ensures body == BodyWith(r.name, r.insecureTestSetup, hex) && FromHexSpec(hex) == Some(r.provingKeySha256)
    ensures NulFree(r.name) && Utf8.Valid(r.name)
  {
    hide FIELD_NAME, FIELD_INSECURE_TEST_SETUP, FIELD_PROVING_KEY_SHA256, TRUE, FALSE, FromHexSpec;
    hide Terminated, SplitNul;
    var ps := SplitNul(body);
    hex := ps[5];
    TerminatedSplit(body);
    assert ps[..6] == Fields(r.name, r.insecureTestSetup, hex);
    BodyIsTerminated(r.name, r.insecureTestSetup, hex);
    ValidTerminated(ps[..6]);
    assert NulFree(ps[1]) && ps[..6][1] == ps[1];
  }

  /** `body` prints `r` with `hex` for its digest. */
  predicate IsBody(body: seq<byte>, r: Setup, hex: seq<byte>) {
    FromHexSpec(hex) == Some(r.provingKeySha256) && body == BodyWith(r.name, r.insecureTestSetup, hex)
  }

  /** Exactly the printed bodies are accepted, up to the spelling of the digest. */
  lemma ParseBodyExact(body: seq<byte>, r: Setup)
    ensures ParseBodySpec(body) == Ok(r) <==>
      && NulFree(r.name) && Utf8.Valid(r.name)
      && exists hex :: IsBody(body, r, hex)
  {
    if ParseBodySpec(body) == Ok(r) {
      var hex := BodyOfParsed(body, r);
      assert IsBody(body, r, hex);
    }
    if NulFree(r.name) && Utf8.Valid(r.name) {
      if hex :| IsBody(body, r, hex) {
        ParseOfBody(r.name, r.insecureTestSetup, hex);
      }
    }
  }

  // ----- a whole binary -----

  /** A record's marker with the digest spelled `hex`; the printed marker spells it in lower-case digits. */
  function MarkerWith(r: Setup, hex: seq<byte>): seq<byte> {
    BEGIN + BodyOf(r, hex) + END
  }

  function BodyOf(r: Setup, hex: seq<byte>): seq<byte> {
    BodyWith(r.name, r.insecureTestSetup, hex)
  }

  /** Markers between stretches of other bytes; there is one stretch more than there are markers. */
  function LayoutWith(gaps: seq<seq<byte>>, rs: seq<Setup>, hexes: seq<seq<byte>>): seq<byte>
    requires |gaps| == |rs| + 1 && |hexes| == |rs|
  {
    if rs == [] then gaps[0]
    else gaps[0] + MarkerWith(rs[0], hexes[0]) + LayoutWith(gaps[1..], rs[1..], hexes[1..])
  }

  /** Printed markers between other bytes. */
  function Layout(gaps: seq<seq<byte>>, rs: seq<Setup>): seq<byte>
    requires |gaps| == |rs| + 1
  {
    if rs == [] then gaps[0] else gaps[0] + ToMarker(rs[0]) + Layout(gaps[1..], rs[1..])
  }

  function PrintedDigests(rs: seq<Setup>): (hexes: seq<seq<byte>>)
    ensures |hexes| == |rs|
  {
    seq(|rs|, i requires 0 <= i < |rs| => ToHex(rs[i].provingKeySha256))
  }

  lemma {:induction false} LayoutIsPrinted(gaps: seq<seq<byte>>, rs: seq<Setup>)
    requires |gaps| == |rs| + 1
    ensures Layout(gaps, rs) == LayoutWith(gaps, rs, PrintedDigests(rs))
  {
    hide BEGIN_TEXT, END_TEXT, ToHex, BodyWith;
    if rs == [] {
    } else {
      LayoutIsPrinted(gaps[1..], rs[1..]);
      assert PrintedDigests(rs)[1..] == PrintedDigests(rs[1..]);
    }
  }

  predicate NoBegin(gaps: seq<seq<byte>>) {
    forall k :: 0 <= k < |gaps| ==> !Occurs(gaps[k], BEGIN)
  }

  predicate SpellDigests(hexes: seq<seq<byte>>, rs: seq<Setup>)
    requires |hexes| == |rs|
  {
    forall k :: 0 <= k < |rs| ==> FromHexSpec(hexes[k]) == Some(rs[k].provingKeySha256)
  }

  /** A name that its marker keeps apart from the delimiters. */
  predicate Readable(name: seq<byte>) {
    NulFree(name) && !EndsWith(name, END_TEXT)
  }

  /** The first delimiter behind a body is the one the marker ends with. */
  lemma BodyEnds(r: Setup, hex: seq<byte>, rest: seq<byte>)
    requires Readable(r.name) && FromHexSpec(hex).Some?
    ensures FindBytes(BodyOf(r, hex) + END + rest, END) == Some(|BodyOf(r, hex)|)
  {
    hide FIELD_NAME, FIELD_INSECURE_TEST_SETUP, FIELD_PROVING_KEY_SHA256, Flag, END_TEXT, FromHexSpec;
    hide Terminated, FindBytes;
    SpellingIsHarmless(hex);
    FieldsAreHarmless(r.insecureTestSetup);
    DelimiterTexts();
    BodyIsTerminated(r.name, r.insecureTestSetup, hex);
    NoneInTerminated(Fields(r.name, r.insecureTestSetup, hex), END, END_TEXT);
    NoStraddle(BodyOf(r, hex), END, END_TEXT, rest);
  }

  /** A NUL-free name that ends with the delimiter's text ends the body early, before the second field. */
  lemma BodyEndsEarly(r: Setup, hex: seq<byte>, rest: seq<byte>)
    requires NulFree(r.name) && EndsWith(r.name, END_TEXT)
    ensures var len := |FIELD_NAME| + 1 + |r.name| - |END_TEXT|;
      && FindBytes(BodyOf(r, hex) + END + rest, END) == Some(len)
      && len < |BodyOf(r, hex)|
      && ParseBodySpec(BodyOf(r, hex)[..len]).Err?
  {
    hide FIELD_NAME, END_TEXT, FindBytes, ParseBodySpec, Utf8.Valid, BodyOf, Occurs;
    DelimiterTexts();
    FieldsAreHarmless(true);
    var front := r.name[..|r.name| - |END_TEXT|];
    var gap := FIELD_NAME + [0] + front;
    var behind := BodyRest(r.insecureTestSetup, hex);
    EarlyEnd(r, hex, front, rest);
    NoneInPieceAndTail(FIELD_NAME, front, END, END_TEXT);
    NoStraddle(gap, END, END_TEXT, behind + (END + rest));
    NameAloneIsRejected(front);
  }

  /** Such a body, cut at the delimiter inside its name. */
  lemma EarlyEnd(r: Setup, hex: seq<byte>, front: seq<byte>, rest: seq<byte>)
    requires EndsWith(r.name, END_TEXT) && front == r.name[..|r.name| - |END_TEXT|]
    ensures var body, gap, behind := BodyOf(r, hex), FIELD_NAME + [0] + front, BodyRest(r.insecureTestSetup, hex);
      && body + END + rest == gap + END + (behind + (END + rest))
      && |gap| < |body| && body[..|gap|] == gap
  {
    hide FIELD_NAME, END_TEXT, BodyRest;
    assert r.name == front + END_TEXT;
    Regroup(FIELD_NAME, front, END_TEXT, BodyRest(r.insecureTestSetup, hex), END + rest);
    assert BodyOf(r, hex) + END + rest == BodyOf(r, hex) + (END + rest);
  }

  lemma Regroup(field: seq<byte>, front: seq<byte>, text: seq<byte>, behind: seq<byte>, rest: seq<byte>)
    ensures var gap, body := field + [0] + front, field + [0] + (front + text) + [0] + behind;
      && body == gap + (text + [0]) + behind
      && body + rest == gap + (text + [0]) + (behind + rest)
      && body[..|gap|] == gap
  {
  }

  lemma NameAloneIsRejected(name: seq<byte>)
    requires NulFree(name)
    ensures ParseBodySpec(FIELD_NAME + [0] + name).Err?
  {
    hide FIELD_NAME, FIELD_INSECURE_TEST_SETUP, FIELD_PROVING_KEY_SHA256, END_TEXT, SplitNul, Utf8.Valid;
    FieldsAreHarmless(true);
    SplitPiece(FIELD_NAME, name);
    SplitLast(name);
  }

  /** Where one round of the scan gets in a layout: past the gap, at the marker's body. */
  lemma RoundFindsMarker(binary: seq<byte>, pos: nat, gap: seq<byte>, r: Setup, hex: seq<byte>, tail: seq<byte>)
    requires pos <= |binary| && binary[pos..] == gap + MarkerWith(r, hex) + tail
    requires !Occurs(gap, BEGIN)
    ensures FindBytes(binary[pos..], BEGIN) == Some(|gap|)
    ensures pos + |gap| + |BEGIN| <= |binary|
    ensures binary[pos + |gap| + |BEGIN|..] == BodyOf(r, hex) + END + tail
  {
    DelimiterTexts();
    hide BEGIN_TEXT, END_TEXT, BodyOf, FindBytes, Occurs;
    var body := BodyOf(r, hex);
    assert gap + MarkerWith(r, hex) + tail == gap + BEGIN + (body + END + tail);
    NoStraddle(gap, BEGIN, BEGIN_TEXT, body + END + tail);
    assert binary[pos..][|gap| + |BEGIN|..] == body + END + tail;
    assert binary[pos..][|gap| + |BEGIN|..] == binary[pos + |gap| + |BEGIN|..];
  }

  /** A readable marker is found, and the scan goes on behind it. */
  lemma RoundReadsMarker(binary: seq<byte>, pos: nat, gap: seq<byte>, r: Setup, hex: seq<byte>, tail: seq<byte>)
    requires pos <= |binary| && binary[pos..] == gap + MarkerWith(r, hex) + tail
    requires !Occurs(gap, BEGIN) && Readable(r.name) && Utf8.Valid(r.name)
    requires FromHexSpec(hex) == Some(r.provingKeySha256)
    ensures var next := pos + |gap| + |MarkerWith(r, hex)|;
      && next <= |binary| && binary[next..] == tail
      && Scan(binary, pos) == Prepend([r], Scan(binary, next))
  {
    hide BEGIN_TEXT, END_TEXT, FindBytes, Occurs, ParseBodySpec, BodyOf, FromHexSpec;
    RoundFindsMarker(binary, pos, gap, r, hex, tail);
    BodyEnds(r, hex, tail);
    BodyParses(r, hex);
    var body, bodyStart := BodyOf(r, hex), pos + |gap| + |BEGIN|;
    assert (body + END + tail)[..|body|] == body;
    assert (body + END + tail)[|body| + |END|..] == tail;
    assert binary[bodyStart..][|body| + |END|..] == binary[bodyStart + |body| + |END|..];
  }

  lemma BodyParses(r: Setup, hex: seq<byte>)
    requires NulFree(r.name) && Utf8.Valid(r.name) && FromHexSpec(hex) == Some(r.provingKeySha256)
    ensures ParseBodySpec(BodyOf(r, hex)) == Ok(r)
  {
    hide ParseBodySpec, BodyWith, FromHexSpec;
    ParseOfBody(r.name, r.insecureTestSetup, hex);
  }

  /** `b` consists of readable markers for the records, with some spelling of each digest, between bytes that
      hold no opening delimiter. */
  ghost predicate IsLayout(b: seq<byte>, gaps: seq<seq<byte>>, rs: seq<Setup>, hexes: seq<seq<byte>>) {
    && |gaps| == |rs| + 1 && |hexes| == |rs|
    && b == LayoutWith(gaps, rs, hexes)
    && NoBegin(gaps) && SpellDigests(hexes, rs)
    && forall k :: 0 <= k < |rs| ==> Readable(rs[k].name) && Utf8.Valid(rs[k].name)
  }

  /** The scan of a layout returns its records in order. */
  lemma {:induction false} ScanOfLayout(
    binary: seq<byte>, pos: nat, gaps: seq<seq<byte>>, rs: seq<Setup>, hexes: seq<seq<byte>>)
    requires pos <= |binary| && IsLayout(binary[pos..], gaps, rs, hexes)
    ensures Scan(binary, pos) == Ok(rs)
    decreases |rs|
  {
    hide BEGIN_TEXT, END_TEXT, FindBytes, Occurs, MarkerWith, Readable, Utf8.Valid, ParseBodySpec, FromHexSpec;
    if rs == [] {
      FindsNothing(gaps[0], BEGIN);
    } else {
      RoundReadsMarker(binary, pos, gaps[0], rs[0], hexes[0], LayoutWith(gaps[1..], rs[1..], hexes[1..]));
      ScanOfLayout(binary, pos + |gaps[0]| + |MarkerWith(rs[0], hexes[0])|, gaps[1..], rs[1..], hexes[1..]);
      assert rs == [rs[0]] + rs[1..];
    }
  }

  /** A marker written out in octets. */
  lemma MarkerOctets(r: Setup, hex: seq<byte>)
    ensures MarkerWith(r, hex)
      == BEGIN_OCTETS + Written(r.name, if r.insecureTestSetup then TRUE_OCTETS else FALSE_OCTETS, hex) + END_OCTETS
    ensures ToMarker(r) == MarkerWith(r, ToHex(r.provingKeySha256))
  {
    FieldOctets();
    BeginOctets();
    EndOctets();
    hide FIELD_NAME, FIELD_INSECURE_TEST_SETUP, FIELD_PROVING_KEY_SHA256, TRUE, FALSE, BEGIN_TEXT, END_TEXT, ToHex;
    hide NAME_OCTETS, INSECURE_OCTETS, SHA256_OCTETS, TRUE_OCTETS, FALSE_OCTETS, BEGIN_OCTETS, END_OCTETS;
    assert BodyOf(r, hex) == Written(r.name, Flag(r.insecureTestSetup), hex);
  }

  /** What precedes the first occurrence holds none. */
  lemma NothingBefore(h: seq<byte>, needle: seq<byte>)
    requires needle != [] && FindBytes(h, needle).Some?
    ensures var at := FindBytes(h, needle).value;
      && !Occurs(h[..at], needle)
      && h == h[..at] + needle + h[at + |needle|..]
  {
    hide FindBytes;
    FindsFirst(h, needle);
    var at := FindBytes(h, needle).value;
    forall i: nat | OccursAt(h[..at], i, needle)
      ensures OccursAt(h, i, needle)
    {
      assert h[i..i + |needle|] == h[..at][i..i + |needle|];
    }
  }

  /** The body that a round cuts out has a readable name: the first closing delimiter is behind it. */
  lemma CutBodyIsReadable(rest: seq<byte>, r: Setup) returns (hex: seq<byte>)
    requires FindBytes(rest, END).Some? && ParseBodySpec(rest[..FindBytes(rest, END).value]) == Ok(r)
    ensures rest[..FindBytes(rest, END).value] == BodyOf(r, hex) && FromHexSpec(hex) == Some(r.provingKeySha256)
    ensures Readable(r.name) && Utf8.Valid(r.name)
  {
    var len := FindBytes(rest, END).value;
    hex := BodyOfParsed(rest[..len], r);
    hide BEGIN_TEXT, END_TEXT, FIELD_NAME, BodyWith, FindBytes, ParseBodySpec, FromHexSpec;
    NothingBefore(rest, END);
    if EndsWith(r.name, END_TEXT) {
      BodyEndsEarly(r, hex, rest[len + |END|..]);
    }
  }

  /** What a successful round has read: a gap, a marker, and the rest. */
  lemma RoundReads(binary: seq<byte>, pos: nat) returns (gap: seq<byte>, r: Setup, hex: seq<byte>, next: nat)
    requires pos <= |binary| && FindBytes(binary[pos..], BEGIN).Some?
    requires MarkerError(binary, pos + FindBytes(binary[pos..], BEGIN).value).None?
    ensures pos < next <= |binary| && binary[pos..] == gap + MarkerWith(r, hex) + binary[next..]
    ensures !Occurs(gap, BEGIN) && Readable(r.name) && Utf8.Valid(r.name)
    ensures FromHexSpec(hex) == Some(r.provingKeySha256)
    ensures Scan(binary, pos) == Prepend([r], Scan(binary, next))
  {
    hide BEGIN_TEXT, END_TEXT, FindBytes, Occurs, ParseBodySpec, FromHexSpec, Utf8.Valid, Readable, BodyWith;
    var b := binary[pos..];
    var start := FindBytes(b, BEGIN).value;
    var bodyStart := pos + start + |BEGIN|;
    var rest := binary[bodyStart..];
    var len := FindBytes(rest, END).value;
    gap, r, next := b[..start], ParseBodySpec(rest[..len]).value, bodyStart + len + |END|;
    hex := CutBodyIsReadable(rest, r);
    NothingBefore(b, BEGIN);
    NothingBefore(rest, END);
    assert b[start + |BEGIN|..] == rest && rest[len + |END|..] == binary[next..];
    MarkerInPlace(gap, r, hex, binary[next..]);
  }

  lemma MarkerInPlace(gap: seq<byte>, r: Setup, hex: seq<byte>, tail: seq<byte>)
    ensures gap + BEGIN + (BodyOf(r, hex) + END + tail) == gap + MarkerWith(r, hex) + tail
  {
    hide BEGIN_TEXT, END_TEXT, BodyOf;
  }

  /** Every binary whose scan succeeds is a layout of the records found. */
  lemma {:induction false} LayoutOfScan(binary: seq<byte>, pos: nat)
    returns (gaps: seq<seq<byte>>, hexes: seq<seq<byte>>)
    requires pos <= |binary| && Scan(binary, pos).Ok?
    ensures IsLayout(binary[pos..], gaps, Scan(binary, pos).value, hexes)
    decreases |binary| - pos
  {
    hide BEGIN_TEXT, END_TEXT, FindBytes, Occurs, ParseBodySpec, FromHexSpec, Utf8.Valid, Readable, MarkerWith;
    if FindBytes(binary[pos..], BEGIN).None? {
      FindsFirst(binary[pos..], BEGIN);
      return [binary[pos..]], [];
    }
    var gap, r, hex, next := RoundReads(binary, pos);
    gaps, hexes := LayoutOfScan(binary, next);
    LayoutGrows(gap, r, hex, binary[next..], gaps, Scan(binary, next).value, hexes);
    gaps, hexes := [gap] + gaps, [hex] + hexes;
  }

  lemma LayoutGrows(gap: seq<byte>, r: Setup, hex: seq<byte>, tail: seq<byte>,
                    gaps: seq<seq<byte>>, rs: seq<Setup>, hexes: seq<seq<byte>>)
    requires IsLayout(tail, gaps, rs, hexes) && !Occurs(gap, BEGIN)
    requires FromHexSpec(hex) == Some(r.provingKeySha256) && Readable(r.name) && Utf8.Valid(r.name)
    ensures IsLayout(gap + MarkerWith(r, hex) + tail, [gap] + gaps, [r] + rs, [hex] + hexes)
  {
    hide MarkerWith, Occurs, FromHexSpec, Readable, Utf8.Valid, BEGIN_TEXT, END_TEXT;
    assert ([gap] + gaps)[1..] == gaps && ([r] + rs)[1..] == rs && ([hex] + hexes)[1..] == hexes;
  }

  /** For every binary: the scan returns these records if and only if the binary is a layout of them. */
  lemma ScanExact(binary: seq<byte>, rs: seq<Setup>)
    ensures Scan(binary, 0) == Ok(rs) <==> exists gaps, hexes :: IsLayout(binary, gaps, rs, hexes)
  {
    hide Scan, NoBegin, SpellDigests, Readable, LayoutWith;
    assert binary[0..] == binary;
    if Scan(binary, 0) == Ok(rs) {
      var gaps, hexes := LayoutOfScan(binary, 0);
      assert IsLayout(binary, gaps, rs, hexes);
    }
    if gaps, hexes :| IsLayout(binary, gaps, rs, hexes) {
      ScanOfLayout(binary, 0, gaps, rs, hexes);
    }
  }

  // ----- which binaries are rejected, and why -----

  /** The text before `at` is a layout of readable markers, and an opening delimiter starts there. */
  ghost predicate ReachesMarker(b: seq<byte>, at: nat) {
    && OccursAt(b, at, BEGIN)
    && exists gaps, rs, hexes :: IsLayout(b[..at], gaps, rs, hexes)
  }

  /** What is wrong with the marker at `at`, if anything. */
  function MarkerError(b: seq<byte>, at: nat): Option<SetupError>
    requires at + |BEGIN| <= |b|
  {
    var rest := b[at + |BEGIN|..];
    match FindBytes(rest, END)
    case None => Some(Unterminated(at))
    case Some(len) =>
      match ParseBodySpec(rest[..len])
      case Err(reason) => Some(Malformed(at, reason))
      case Ok(_) => None
  }

  /** Behind a stretch without opening delimiter the scan fails as the marker there does. */
  lemma RoundFails(binary: seq<byte>, pos: nat, at: nat)
    requires pos <= at && OccursAt(binary, at, BEGIN) && !Occurs(binary[pos..at], BEGIN)
    requires MarkerError(binary, at).Some?
    ensures Scan(binary, pos) == Err(MarkerError(binary, at).value)
  {
    DelimiterTexts();
    hide BEGIN_TEXT, END_TEXT, FindBytes, Occurs, ParseBodySpec;
    assert binary[pos..] == binary[pos..at] + BEGIN + binary[at + |BEGIN|..];
    NoStraddle(binary[pos..at], BEGIN, BEGIN_TEXT, binary[at + |BEGIN|..]);
  }

  /** A scan that reads the markers before `at` fails as the marker there does. */
  lemma {:induction false} ScanFailsAt(
    binary: seq<byte>, pos: nat, at: nat, gaps: seq<seq<byte>>, rs: seq<Setup>, hexes: seq<seq<byte>>)
    requires pos <= at && OccursAt(binary, at, BEGIN) && IsLayout(binary[pos..at], gaps, rs, hexes)
    requires MarkerError(binary, at).Some?
    ensures Scan(binary, pos) == Err(MarkerError(binary, at).value)
    decreases |rs|
  {
    hide BEGIN_TEXT, END_TEXT, Occurs, MarkerWith, Readable, Utf8.Valid, FromHexSpec, MarkerError, Scan;
    if rs == [] {
      RoundFails(binary, pos, at);
    } else {
      var tail := LayoutWith(gaps[1..], rs[1..], hexes[1..]);
      var next := pos + |gaps[0]| + |MarkerWith(rs[0], hexes[0])|;
      SplitBehind(binary, pos, at, gaps[0] + MarkerWith(rs[0], hexes[0]), tail);
      RoundReadsMarker(binary, pos, gaps[0], rs[0], hexes[0], tail + binary[at..]);
      ScanFailsAt(binary, next, at, gaps[1..], rs[1..], hexes[1..]);
    }
  }

  lemma SplitBehind(b: seq<byte>, pos: nat, at: nat, front: seq<byte>, tail: seq<byte>)
    requires pos <= at <= |b| && b[pos..at] == front + tail
    ensures b[pos..] == front + (tail + b[at..])
    ensures pos + |front| <= at && b[pos + |front|..at] == tail
  {
    assert b[pos..] == b[pos..at] + b[at..];
    assert b[pos + |front|..at] == b[pos..at][|front|..];
  }

  /** A scan that fails has read markers up to the one it reports. */
  lemma {:induction false} FailureOfScan(binary: seq<byte>, pos: nat)
    returns (at: nat, gaps: seq<seq<byte>>, rs: seq<Setup>, hexes: seq<seq<byte>>)
    requires pos <= |binary| && Scan(binary, pos).Err?
    ensures pos <= at && OccursAt(binary, at, BEGIN) && IsLayout(binary[pos..at], gaps, rs, hexes)
    ensures MarkerError(binary, at) == Some(Scan(binary, pos).error)
    decreases |binary| - pos
  {
    hide BEGIN_TEXT, END_TEXT, FindBytes, Occurs, ParseBodySpec, FromHexSpec, Utf8.Valid, Readable, MarkerWith;
    var b := binary[pos..];
    var start := FindBytes(b, BEGIN).value;
    NothingBefore(b, BEGIN);
    at := pos + start;
    assert b[..start] == binary[pos..at] && b[start..start + |BEGIN|] == binary[at..at + |BEGIN|];
    if MarkerError(binary, at).Some? {
      gaps, rs, hexes := [b[..start]], [], [];
    } else {
      var gap, r, hex, next := RoundReads(binary, pos);
      at, gaps, rs, hexes := FailureOfScan(binary, next);
      assert binary[pos..at] == gap + MarkerWith(r, hex) + binary[next..at];
      LayoutGrows(gap, r, hex, binary[next..at], gaps, rs, hexes);
      gaps, rs, hexes := [gap] + gaps, [r] + rs, [hex] + hexes;
    }
  }

  /** For every binary: the scan fails with an error if and only if that is the error of the first marker
      that is wrong. */
  lemma ScanFailsExactly(binary: seq<byte>, e: SetupError)
    ensures Scan(binary, 0) == Err(e) <==>
      exists at: nat :: ReachesMarker(binary, at) && MarkerError(binary, at) == Some(e)
  {
    hide Scan, MarkerError, IsLayout, BEGIN_TEXT, END_TEXT;
    if Scan(binary, 0) == Err(e) {
      var at, gaps, rs, hexes := FailureOfScan(binary, 0);
      assert binary[0..at] == binary[..at];
      assert ReachesMarker(binary, at);
    }
    if at: nat :| ReachesMarker(binary, at) && MarkerError(binary, at) == Some(e) {
      var gaps, rs, hexes :| IsLayout(binary[..at], gaps, rs, hexes);
      assert binary[0..at] == binary[..at];
      ScanFailsAt(binary, 0, at, gaps, rs, hexes);
    }
  }

  /** The two kinds of error, and the offset they name: no closing delimiter anywhere behind the marker's
      opening one, or a rejected body in front of the first. */
  lemma ErrorsOfScan(binary: seq<byte>, at: nat, reason: Reason)
    ensures Scan(binary, 0) == Err(Unterminated(at)) <==>
      ReachesMarker(binary, at) && !Occurs(binary[at + |BEGIN_OCTETS|..], END_OCTETS)
    ensures Scan(binary, 0) == Err(Malformed(at, reason)) <==>
      && ReachesMarker(binary, at)
      && var rest := binary[at + |BEGIN_OCTETS|..];
         && FindBytes(rest, END_OCTETS).Some?
         && ParseBodySpec(rest[..FindBytes(rest, END_OCTETS).value]) == Err(reason)
  {
    BeginOctets();
    EndOctets();
    hide Scan, IsLayout, FindBytes, ParseBodySpec, BEGIN_TEXT, END_TEXT, BEGIN_OCTETS, END_OCTETS;
    ScanFailsExactly(binary, Unterminated(at));
    ScanFailsExactly(binary, Malformed(at, reason));
    if OccursAt(binary, at, BEGIN) {
      FindsFirst(binary[at + |BEGIN|..], END);
    }
  }

  /** Printed markers between any bytes without an opening delimiter are found, all of them and in order, if
      and only if every name is readable. */
  lemma ScanFindsEveryMarker(gaps: seq<seq<byte>>, rs: seq<Setup>)
    requires |gaps| == |rs| + 1 && NoBegin(gaps)
    requires forall k :: 0 <= k < |rs| ==> Utf8.Valid(rs[k].name)
    ensures Scan(Layout(gaps, rs), 0) == Ok(rs) <==> forall k :: 0 <= k < |rs| ==> Readable(rs[k].name)
  {
    hide Scan, NoBegin, Readable, FromHexSpec, ToHex, BEGIN_TEXT, END_TEXT, LayoutWith, Layout;
    var b, hexes := Layout(gaps, rs), PrintedDigests(rs);
    LayoutIsPrinted(gaps, rs);
    forall k | 0 <= k < |rs|
      ensures FromHexSpec(hexes[k]) == Some(rs[k].provingKeySha256)
    {
      FromHexOfToHex(rs[k].provingKeySha256);
    }
    assert b[0..] == b;
    if forall k :: 0 <= k < |rs| ==> Readable(rs[k].name) {
      ScanOfLayout(b, 0, gaps, rs, hexes);
    } else if Scan(b, 0) == Ok(rs) {
      var gaps', hexes' := LayoutOfScan(b, 0);
    }
  }

  /** Names without NUL and equals sign, such as identifiers, are readable. */
  lemma NoEqualsSignIsReadable(name: seq<byte>)
    requires forall i :: 0 <= i < |name| ==> name[i] != 0 && name[i] != EQUALS
    ensures Readable(name)
  {
    DelimiterTexts();
    hide END_TEXT;
    if EndsWith(name, END_TEXT) {
      EndsWithLast(name, END_TEXT);
    }
  }

  // ----- the source literal -----

  const BACKSLASH: byte := 0x5C

  /** The marker as it is written into a generated source file: each NUL becomes \x00. */
  function Escape(s: seq<byte>): seq<byte> {
    if s == [] then []
    else (if s[0] == 0 then [BACKSLASH, 0x78, 0x30, 0x30] else [s[0]]) + Escape(s[1..])
  }

  /** The value of the inside of a Rust string literal, for the escapes of one character and of two
      hexadecimal digits; None where the literal would end or not be one. */
  function Unescape(lit: seq<byte>): Option<seq<byte>>
    decreases |lit|
  {
    if lit == [] then Some([])
    else if lit[0] == 0x22 || lit[0] == 0x0D then None
    else if lit[0] != BACKSLASH then
      match Unescape(lit[1..])
      case Some(rest) => Some([lit[0]] + rest)
      case None => None
    else if |lit| >= 4 && lit[1] == 0x78 then
      match (DigitValue(lit[2]), DigitValue(lit[3]), Unescape(lit[4..]))
      case (Some(hi), Some(lo), Some(rest)) => if hi < 8 && lo < 16 then Some([16 * hi + lo] + rest) else None
      case _ => None
    else if |lit| >= 2 && SimpleEscape(lit[1]).Some? then
      match Unescape(lit[2..])
      case Some(rest) => Some([SimpleEscape(lit[1]).value] + rest)
      case None => None
    else None
  }

  function SimpleEscape(c: byte): Option<byte> {
    if c == 0x6E then Some(0x0A)
    else if c == 0x72 then Some(0x0D)
    else if c == 0x74 then Some(0x09)
    else if c == 0x30 then Some(0)
    else if c == 0x22 || c == 0x27 || c == BACKSLASH then Some(c)
    else None
  }

  /** Text that stands for itself in a literal. */
  predicate LiteralText(s: seq<byte>) {
    forall i :: 0 <= i < |s| ==> s[i] != BACKSLASH && s[i] != 0x22 && s[i] != 0x0D
  }

  lemma {:induction false} UnescapeOfEscape(s: seq<byte>)
    requires LiteralText(s)
    ensures Unescape(Escape(s)) == Some(s)
  {
    if s == [] {
    } else {
      UnescapeOfEscape(s[1..]);
      var rest := Escape(s[1..]);
      assert s == [s[0]] + s[1..];
      if s[0] == 0 {
        var lit := [BACKSLASH, 0x78, 0x30, 0x30] + rest;
        assert lit[4..] == rest && Escape(s) == lit;
        assert DigitValue(0x30) == Some(0);
      } else {
        assert ([s[0]] + rest)[1..] == rest;
      }
    }
  }

  function EachFollowedBy(ps: seq<seq<byte>>, end: seq<byte>): seq<byte> {
    if ps == [] then [] else ps[0] + end + EachFollowedBy(ps[1..], end)
  }

  lemma {:induction false} EscapeOfPiece(p: seq<byte>, rest: seq<byte>)
    requires NulFree(p)
    ensures Escape(p + [0] + rest) == p + [0x5C, 0x78, 0x30, 0x30] + Escape(rest)
    decreases |p|
  {
    var t := p + [0] + rest;
    if p == [] {
      assert t[1..] == rest;
    } else {
      assert t[1..] == p[1..] + [0] + rest && t[0] == p[0];
      EscapeOfPiece(p[1..], rest);
      assert p == [p[0]] + p[1..];
    }
  }

  /** What is emitted for a text of NUL-terminated pieces: the pieces, with \x00 for each NUL and nothing else
      changed. */
  lemma {:induction false} EscapeExactly(ps: seq<seq<byte>>)
    requires forall k :: 0 <= k < |ps| ==> NulFree(ps[k])
    ensures Escape(Terminated(ps)) == EachFollowedBy(ps, [0x5C, 0x78, 0x30, 0x30])
  {
    if ps == [] {
    } else {
      EscapeExactly(ps[1..]);
      EscapeOfPiece(ps[0], Terminated(ps[1..]));
    }
  }

  /** The emitted literal denotes the marker, for every name that needs no escape of its own. */
  lemma MarkerLiteral(r: Setup)
    requires LiteralText(r.name)
    ensures Unescape(Escape(ToMarker(r))) == Some(ToMarker(r))
  {
    hide BEGIN_TEXT, END_TEXT, FIELD_NAME, FIELD_INSECURE_TEST_SETUP, FIELD_PROVING_KEY_SHA256, TRUE, FALSE;
    hide ToHex, Escape, Unescape;
    BeginIsLiteral();
    EndIsLiteral();
    FieldNamesAreLiteral();
    FlagsAreLiteral();
    HexIsLiteral(r.provingKeySha256);
    var hex, flag := ToHex(r.provingKeySha256), Flag(r.insecureTestSetup);
    assert LiteralText(BodyRest(r.insecureTestSetup, hex));
    assert LiteralText(Body(r));
    UnescapeOfEscape(ToMarker(r));
  }

  lemma BeginIsLiteral()
    ensures LiteralText(BEGIN)
  {
    BeginOctets();
    hide BEGIN_TEXT;
  }

  lemma EndIsLiteral()
    ensures LiteralText(END)
  {
    EndOctets();
    hide END_TEXT;
  }

  lemma FieldNamesAreLiteral()
    ensures LiteralText(FIELD_NAME) && LiteralText(FIELD_INSECURE_TEST_SETUP) && LiteralText(FIELD_PROVING_KEY_SHA256)
  {
  }

  lemma FlagsAreLiteral()
    ensures LiteralText(TRUE) && LiteralText(FALSE)
  {
  }

  lemma HexIsLiteral(d: Bytes32)
    ensures LiteralText(ToHex(d))
  {
    FromHexOfToHex(d);
    OnlyPrintedSpelling(ToHex(d), d);
  }
}
