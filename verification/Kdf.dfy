/** Labeled extraction and expansion (section 4 of RFC 9180) and the piecewise buffers that implement them. */
module LabeledKdf {
  import opened ByteStrings
  import opened Results
  import opened Primitives

  // "HPKE-v1"
  const HPKE_V1: Bytes := [0x48, 0x50, 0x4B, 0x45, 0x2D, 0x76, 0x31]
  const MAX_EXTRACT_PIECES: nat := 8
  const MAX_EXPAND_PIECES: nat := 16

  // ---- Reference definitions: whole strings ----

  function LabeledIkm(suiteId: Bytes, lbl: Bytes, ikm: Bytes): Bytes {
    HPKE_V1 + suiteId + lbl + ikm
  }

  function LabeledInfo(length: u16, suiteId: Bytes, lbl: Bytes, info: Bytes): Bytes {
    I2OSP(length, 2) + HPKE_V1 + suiteId + lbl + info
  }

  /** LabeledExtract of section 4 of RFC 9180. */
  function LabeledExtract(kdf: Kdf, salt: Bytes, suiteId: Bytes, lbl: Bytes, ikm: Bytes): Bytes {
    kdf.extract(salt, LabeledIkm(suiteId, lbl, ikm))
  }

  /** LabeledExpand of section 4 of RFC 9180, defined where HKDF-Expand is. */
  function LabeledExpand(kdf: Kdf, prk: Bytes, suiteId: Bytes, lbl: Bytes, info: Bytes, length: u16): Bytes {
    kdf.expand(prk, LabeledInfo(length, suiteId, lbl, info), length)
  }

  /** HKDF-Expand refuses more than 255 blocks, and a pseudorandom key shorter than a block. */
  function CheckedExpand(kdf: Kdf, prk: Bytes, suiteId: Bytes, lbl: Bytes, info: Bytes, length: nat): Result<Bytes> {
    if length > 255 * kdf.hashLen || length >= 0x1_0000 then Err(ExportLengthExceeded)
    else if |prk| < kdf.hashLen then Err(DeriveKeyPairError)
    else Ok(LabeledExpand(kdf, prk, suiteId, lbl, info, length))
  }

  /**
   When a labeled expansion succeeds: precisely up to 255 blocks, so for a lawful KDF the conversion of the length
   to 16 bits never truncates nor adds a refusal of its own; the result has the length asked for.
   */
  lemma ExpandSucceedsExactly(kdf: Kdf, prk: Bytes, suiteId: Bytes, lbl: Bytes, info: Bytes, length: nat)
    requires kdf.Lawful() && |prk| >= kdf.hashLen
    ensures var r := CheckedExpand(kdf, prk, suiteId, lbl, info, length);
            && (r.Ok? <==> length <= 255 * kdf.hashLen)
            && (r.Ok? ==> length < 0x1_0000 && |r.value| == length && OS2IP(I2OSP(length, 2)) == length)
            && (r.Err? ==> r.error == ExportLengthExceeded)
  {
    if length <= 255 * kdf.hashLen {
      U16Range(length);
      I2OSPRoundTrip(length, 2);
    }
  }

  lemma VersionExactly()
    ensures Spells(HPKE_V1, "HPKE-v1")
  {
  }

  /** The call a labeled extraction makes, its input read field by field: the version text, then suite, label, ikm. */
  lemma ExtractCallExactly(kdf: Kdf, salt: Bytes, suiteId: Bytes, lbl: Bytes, ikm: Bytes)
    ensures var input := LabeledIkm(suiteId, lbl, ikm);
            && LabeledExtract(kdf, salt, suiteId, lbl, ikm) == kdf.extract(salt, input)
            && |input| == 7 + |suiteId| + |lbl| + |ikm|
            && Spells(input[..7], "HPKE-v1")
            && input[7..] == suiteId + lbl + ikm
  {
    var input, rest := LabeledIkm(suiteId, lbl, ikm), suiteId + lbl + ikm;
    assert input == HPKE_V1 + rest;
    assert input[..7] == HPKE_V1 && input[7..] == rest;
    VersionExactly();
  }

  /** The call a labeled expansion makes: the length on two octets, the version text, then suite, label, info. */
  lemma ExpandCallExactly(kdf: Kdf, prk: Bytes, suiteId: Bytes, lbl: Bytes, info: Bytes, length: nat)
    requires CheckedExpand(kdf, prk, suiteId, lbl, info, length).Ok?
    ensures length < 0x1_0000
    ensures var input := LabeledInfo(length, suiteId, lbl, info);
            && CheckedExpand(kdf, prk, suiteId, lbl, info, length).value == kdf.expand(prk, input, length)
            && |input| == 9 + |suiteId| + |lbl| + |info|
            && Pair(input[..2]) == length
            && Spells(input[2..9], "HPKE-v1")
            && input[9..] == suiteId + lbl + info
  {
    var input, rest := LabeledInfo(length, suiteId, lbl, info), suiteId + lbl + info;
    assert input == I2OSP(length, 2) + HPKE_V1 + rest;
    assert input[..2] == I2OSP(length, 2) && input[2..9] == HPKE_V1 && input[9..] == rest;
    VersionExactly();
    PairOfU16(length);
  }

  // ---- The implementation: pieces fed one by one ----

  /** `Kdf::extract`: every piece is absorbed in turn. */
  method ExtractPieces(kdf: Kdf, salt: Bytes, pieces: seq<Bytes>) returns (prk: Bytes)
    ensures prk == kdf.extract(salt, Concat(pieces))
  {
    var absorbed: Bytes := [];
    for i := 0 to |pieces|
      invariant absorbed == Concat(pieces[..i])
    {
      assert pieces[..i + 1] == pieces[..i] + [pieces[i]];
      ConcatSnoc(pieces[..i], pieces[i]);
      absorbed := absorbed + pieces[i];
    }
    assert pieces[..|pieces|] == pieces;
    prk := kdf.extract(salt, absorbed);
  }

  /** `Kdf::expand`: the length bound is checked before anything else. */
  method ExpandPieces(kdf: Kdf, prk: Bytes, pieces: seq<Bytes>, length: nat) returns (r: Result<Bytes>)
    ensures r == if length > 255 * kdf.hashLen then Err(ExportLengthExceeded)
                 else if |prk| < kdf.hashLen then Err(DeriveKeyPairError)
                 else Ok(kdf.expand(prk, Concat(pieces), length))
  {
    if length > 255 * kdf.hashLen {
      return Err(ExportLengthExceeded);
    }
    if |prk| < kdf.hashLen {
      return Err(DeriveKeyPairError);
    }
    var absorbed: Bytes := [];
    for i := 0 to |pieces|
      invariant absorbed == Concat(pieces[..i])
    {
      assert pieces[..i + 1] == pieces[..i] + [pieces[i]];
      ConcatSnoc(pieces[..i], pieces[i]);
      absorbed := absorbed + pieces[i];
    }
    assert pieces[..|pieces|] == pieces;
    r := Ok(kdf.expand(prk, absorbed, length));
  }

  method LabeledExtractWhole(kdf: Kdf, salt: Bytes, suiteId: Bytes, lbl: Bytes, ikm: Bytes) returns (prk: Bytes)
    ensures prk == LabeledExtract(kdf, salt, suiteId, lbl, ikm)
  {
    ConcatFour(HPKE_V1, suiteId, lbl, ikm);
    prk := ExtractPieces(kdf, salt, [HPKE_V1, suiteId, lbl, ikm]);
  }

  /** Three label slots, then the caller's pieces, in an array of eight slots. */
  method LabeledExtractPieces(kdf: Kdf, salt: Bytes, suiteId: Bytes, lbl: Bytes, ikmPieces: seq<Bytes>)
    returns (prk: Bytes)
    requires 3 + |ikmPieces| <= MAX_EXTRACT_PIECES
    ensures prk == LabeledExtract(kdf, salt, suiteId, lbl, Concat(ikmPieces))
  {
    var all := new Bytes[MAX_EXTRACT_PIECES](_ => []);
    all[0] := HPKE_V1;
    all[1] := suiteId;
    all[2] := lbl;
    var n := |ikmPieces|;
    for i := 0 to n
      invariant all[..3 + i] == [HPKE_V1, suiteId, lbl] + ikmPieces[..i]
    {
      all[3 + i] := ikmPieces[i];
    }
    assert all[..3 + n] == [HPKE_V1, suiteId, lbl] + ikmPieces;
    ConcatAppend([HPKE_V1, suiteId, lbl], ikmPieces);
    ConcatThree(HPKE_V1, suiteId, lbl);
    prk := ExtractPieces(kdf, salt, all[..3 + n]);
  }

  method LabeledExpandWhole(kdf: Kdf, prk: Bytes, suiteId: Bytes, lbl: Bytes, info: Bytes, length: nat)
    returns (r: Result<Bytes>)
    ensures r == CheckedExpand(kdf, prk, suiteId, lbl, info, length)
  {
    if length >= 0x1_0000 {
      return Err(ExportLengthExceeded);
    }
    var lengthBytes := I2OSP(length, 2);
    ConcatFour(lengthBytes, HPKE_V1, suiteId, lbl);
    assert [lengthBytes, HPKE_V1, suiteId, lbl, info] == [lengthBytes, HPKE_V1, suiteId, lbl] + [info];
    ConcatSnoc([lengthBytes, HPKE_V1, suiteId, lbl], info);
    r := ExpandPieces(kdf, prk, [lengthBytes, HPKE_V1, suiteId, lbl, info], length);
  }

  /** Four label slots, then the caller's pieces, in an array of sixteen slots. */
  method LabeledExpandPieces(kdf: Kdf, prk: Bytes, suiteId: Bytes, lbl: Bytes, infoPieces: seq<Bytes>, length: nat)
    returns (r: Result<Bytes>)
    requires 4 + |infoPieces| <= MAX_EXPAND_PIECES
    ensures r == CheckedExpand(kdf, prk, suiteId, lbl, Concat(infoPieces), length)
  {
    if length >= 0x1_0000 {
      return Err(ExportLengthExceeded);
    }
    var lengthBytes := I2OSP(length, 2);
    var all := new Bytes[MAX_EXPAND_PIECES](_ => []);
    all[0] := lengthBytes;
    all[1] := HPKE_V1;
    all[2] := suiteId;
    all[3] := lbl;
    var n := |infoPieces|;
    for i := 0 to n
      invariant all[..4 + i] == [lengthBytes, HPKE_V1, suiteId, lbl] + infoPieces[..i]
    {
      all[4 + i] := infoPieces[i];
    }
    assert all[..4 + n] == [lengthBytes, HPKE_V1, suiteId, lbl] + infoPieces;
    ConcatAppend([lengthBytes, HPKE_V1, suiteId, lbl], infoPieces);
    ConcatFour(lengthBytes, HPKE_V1, suiteId, lbl);
    r := ExpandPieces(kdf, prk, all[..4 + n], length);
  }

  // ---- Suite identifiers ----

  /** "HPKE" || kem_id || kdf_id || aead_id */
  function HpkeSuiteId(kemId: u16, kdfId: u16, aeadId: u16): (s: Bytes)
    ensures |s| == 10
  {
    [0x48, 0x50, 0x4B, 0x45] + I2OSP(kemId, 2) + I2OSP(kdfId, 2) + I2OSP(aeadId, 2)
  }

  /** "KEM" || kem_id */
  function KemSuiteId(kemId: u16): (s: Bytes)
    ensures |s| == 5
  {
    [0x4B, 0x45, 0x4D] + I2OSP(kemId, 2)
  }

  /** `ciphersuite`: four in-place copies into a ten-octet array. */
  method Ciphersuite(suite: Suite) returns (s: array<Byte>)
    ensures fresh(s) && s[..] == HpkeSuiteId(suite.kemId, suite.kdf.id, suite.aead.id)
  {
    s := new Byte[10](_ => 0);
    CopyInto(s, 0, [0x48, 0x50, 0x4B, 0x45]);
    CopyInto(s, 4, I2OSP(suite.kemId, 2));
    CopyInto(s, 6, I2OSP(suite.kdf.id, 2));
    CopyInto(s, 8, I2OSP(suite.aead.id, 2));
  }

  /** `kem_suite_id`: two in-place copies into a five-octet array. */
  method KemSuite(id: u16) returns (s: array<Byte>)
    ensures fresh(s) && s[..] == KemSuiteId(id)
  {
    s := new Byte[5](_ => 0);
    CopyInto(s, 0, [0x4B, 0x45, 0x4D]);
    CopyInto(s, 3, I2OSP(id, 2));
  }
}
