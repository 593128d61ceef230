/** The key schedule (section 5.1 of RFC 9180): the crate's two specialised forms against the RFC's single one. */
module KeySchedule {
  import opened ByteStrings
  import opened Results
  import opened Primitives
  import opened LabeledKdf
  import opened DomainSeparation
  import opened MessageContext
  import opened PskInputs

  // ---- The RFC's function ----

  /** The lengths the schedule asks for fit the two-octet length field. */
  predicate FitsSchedule(s: Suite) {
    s.aead.keyLen < 0x1_0000 && s.aead.nonceLen < 0x1_0000 && s.kdf.hashLen < 0x1_0000
  }

  function Extracted(s: Suite, salt: Bytes, l: Label, ikm: Bytes): Bytes {
    LabeledExtract(s.kdf, salt, SuiteCaller(s).SuiteId(), l.Text(), ikm)
  }

  function Expanded(s: Suite, prk: Bytes, l: Label, info: Bytes, length: u16): Bytes {
    LabeledExpand(s.kdf, prk, SuiteCaller(s).SuiteId(), l.Text(), info, length)
  }

  /** key_schedule_context = mode || psk_id_hash || info_hash */
  function KsContext(s: Suite, mode: Mode, info: Bytes, pskId: Bytes): Bytes {
    [mode.Byte()] + Extracted(s, [], PskIdHash, pskId) + Extracted(s, [], InfoHash, info)
  }

  /** KeySchedule of section 5.1 of RFC 9180, with `[]` for the default psk and psk_id. */
  function RfcKeySchedule(s: Suite, mode: Mode, sharedSecret: Bytes, info: Bytes, psk: Bytes, pskId: Bytes)
    : Result<CtxState>
    requires FitsSchedule(s)
  {
    match VerifyPskInputs(mode, psk, pskId)
    case Some(error) => Err(error)
    case None =>
      var context := KsContext(s, mode, info, pskId);
      var secret := Extracted(s, sharedSecret, Secret, psk);
      Ok(CtxState(
           s,
           Expanded(s, secret, Key, context, s.aead.keyLen),
           Expanded(s, secret, BaseNonce, context, s.aead.nonceLen),
           Expanded(s, secret, Exp, context, s.kdf.hashLen),
           0))
  }

  // ---- The crate's two functions ----

  /** The facts both specialised schedules rest on: no expansion is refused and every length is exact. */
  lemma OutputsExact(s: Suite, prk: Bytes, l: Label, info: Bytes, length: nat)
    requires s.Lawful() && |prk| >= s.kdf.hashLen
    requires length in {s.aead.keyLen, s.aead.nonceLen, s.kdf.hashLen}
    ensures length < 0x1_0000
    ensures |Expanded(s, prk, l, info, length)| == length
    ensures CheckedExpand(s.kdf, prk, SuiteCaller(s).SuiteId(), l.Text(), info, length) ==
            Ok(Expanded(s, prk, l, info, length))
  {
    ExpandSucceedsExactly(s.kdf, prk, SuiteCaller(s).SuiteId(), l.Text(), info, length);
  }

  /** The tail the two functions share, with every way it could fail. */
  function CheckedTail(s: Suite, secret: Bytes, context: Bytes): Result<CtxState> {
    var suiteId := SuiteCaller(s).SuiteId();
    var key :- CheckedExpand(s.kdf, secret, suiteId, Key.Text(), context, s.aead.keyLen);
    var baseNonce :- CheckedExpand(s.kdf, secret, suiteId, BaseNonce.Text(), context, s.aead.nonceLen);
    var exporterSecret :- CheckedExpand(s.kdf, secret, suiteId, Exp.Text(), context, s.kdf.hashLen);
    if s.aead.Sealing() && |key| != s.aead.keyLen then Err(AeadInitError)
    else Ok(CtxState(s, key, baseNonce, exporterSecret, 0))
  }

  /** Three piecewise expansions, then the context; every error is passed on. */
  method ExpandAll(s: Suite, suiteId: Bytes, secret: Bytes, ksPieces: seq<Bytes>) returns (r: Result<Context>)
    requires s.kdf.ExpandsExactly() && s.aead.nonceLen <= MAX_NONCE_LEN
    requires suiteId == SuiteCaller(s).SuiteId() && |ksPieces| == 3
    ensures r.Ok? ==> fresh(r.value) && fresh(r.value.baseNonce) && r.value.Valid()
    ensures (if r.Ok? then Ok(r.value.State()) else Err(r.error)) == CheckedTail(s, secret, Concat(ksPieces))
  {
    var key := LabeledExpandPieces(s.kdf, secret, suiteId, Key.Text(), ksPieces, s.aead.keyLen);
    if key.Err? {
      return Err(key.error);
    }
    var baseNonce := LabeledExpandPieces(s.kdf, secret, suiteId, BaseNonce.Text(), ksPieces, s.aead.nonceLen);
    if baseNonce.Err? {
      return Err(baseNonce.error);
    }
    var exporterSecret := LabeledExpandPieces(s.kdf, secret, suiteId, Exp.Text(), ksPieces, s.kdf.hashLen);
    if exporterSecret.Err? {
      return Err(exporterSecret.error);
    }
    r := Context.New(s, key.value, baseNonce.value, exporterSecret.value);
  }

  /** For a lawful suite none of those failures can happen, and the tail is the RFC's. */
  lemma TailNeverFails(s: Suite, secret: Bytes, context: Bytes)
    requires s.Lawful() && |secret| == s.kdf.hashLen
    ensures FitsSchedule(s)
    ensures CheckedTail(s, secret, context) ==
            Ok(CtxState(
                 s,
                 Expanded(s, secret, Key, context, s.aead.keyLen),
                 Expanded(s, secret, BaseNonce, context, s.aead.nonceLen),
                 Expanded(s, secret, Exp, context, s.kdf.hashLen),
                 0))
  {
    OutputsExact(s, secret, Key, context, s.aead.keyLen);
    OutputsExact(s, secret, BaseNonce, context, s.aead.nonceLen);
    OutputsExact(s, secret, Exp, context, s.kdf.hashLen);
  }

  /**
   Base and Auth.  The PSK inputs are structurally absent; the result is the RFC's with default PSK inputs, for every
   suite, shared secret and info, and there always is one.
   */
  method KeySchedulePskFree(mode: Mode, s: Suite, sharedSecret: Bytes, info: Bytes) returns (r: Result<Context>)
    requires s.Lawful() && !mode.TakesPsk()
    ensures FitsSchedule(s)
    ensures r.Ok? && fresh(r.value) && fresh(r.value.baseNonce) && r.value.Valid()
    ensures Ok(r.value.State()) == RfcKeySchedule(s, mode, sharedSecret, info, [], [])
  {
    var suiteId := Ciphersuite(s);
    var pskIdHash := LabeledExtractWhole(s.kdf, [], suiteId[..], PskIdHash.Text(), []);
    var infoHash := LabeledExtractWhole(s.kdf, [], suiteId[..], InfoHash.Text(), info);
    var ksPieces := [[mode.Byte()], pskIdHash, infoHash];
    var secret := LabeledExtractWhole(s.kdf, sharedSecret, suiteId[..], Secret.Text(), []);
    ConcatThree([mode.Byte()], pskIdHash, infoHash);
    TailNeverFails(s, secret, Concat(ksPieces));
    r := ExpandAll(s, suiteId[..], secret, ksPieces);
  }

  /** PSK and AuthPSK, on a validated `Psk`. */
  method KeySchedulePsk(mode: Mode, s: Suite, sharedSecret: Bytes, info: Bytes, psk: Psk) returns (r: Result<Context>)
    requires s.Lawful() && mode.TakesPsk() && psk.Valid()
    ensures FitsSchedule(s)
    ensures r.Ok? && fresh(r.value) && fresh(r.value.baseNonce) && r.value.Valid()
    ensures Ok(r.value.State()) == RfcKeySchedule(s, mode, sharedSecret, info, psk.secret, psk.id)
  {
    var suiteId := Ciphersuite(s);
    var pskIdHash := LabeledExtractWhole(s.kdf, [], suiteId[..], PskIdHash.Text(), psk.id);
    var infoHash := LabeledExtractWhole(s.kdf, [], suiteId[..], InfoHash.Text(), info);
    var ksPieces := [[mode.Byte()], pskIdHash, infoHash];
    var secret := LabeledExtractWhole(s.kdf, sharedSecret, suiteId[..], Secret.Text(), psk.secret);
    ConcatThree([mode.Byte()], pskIdHash, infoHash);
    TailNeverFails(s, secret, Concat(ksPieces));
    r := ExpandAll(s, suiteId[..], secret, ksPieces);
  }

  /** The contexts the schedule produces start at zero with exact lengths, ready to seal if the AEAD can. */
  lemma ScheduleIsTotal(s: Suite, mode: Mode, sharedSecret: Bytes, info: Bytes, psk: Bytes, pskId: Bytes)
    requires s.Lawful()
    ensures FitsSchedule(s)
    ensures var r := RfcKeySchedule(s, mode, sharedSecret, info, psk, pskId);
            && (r.Ok? <==> VerifyPskInputs(mode, psk, pskId).None?)
            && (r.Ok? ==>
                  && r.value.Valid() && r.value.counter == 0 && r.value.suite == s
                  && |r.value.key| == s.aead.keyLen
                  && |r.value.exporterSecret| == s.kdf.hashLen
                  && (s.aead.Sealing() ==> r.value.CanSeal()))
  {
    var secret := Extracted(s, sharedSecret, Secret, psk);
    var context := KsContext(s, mode, info, pskId);
    OutputsExact(s, secret, Key, context, s.aead.keyLen);
    OutputsExact(s, secret, BaseNonce, context, s.aead.nonceLen);
    OutputsExact(s, secret, Exp, context, s.kdf.hashLen);
  }
}
