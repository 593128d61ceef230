/** Pre-shared keys, validated at construction. */
module PskInputs {
  import opened ByteStrings
  import opened Results

  const MIN_PSK_LEN: nat := 32

  datatype Psk = Psk(secret: Bytes, id: Bytes) {
    /** What the private fields of a constructed `Psk` are known to satisfy. */
    predicate Valid() {
      |secret| >= MIN_PSK_LEN && id != []
    }
  }

  /** The four modes of section 5.1 of RFC 9180. */
  datatype Mode = Base | PskOnly | Auth | AuthPsk {
    function Byte(): Byte {
      match this
      case Base => 0x00
      case PskOnly => 0x01
      case Auth => 0x02
      case AuthPsk => 0x03
    }

    predicate TakesPsk() {
      PskOnly? || AuthPsk?
    }

    predicate Authenticates() {
      Auth? || AuthPsk?
    }
  }

  /** VerifyPSKInputs of section 5.1 of RFC 9180: the error it raises, or none. */
  function VerifyPskInputs(mode: Mode, psk: Bytes, pskId: Bytes): Option<HpkeError> {
    var gotPsk, gotPskId := psk != [], pskId != [];
    if gotPsk != gotPskId then Some(InconsistentPsk)
    else if gotPsk && !mode.TakesPsk() then Some(UnnecessaryPsk)
    else if !gotPsk && mode.TakesPsk() then Some(MissingPsk)
    else None
  }

  /**
   The validating constructor.  It accepts exactly the inputs the RFC's VerifyPSKInputs accepts for the PSK modes
   that are also long enough, keeps the two strings unswapped, and raises the RFC's own error on inputs
   VerifyPSKInputs rejects.
   */
  function NewPsk(secret: Bytes, id: Bytes): (r: Result<Psk>)
    ensures r.Ok? <==> |secret| >= 32 && id != []
    ensures r.Ok? ==> r.value.Valid() && r.value.secret == secret && r.value.id == id
    ensures r == Err(MissingPsk) <==> secret == [] && id == []
    ensures r == Err(InconsistentPsk) <==> (secret == [] <==> id != [])
    ensures forall mode: Mode | mode.TakesPsk() ::
              && (r.Ok? <==> VerifyPskInputs(mode, secret, id).None? && |secret| >= MIN_PSK_LEN)
              && (VerifyPskInputs(mode, secret, id).Some? ==> r == Err(VerifyPskInputs(mode, secret, id).value))
    ensures r == Err(InsecurePsk) <==> id != [] && 0 < |secret| < 32
  {
    if (secret == []) != (id == []) then Err(InconsistentPsk)
    else if secret == [] then Err(MissingPsk)
    else if |secret| < MIN_PSK_LEN then Err(InsecurePsk)
    else Ok(Psk(secret, id))
  }

  /** The mode octets: bit 0 says that a PSK is in use, bit 1 that the sender is authenticated. */
  lemma ModeBytesExactly(mode: Mode)
    ensures mode.Byte() as int == (if mode.TakesPsk() then 1 else 0) + (if mode.Authenticates() then 2 else 0)
    ensures mode.TakesPsk() <==> mode in {PskOnly, AuthPsk}
    ensures mode.Authenticates() <==> mode in {Auth, AuthPsk}
  {
  }

  /** Different modes are different octets. */
  lemma ModeByteInjective(a: Mode, b: Mode)
    requires a.Byte() == b.Byte()
    ensures a == b
  {
  }

  /** Which inputs VerifyPSKInputs accepts, and what it raises on the others. */
  lemma PskInputsExactly(mode: Mode, psk: Bytes, pskId: Bytes)
    ensures var error := VerifyPskInputs(mode, psk, pskId);
            && (error == None <==>
                if mode in {PskOnly, AuthPsk} then psk != [] && pskId != [] else psk == [] && pskId == [])
            && (error == Some(InconsistentPsk) <==> (psk == [] <==> pskId != []))
            && (error == Some(UnnecessaryPsk) <==> mode in {Base, Auth} && psk != [] && pskId != [])
            && (error == Some(MissingPsk) <==> mode in {PskOnly, AuthPsk} && psk == [] && pskId == [])
  {
  }
}
