/** DHKEM over an abstract group (section 4.1 of RFC 9180), with the crate's cached public key. */
module DhKem {
  import opened ByteStrings
  import opened Results
  import opened Primitives
  import opened LabeledKdf
  import opened DomainSeparation

  /** A Diffie-Hellman group as the crate's `DiffieHellman` trait sees one; `dhRaw` is the bare multiplication. */
  datatype Group<!Sk(==), !Pk(==)> = Group(
    id: u16,
    kdf: Kdf,
    npk: nat,
    nsk: nat,
    ndh: nat,
    nsecret: u16,
    dhRaw: (Sk, Pk) -> Bytes,
    skToPk: Sk -> Pk,
    pkToBytes: Pk -> Bytes,
    pkFromBytes: Bytes -> Result<Pk>,
    skToBytes: Sk -> Bytes,
    skFromBytes: Bytes -> Result<Sk>,
    validSk: Sk -> bool, // holds of every private key the crate can construct
    scrubbed: Sk -> Sk)  // what zeroizing leaves in place of a private key
  {
    function Caller(): Caller {
      KemCaller(id)
    }

    /** `dh`: the all-zero output is refused. */
    function Dh(sk: Sk, pk: Pk): Result<Bytes> {
      if dhRaw(sk, pk) == Zeros(ndh) then Err(EncapError) else Ok(dhRaw(sk, pk))
    }
  }

  ghost predicate LawfulGroup<Sk(!new), Pk(!new)>(g: Group<Sk, Pk>) {
    && g.kdf.Lawful()
    && g.nsecret == g.kdf.hashLen && g.npk > 0
    && (forall sk, pk :: |g.dhRaw(sk, pk)| == g.ndh)
    && (forall a, b :: g.validSk(a) && g.validSk(b) ==> g.dhRaw(a, g.skToPk(b)) == g.dhRaw(b, g.skToPk(a)))
    && (forall sk :: g.validSk(sk) ==>
          && g.pkFromBytes(g.pkToBytes(g.skToPk(sk))) == Ok(g.skToPk(sk))
          && |g.pkToBytes(g.skToPk(sk))| == g.npk
          && g.skFromBytes(g.skToBytes(sk)) == Ok(sk)
          && |g.skToBytes(sk)| == g.nsk)
    && (forall b :: g.pkFromBytes(b).Ok? ==> |b| == g.npk && |g.pkToBytes(g.pkFromBytes(b).value)| == g.npk)
    && (forall b :: g.skFromBytes(b).Ok? ==> |b| == g.nsk && g.validSk(g.skFromBytes(b).value))
  }

  // ---- Private keys and their cached public key ----

  datatype PrivateKey<Sk> = PrivateKey(sk: Sk, pkBytes: Bytes)

  /** `from_pair`: the public key is in hand. */
  function FromPair<Sk, Pk>(g: Group<Sk, Pk>, sk: Sk, pk: Pk): PrivateKey<Sk> {
    PrivateKey(sk, g.pkToBytes(pk))
  }

  /** `from_sk`: the public key is derived once. */
  function FromSk<Sk, Pk>(g: Group<Sk, Pk>, sk: Sk): PrivateKey<Sk> {
    var pk := g.skToPk(sk);
    PrivateKey(sk, g.pkToBytes(pk))
  }

  function PrivateKeyFromBytes<Sk, Pk>(g: Group<Sk, Pk>, b: Bytes): Result<PrivateKey<Sk>> {
    var sk :- g.skFromBytes(b);
    Ok(FromSk(g, sk))
  }

  function PrivateKeyToBytes<Sk, Pk>(g: Group<Sk, Pk>, k: PrivateKey<Sk>): Bytes {
    g.skToBytes(k.sk)
  }

  /** Zeroizing scrubs the scalar and leaves the cached public key. */
  function Zeroized<Sk, Pk>(g: Group<Sk, Pk>, k: PrivateKey<Sk>): PrivateKey<Sk> {
    k.(sk := g.scrubbed(k.sk))
  }

  /** The cache is what recomputing the public key from the scalar would give. */
  predicate CacheRight<Sk, Pk>(g: Group<Sk, Pk>, k: PrivateKey<Sk>) {
    k.pkBytes == g.pkToBytes(g.skToPk(k.sk))
  }

  /** A key the crate constructs: a proper scalar and the right cache. */
  predicate CacheValid<Sk, Pk>(g: Group<Sk, Pk>, k: PrivateKey<Sk>) {
    g.validSk(k.sk) && CacheRight(g, k)
  }

  /** A key pair the crate hands out together. */
  predicate Paired<Sk, Pk(==)>(g: Group<Sk, Pk>, k: PrivateKey<Sk>, pk: Pk) {
    CacheValid(g, k) && pk == g.skToPk(k.sk)
  }

  /**
   Loading octets gives a valid cache, and a constructed key survives the trip through its own octets, cache included,
   even though the octets carry the scalar only.
   */
  lemma CacheSurvivesReload<Sk(!new), Pk(!new)>(g: Group<Sk, Pk>, b: Bytes, k: PrivateKey<Sk>)
    requires LawfulGroup(g) && CacheValid(g, k)
    ensures var loaded, sk := PrivateKeyFromBytes(g, b), g.skFromBytes(b);
            && (sk.Err? ==> loaded == Err(sk.error))
            && (sk.Ok? ==> loaded.Ok? && loaded.value.sk == sk.value && CacheValid(g, loaded.value))
            && (sk.Ok? ==> PrivateKeyToBytes(g, loaded.value) == g.skToBytes(sk.value))
    ensures PrivateKeyFromBytes(g, PrivateKeyToBytes(g, k)) == Ok(k)
  {
    assert g.skFromBytes(g.skToBytes(k.sk)) == Ok(k.sk);
  }

  // ---- Extract and expand ----

  /** ExtractAndExpand of section 4.1 of RFC 9180, on whole strings. */
  function RfcExtractAndExpand<Sk, Pk>(g: Group<Sk, Pk>, dh: Bytes, kemContext: Bytes): Bytes {
    var eaePrk := LabeledExtract(g.kdf, [], g.Caller().SuiteId(), EaePrk.Text(), dh);
    LabeledExpand(g.kdf, eaePrk, g.Caller().SuiteId(), SharedSecret.Text(), kemContext, g.nsecret)
  }

  /** The expansion to Nsecret octets is never refused. */
  lemma SecretExpansionSucceeds<Sk(!new), Pk(!new)>(g: Group<Sk, Pk>, dh: Bytes, kemContext: Bytes)
    requires LawfulGroup(g)
    ensures var eaePrk := LabeledExtract(g.kdf, [], g.Caller().SuiteId(), EaePrk.Text(), dh);
            CheckedExpand(g.kdf, eaePrk, g.Caller().SuiteId(), SharedSecret.Text(), kemContext, g.nsecret) ==
            Ok(RfcExtractAndExpand(g, dh, kemContext))
    ensures |RfcExtractAndExpand(g, dh, kemContext)| == g.nsecret
  {
    var eaePrk := LabeledExtract(g.kdf, [], g.Caller().SuiteId(), EaePrk.Text(), dh);
    ExpandSucceedsExactly(g.kdf, eaePrk, g.Caller().SuiteId(), SharedSecret.Text(), kemContext, g.nsecret);
  }

  /** `extract_and_expand`: one Diffie-Hellman string, the context piecewise. */
  method ExtractAndExpand<Sk(!new), Pk(!new)>(g: Group<Sk, Pk>, dh: Bytes, kemContext: seq<Bytes>)
    returns (r: Result<Bytes>)
    requires LawfulGroup(g) && 4 + |kemContext| <= MAX_EXPAND_PIECES
    ensures r == Ok(RfcExtractAndExpand(g, dh, Concat(kemContext)))
  {
    var suite := KemSuite(g.id);
    var eaePrk := LabeledExtractWhole(g.kdf, [], suite[..], EaePrk.Text(), dh);
    SecretExpansionSucceeds(g, dh, Concat(kemContext));
    r := LabeledExpandPieces(g.kdf, eaePrk, suite[..], SharedSecret.Text(), kemContext, g.nsecret);
  }

  /** `extract_and_expand_pieces`: both the Diffie-Hellman outputs and the context go through slot arrays. */
  method ExtractAndExpandPieces<Sk(!new), Pk(!new)>(g: Group<Sk, Pk>, dhPieces: seq<Bytes>, kemContext: seq<Bytes>)
    returns (r: Result<Bytes>)
    requires LawfulGroup(g)
    requires 3 + |dhPieces| <= MAX_EXTRACT_PIECES && 4 + |kemContext| <= MAX_EXPAND_PIECES
    ensures r == Ok(RfcExtractAndExpand(g, Concat(dhPieces), Concat(kemContext)))
  {
    var suite := KemSuite(g.id);
    var eaePrk := LabeledExtractPieces(g.kdf, [], suite[..], EaePrk.Text(), dhPieces);
    SecretExpansionSucceeds(g, Concat(dhPieces), Concat(kemContext));
    r := LabeledExpandPieces(g.kdf, eaePrk, suite[..], SharedSecret.Text(), kemContext, g.nsecret);
  }

  // ---- Encapsulation and decapsulation, as values ----

  /** What `encap_with` returns; `skS` is present in the authenticated modes and contributes its cached public key. */
  function EncapOf<Sk, Pk>(g: Group<Sk, Pk>, skE: Sk, pkR: Pk, skS: Option<PrivateKey<Sk>>): Result<(Bytes, Bytes)> {
    var dh1 :- g.Dh(skE, pkR);
    var enc := g.pkToBytes(g.skToPk(skE));
    match skS
    case None => Ok((RfcExtractAndExpand(g, dh1, enc + g.pkToBytes(pkR)), enc))
    case Some(s) =>
      var dh2 :- g.Dh(s.sk, pkR);
      Ok((RfcExtractAndExpand(g, dh1 + dh2, enc + g.pkToBytes(pkR) + s.pkBytes), enc))
  }

  function DecapOf<Sk, Pk>(g: Group<Sk, Pk>, enc: Bytes, skR: PrivateKey<Sk>): Result<Bytes> {
    var pkE :- g.pkFromBytes(enc);
    var dh :- g.Dh(skR.sk, pkE);
    Ok(RfcExtractAndExpand(g, dh, enc + skR.pkBytes))
  }

  function AuthDecapOf<Sk, Pk>(g: Group<Sk, Pk>, enc: Bytes, skR: PrivateKey<Sk>, pkS: Pk): Result<Bytes> {
    var pkE :- g.pkFromBytes(enc);
    var dh1 :- g.Dh(skR.sk, pkE);
    var dh2 :- g.Dh(skR.sk, pkS);
    Ok(RfcExtractAndExpand(g, dh1 + dh2, enc + skR.pkBytes + g.pkToBytes(pkS)))
  }

  function EncFromBytes<Sk, Pk>(g: Group<Sk, Pk>, b: Bytes): Result<Bytes> {
    if |b| != g.npk then Err(InvalidEncappedKey) else Ok(b)
  }

  // ---- The RFC's versions, which recompute pk(skR) and pk(skS) and concatenate ----

  function RfcDecap<Sk, Pk>(g: Group<Sk, Pk>, enc: Bytes, skR: Sk): Result<Bytes> {
    var pkE :- g.pkFromBytes(enc);
    var dh :- g.Dh(skR, pkE);
    Ok(RfcExtractAndExpand(g, dh, enc + g.pkToBytes(g.skToPk(skR))))
  }

  function RfcAuthDecap<Sk, Pk>(g: Group<Sk, Pk>, enc: Bytes, skR: Sk, pkS: Pk): Result<Bytes> {
    var pkE :- g.pkFromBytes(enc);
    var dh1 :- g.Dh(skR, pkE);
    var dh2 :- g.Dh(skR, pkS);
    Ok(RfcExtractAndExpand(g, dh1 + dh2, enc + g.pkToBytes(g.skToPk(skR)) + g.pkToBytes(pkS)))
  }

  function RfcEncap<Sk, Pk>(g: Group<Sk, Pk>, skE: Sk, pkR: Pk): Result<(Bytes, Bytes)> {
    var dh :- g.Dh(skE, pkR);
    var enc := g.pkToBytes(g.skToPk(skE));
    Ok((RfcExtractAndExpand(g, dh, enc + g.pkToBytes(pkR)), enc))
  }

  function RfcAuthEncap<Sk, Pk>(g: Group<Sk, Pk>, skE: Sk, pkR: Pk, skS: Sk): Result<(Bytes, Bytes)> {
    var dh1 :- g.Dh(skE, pkR);
    var dh2 :- g.Dh(skS, pkR);
    var enc := g.pkToBytes(g.skToPk(skE));
    Ok((RfcExtractAndExpand(g, dh1 + dh2, enc + g.pkToBytes(pkR) + g.pkToBytes(g.skToPk(skS))), enc))
  }

  // ---- The implementation ----

  /** `encap_with`: the random choice is the ephemeral scalar. */
  method EncapWith<Sk(!new), Pk(!new)>(g: Group<Sk, Pk>, skE: Sk, pkR: Pk, skS: Option<PrivateKey<Sk>>)
    returns (r: Result<(Bytes, Bytes)>)
    requires LawfulGroup(g)
    ensures r == EncapOf(g, skE, pkR, skS)
    ensures skS.None? ==> r == RfcEncap(g, skE, pkR)
    ensures skS.Some? && CacheRight(g, skS.value) ==> r == RfcAuthEncap(g, skE, pkR, skS.value.sk)
  {
    var pkE := g.skToPk(skE);
    var dh1 := g.Dh(skE, pkR);
    if dh1.Err? {
      return Err(dh1.error);
    }
    var enc := g.pkToBytes(pkE);
    var pkRecipient := g.pkToBytes(pkR);
    var ss;
    match skS {
      case None =>
        ss := ExtractAndExpand(g, dh1.value, [enc, pkRecipient]);
        ConcatTwo(enc, pkRecipient);
      case Some(s) =>
        var dh2 := g.Dh(s.sk, pkR);
        if dh2.Err? {
          return Err(dh2.error);
        }
        ss := ExtractAndExpandPieces(g, [dh1.value, dh2.value], [enc, pkRecipient, s.pkBytes]);
        ConcatTwo(dh1.value, dh2.value);
        ConcatThree(enc, pkRecipient, s.pkBytes);
    }
    r := Ok((ss.value, enc));
  }

  method Decap<Sk(!new), Pk(!new)>(g: Group<Sk, Pk>, enc: Bytes, skR: PrivateKey<Sk>) returns (r: Result<Bytes>)
    requires LawfulGroup(g)
    ensures r == DecapOf(g, enc, skR)
    ensures CacheRight(g, skR) ==> r == RfcDecap(g, enc, skR.sk)
  {
    var pkE := g.pkFromBytes(enc);
    if pkE.Err? {
      return Err(pkE.error);
    }
    var dh := g.Dh(skR.sk, pkE.value);
    if dh.Err? {
      return dh;
    }
    r := ExtractAndExpand(g, dh.value, [enc, skR.pkBytes]);
    ConcatTwo(enc, skR.pkBytes);
  }

  method AuthDecap<Sk(!new), Pk(!new)>(g: Group<Sk, Pk>, enc: Bytes, skR: PrivateKey<Sk>, pkS: Pk)
    returns (r: Result<Bytes>)
    requires LawfulGroup(g)
    ensures r == AuthDecapOf(g, enc, skR, pkS)
    ensures CacheRight(g, skR) ==> r == RfcAuthDecap(g, enc, skR.sk, pkS)
  {
    var pkE := g.pkFromBytes(enc);
    if pkE.Err? {
      return Err(pkE.error);
    }
    var dh1 := g.Dh(skR.sk, pkE.value);
    if dh1.Err? {
      return dh1;
    }
    var dh2 := g.Dh(skR.sk, pkS);
    if dh2.Err? {
      return dh2;
    }
    r := ExtractAndExpandPieces(g, [dh1.value, dh2.value], [enc, skR.pkBytes, g.pkToBytes(pkS)]);
    ConcatTwo(dh1.value, dh2.value);
    ConcatThree(enc, skR.pkBytes, g.pkToBytes(pkS));
  }

  /** With the right cache, all four operations are the RFC's, on every input, the malformed ones included. */
  lemma CachedFormsRefineRfc<Sk(!new), Pk(!new)>(
    g: Group<Sk, Pk>, skE: Sk, pkR: Pk, enc: Bytes, pkS: Pk, k: PrivateKey<Sk>)
    requires CacheRight(g, k)
    ensures DecapOf(g, enc, k) == RfcDecap(g, enc, k.sk)
    ensures AuthDecapOf(g, enc, k, pkS) == RfcAuthDecap(g, enc, k.sk, pkS)
    ensures EncapOf(g, skE, pkR, None) == RfcEncap(g, skE, pkR)
    ensures EncapOf(g, skE, pkR, Some(k)) == RfcAuthEncap(g, skE, pkR, k.sk)
  {
  }

  /**
   Agreement: whatever the ephemeral scalar, if encapsulation succeeds then the octets of `enc` parse and
   decapsulate to the same shared secret, of Nsecret octets; it fails only on an all-zero Diffie-Hellman output.
   */
  lemma EncapDecapAgree<Sk(!new), Pk(!new)>(g: Group<Sk, Pk>, skE: Sk, skR: PrivateKey<Sk>, pkR: Pk)
    requires LawfulGroup(g) && g.validSk(skE) && Paired(g, skR, pkR)
    ensures var r := EncapOf(g, skE, pkR, None);
            && (r.Err? <==> g.dhRaw(skE, pkR) == Zeros(g.ndh))
            && (r.Err? ==> r.error == EncapError)
            && (r.Ok? ==>
                  && EncFromBytes(g, r.value.1) == Ok(r.value.1)
                  && DecapOf(g, r.value.1, skR) == Ok(r.value.0)
                  && |r.value.0| == g.nsecret)
  {
    assert g.dhRaw(skE, g.skToPk(skR.sk)) == g.dhRaw(skR.sk, g.skToPk(skE));
    SecretExpansionSucceeds(g, g.dhRaw(skE, pkR), g.pkToBytes(g.skToPk(skE)) + g.pkToBytes(pkR));
  }

  lemma AuthEncapDecapAgree<Sk(!new), Pk(!new)>(
    g: Group<Sk, Pk>, skE: Sk, skR: PrivateKey<Sk>, pkR: Pk, skS: PrivateKey<Sk>, pkS: Pk)
    requires LawfulGroup(g) && g.validSk(skE) && Paired(g, skR, pkR) && Paired(g, skS, pkS)
    ensures var r := EncapOf(g, skE, pkR, Some(skS));
            && (r.Err? <==> g.dhRaw(skE, pkR) == Zeros(g.ndh) || g.dhRaw(skS.sk, pkR) == Zeros(g.ndh))
            && (r.Err? ==> r.error == EncapError)
            && (r.Ok? ==>
                  && EncFromBytes(g, r.value.1) == Ok(r.value.1)
                  && AuthDecapOf(g, r.value.1, skR, pkS) == Ok(r.value.0)
                  && |r.value.0| == g.nsecret)
  {
    assert g.dhRaw(skE, g.skToPk(skR.sk)) == g.dhRaw(skR.sk, g.skToPk(skE));
    assert g.dhRaw(skS.sk, g.skToPk(skR.sk)) == g.dhRaw(skR.sk, g.skToPk(skS.sk));
    SecretExpansionSucceeds(
      g, g.dhRaw(skE, pkR) + g.dhRaw(skS.sk, pkR), g.pkToBytes(g.skToPk(skE)) + g.pkToBytes(pkR) + skS.pkBytes);
  }
}
