/** HPKE over DHKEM: the KEM instance, and what two ends that reach one exporter secret must agree on. */
module DhSessions {
  import opened ByteStrings
  import opened Results
  import opened Primitives
  import opened LabeledKdf
  import opened DomainSeparation
  import opened PskInputs
  import opened MessageContext
  import opened KeySchedule
  import opened Binding
  import opened DhKem
  import opened Hpke
  import opened SessionBinding

  function DhKemOf<Sk, Pk(==)>(g: Group<Sk, Pk>): Kem<Sk, PrivateKey<Sk>, Pk> {
    Kem(g.id,
        (skE, pkR) => EncapOf(g, skE, pkR, None),
        (skE, pkR, skS) => EncapOf(g, skE, pkR, Some(skS)),
        (enc, skR) => DecapOf(g, enc, skR),
        (enc, skR, pkS) => AuthDecapOf(g, enc, skR, pkS),
        b => EncFromBytes(g, b),
        g.validSk,
        (k, pk) => Paired(g, k, pk),
        true)
  }

  /** DHKEM over any lawful group is a lawful KEM in all four modes. */
  lemma DhKemLawful<Sk(!new), Pk(!new)>(g: Group<Sk, Pk>)
    requires LawfulGroup(g)
    ensures LawfulKem(DhKemOf(g)) && DhKemOf(g).id == g.id && DhKemOf(g).authenticates
  {
    forall skE, skR, pkR | g.validSk(skE) && Paired(g, skR, pkR) && EncapOf(g, skE, pkR, None).Ok?
      ensures var (ss, enc) := EncapOf(g, skE, pkR, None).value;
              EncFromBytes(g, enc) == Ok(enc) && DecapOf(g, enc, skR) == Ok(ss)
    {
      EncapDecapAgree(g, skE, skR, pkR);
    }
    forall skE, skR, pkR, skS, pkS |
      g.validSk(skE) && Paired(g, skR, pkR) && Paired(g, skS, pkS) && EncapOf(g, skE, pkR, Some(skS)).Ok?
      ensures var (ss, enc) := EncapOf(g, skE, pkR, Some(skS)).value;
              EncFromBytes(g, enc) == Ok(enc) && AuthDecapOf(g, enc, skR, pkS) == Ok(ss)
    {
      AuthEncapDecapAgree(g, skE, skR, pkR, skS, pkS);
    }
  }

  // ---- What one encapsulation or decapsulation hashes ----

  /** Diffie-Hellman outputs and serialised keys; the sender's part is present in the authenticated modes only. */
  datatype KemTranscript =
    | Plain(dh: Bytes, enc: Bytes, pkR: Bytes)
    | Authenticated(dh: Bytes, dhS: Bytes, enc: Bytes, pkR: Bytes, pkS: Bytes)
  {
    predicate Sized(ndh: nat, npk: nat) {
      && |dh| == ndh && |enc| == npk && |pkR| == npk
      && (Authenticated? ==> |dhS| == ndh && |pkS| == npk)
    }

    function DhString(): Bytes {
      match this
      case Plain(dh, _, _) => dh
      case Authenticated(dh, dhS, _, _, _) => dh + dhS
    }

    function KemContext(): Bytes {
      match this
      case Plain(_, enc, pkR) => enc + pkR
      case Authenticated(_, _, enc, pkR, pkS) => enc + pkR + pkS
    }
  }

  function EaeQuery<Sk, Pk>(g: Group<Sk, Pk>, t: KemTranscript): Query {
    ExtractQuery([], LabeledIkm(g.Caller().SuiteId(), EaePrk.Text(), t.DhString()))
  }

  function SharedSecretQuery<Sk, Pk>(g: Group<Sk, Pk>, t: KemTranscript): Query {
    ExpandQuery(
      EaeQuery(g, t).Answer(g.kdf),
      LabeledInfo(g.nsecret, g.Caller().SuiteId(), SharedSecret.Text(), t.KemContext()),
      g.nsecret)
  }

  function KemQueries<Sk, Pk>(g: Group<Sk, Pk>, t: KemTranscript): seq<Query> {
    [EaeQuery(g, t), SharedSecretQuery(g, t)]
  }

  function SharedSecretOf<Sk, Pk>(g: Group<Sk, Pk>, t: KemTranscript): Bytes {
    SharedSecretQuery(g, t).Answer(g.kdf)
  }

  /** The fixed lengths make the context say which kind of encapsulation it is and where each key begins. */
  lemma KemContextsSeparate(t1: KemTranscript, t2: KemTranscript, ndh: nat, npk: nat)
    requires t1.Sized(ndh, npk) && t2.Sized(ndh, npk) && npk > 0
    requires t1.KemContext() == t2.KemContext() && t1.DhString() == t2.DhString()
    ensures t1 == t2
  {
    if t1.Authenticated? {
      assert |t1.KemContext()| == 3 * npk && t2.Authenticated?;
      SplitHead(t1.enc + t1.pkR, t1.pkS, t2.enc + t2.pkR, t2.pkS);
      SplitHead(t1.dh, t1.dhS, t2.dh, t2.dhS);
    } else {
      assert |t1.KemContext()| == 2 * npk && t2.Plain?;
    }
    SplitHead(t1.enc, t1.pkR, t2.enc, t2.pkR);
  }

  lemma SharedSecretSized<Sk(!new), Pk(!new)>(g: Group<Sk, Pk>, t: KemTranscript)
    requires LawfulGroup(g)
    ensures |SharedSecretOf(g, t)| == g.nsecret
  {
  }

  /** One shared secret, one set of keys and Diffie-Hellman outputs; or two of the KEM's own calls collide. */
  lemma SharedSecretBindsKeys<Sk(!new), Pk(!new)>(g: Group<Sk, Pk>, t1: KemTranscript, t2: KemTranscript)
    requires LawfulGroup(g) && t1.Sized(g.ndh, g.npk) && t2.Sized(g.ndh, g.npk)
    requires SharedSecretOf(g, t1) == SharedSecretOf(g, t2)
    ensures t1 == t2 || ClashBetween(g.kdf, KemQueries(g, t1), KemQueries(g, t2))
  {
    var q1, q2 := KemQueries(g, t1), KemQueries(g, t2);
    if !ClashBetween(g.kdf, q1, q2) {
      NoClashAt(g.kdf, q1, q2, 1);
      ExpandInputsSeparate(g.nsecret, g.Caller(), SharedSecret, t1.KemContext(),
                           g.nsecret, g.Caller(), SharedSecret, t2.KemContext());
      NoClashAt(g.kdf, q1, q2, 0);
      ExtractInputsSeparate(g.Caller(), EaePrk, t1.DhString(), g.Caller(), EaePrk, t2.DhString());
      KemContextsSeparate(t1, t2, g.ndh, g.npk);
    }
  }

  // ---- The transcripts of the two ends ----

  function SenderTranscript<Sk, Pk>(g: Group<Sk, Pk>, skE: Sk, pkR: Pk, m: SenderMode<PrivateKey<Sk>>): KemTranscript {
    var enc := g.pkToBytes(g.skToPk(skE));
    if m.SendAuth? || m.SendAuthPsk? then
      Authenticated(g.dhRaw(skE, pkR), g.dhRaw(m.skS.sk, pkR), enc, g.pkToBytes(pkR), m.skS.pkBytes)
    else Plain(g.dhRaw(skE, pkR), enc, g.pkToBytes(pkR))
  }

  function ReceiverTranscript<Sk, Pk>(
    g: Group<Sk, Pk>, enc: Bytes, skR: PrivateKey<Sk>, m: ReceiverMode<Pk>): KemTranscript
    requires g.pkFromBytes(enc).Ok?
  {
    var pkE := g.pkFromBytes(enc).value;
    if m.ReceiveAuth? || m.ReceiveAuthPsk? then
      Authenticated(g.dhRaw(skR.sk, pkE), g.dhRaw(skR.sk, m.pkS), enc, skR.pkBytes, g.pkToBytes(m.pkS))
    else Plain(g.dhRaw(skR.sk, pkE), enc, skR.pkBytes)
  }

  lemma SharedSecretOfIsRfc<Sk(!new), Pk(!new)>(g: Group<Sk, Pk>, t: KemTranscript)
    ensures SharedSecretOf(g, t) == RfcExtractAndExpand(g, t.DhString(), t.KemContext())
  {
  }

  lemma SenderHashesItsTranscript<Sk(!new), Pk(!new)>(g: Group<Sk, Pk>, skE: Sk, pkR: Pk, m: SenderMode<PrivateKey<Sk>>)
    requires EncapFor(DhKemOf(g), skE, pkR, m).Ok?
    ensures EncapFor(DhKemOf(g), skE, pkR, m).value ==
            (SharedSecretOf(g, SenderTranscript(g, skE, pkR, m)), SenderTranscript(g, skE, pkR, m).enc)
  {
    SharedSecretOfIsRfc(g, SenderTranscript(g, skE, pkR, m));
  }

  lemma ReceiverHashesItsTranscript<Sk(!new), Pk(!new)>(
    g: Group<Sk, Pk>, enc: Bytes, skR: PrivateKey<Sk>, m: ReceiverMode<Pk>)
    requires DecapFor(DhKemOf(g), enc, skR, m).Ok?
    ensures g.pkFromBytes(enc).Ok?
    ensures DecapFor(DhKemOf(g), enc, skR, m).value == SharedSecretOf(g, ReceiverTranscript(g, enc, skR, m))
  {
    SharedSecretOfIsRfc(g, ReceiverTranscript(g, enc, skR, m));
  }

  // ---- What the KEM answers, on every input ----

  /** An encapsulation fails exactly on an all-zero output; otherwise it gives the hash of its transcript and `enc`. */
  lemma EncapsulatesExactly<Sk(!new), Pk(!new)>(g: Group<Sk, Pk>, skE: Sk, pkR: Pk, m: SenderMode<PrivateKey<Sk>>)
    ensures var r, t := EncapFor(DhKemOf(g), skE, pkR, m), SenderTranscript(g, skE, pkR, m);
            if t.dh == Zeros(g.ndh) || (t.Authenticated? && t.dhS == Zeros(g.ndh)) then r == Err(EncapError)
            else r == Ok((SharedSecretOf(g, t), t.enc))
  {
    SharedSecretOfIsRfc(g, SenderTranscript(g, skE, pkR, m));
  }

  /** A decapsulation passes on the refusal of `enc`, fails on an all-zero output, or else hashes its transcript. */
  lemma DecapsulatesExactly<Sk(!new), Pk(!new)>(
    g: Group<Sk, Pk>, enc: Bytes, skR: PrivateKey<Sk>, m: ReceiverMode<Pk>)
    ensures var r, parsed := DecapFor(DhKemOf(g), enc, skR, m), g.pkFromBytes(enc);
            if parsed.Err? then r == Err(parsed.error)
            else
              var t := ReceiverTranscript(g, enc, skR, m);
              if t.dh == Zeros(g.ndh) || (t.Authenticated? && t.dhS == Zeros(g.ndh)) then r == Err(EncapError)
              else r == Ok(SharedSecretOf(g, t))
    ensures var parsed := DhKemOf(g).encFromBytes(enc);
            if |enc| == g.npk then parsed == Ok(enc) else parsed == Err(InvalidEncappedKey)
  {
    if g.pkFromBytes(enc).Ok? {
      SharedSecretOfIsRfc(g, ReceiverTranscript(g, enc, skR, m));
    }
  }

  /** Every key involved is one the crate can construct; nothing is said about which belong together. */
  predicate KeysConstructed<Sk, Pk>(
    g: Group<Sk, Pk>, skE: Sk, pkR: Pk, sm: SenderMode<PrivateKey<Sk>>, skR: PrivateKey<Sk>, rm: ReceiverMode<Pk>)
  {
    && g.validSk(skE) && CacheValid(g, skR)
    && |g.pkToBytes(pkR)| == g.npk
    && (sm.SendAuth? || sm.SendAuthPsk? ==> CacheValid(g, sm.skS))
    && (rm.ReceiveAuth? || rm.ReceiveAuthPsk? ==> |g.pkToBytes(rm.pkS)| == g.npk)
  }

  lemma ConstructedKeysAreSized<Sk(!new), Pk(!new)>(
    g: Group<Sk, Pk>, skE: Sk, pkR: Pk, sm: SenderMode<PrivateKey<Sk>>,
    enc: Bytes, skR: PrivateKey<Sk>, rm: ReceiverMode<Pk>)
    requires LawfulGroup(g) && KeysConstructed(g, skE, pkR, sm, skR, rm) && g.pkFromBytes(enc).Ok?
    ensures SenderTranscript(g, skE, pkR, sm).Sized(g.ndh, g.npk)
    ensures ReceiverTranscript(g, enc, skR, rm).Sized(g.ndh, g.npk)
  {
    assert |g.pkToBytes(g.skToPk(skR.sk))| == g.npk;
  }

  /** The shared secrets of both ends are what their transcripts hash to, of Nsecret octets. */
  lemma SecretsOfTranscripts<Sk(!new), Pk(!new)>(
    g: Group<Sk, Pk>, skE: Sk, pkR: Pk, sm: SenderMode<PrivateKey<Sk>>,
    enc: Bytes, skR: PrivateKey<Sk>, rm: ReceiverMode<Pk>)
    requires LawfulGroup(g) && KeysConstructed(g, skE, pkR, sm, skR, rm)
    requires EncapFor(DhKemOf(g), skE, pkR, sm).Ok? && DecapFor(DhKemOf(g), enc, skR, rm).Ok?
    ensures g.pkFromBytes(enc).Ok?
    ensures var t1, t2 := SenderTranscript(g, skE, pkR, sm), ReceiverTranscript(g, enc, skR, rm);
            && t1.Sized(g.ndh, g.npk) && t2.Sized(g.ndh, g.npk)
            && EncapFor(DhKemOf(g), skE, pkR, sm).value.0 == SharedSecretOf(g, t1)
            && DecapFor(DhKemOf(g), enc, skR, rm).value == SharedSecretOf(g, t2)
            && |SharedSecretOf(g, t1)| == |SharedSecretOf(g, t2)| == g.nsecret
  {
    SenderHashesItsTranscript(g, skE, pkR, sm);
    ReceiverHashesItsTranscript(g, enc, skR, rm);
    ConstructedKeysAreSized(g, skE, pkR, sm, enc, skR, rm);
    SharedSecretSized(g, SenderTranscript(g, skE, pkR, sm));
    SharedSecretSized(g, ReceiverTranscript(g, enc, skR, rm));
  }

  /**
   Agreement forced by the exporter secret.  A sender and a receiver over one curve and one KDF, not assumed to have
   the same AEAD, matching keys, modes, PSKs or info, nor the same encapsulated key: if their exporter secrets are
   equal, then they share the AEAD, mode, info, PSK and identifier, the octets of `enc`, both public keys and the
   Diffie-Hellman outputs; or a KDF call the sender's KEM or key schedule made collides with the receiver's call of the
   same position.
   */
  lemma ExporterBindsBothEnds<Sk(!new), Pk(!new)>(
    g: Group<Sk, Pk>,
    s1: Suite, skE: Sk, pkR: Pk, info1: Bytes, sm: SenderMode<PrivateKey<Sk>>,
    s2: Suite, enc: Bytes, skR: PrivateKey<Sk>, info2: Bytes, rm: ReceiverMode<Pk>)
    requires LawfulGroup(g) && s1.Lawful() && FitsSchedule(s1) && FitsSchedule(s2) && s1.kdf == s2.kdf
    requires SenderSetup(DhKemOf(g), s1, skE, pkR, info1, sm).Ok?
    requires ReceiverSetup(DhKemOf(g), s2, enc, skR, info2, rm).Ok?
    requires SenderSetup(DhKemOf(g), s1, skE, pkR, info1, sm).value.1.exporterSecret ==
             ReceiverSetup(DhKemOf(g), s2, enc, skR, info2, rm).value.exporterSecret
    requires KeysConstructed(g, skE, pkR, sm, skR, rm)
    ensures g.pkFromBytes(enc).Ok?
    ensures var t1, t2 := SenderTranscript(g, skE, pkR, sm), ReceiverTranscript(g, enc, skR, rm);
            var ss1, ss2 := SharedSecretOf(g, t1), SharedSecretOf(g, t2);
            var k1 := ScheduleTranscript(s1, sm.Mode(), ss1, info1, sm.PskSecret(), sm.PskId());
            var k2 := ScheduleTranscript(s2, rm.Mode(), ss2, info2, rm.PskSecret(), rm.PskId());
            || (t1 == t2 && k1 == k2)
            || ClashBetween(g.kdf, KemQueries(g, t1), KemQueries(g, t2))
            || SchedulesClash(s1.kdf, k1, k2)
  {
    ExporterBindsInputs(DhKemOf(g), s1, skE, pkR, info1, sm, DhKemOf(g), s2, enc, skR, info2, rm);
    SecretsOfTranscripts(g, skE, pkR, sm, enc, skR, rm);
    var t1, t2 := SenderTranscript(g, skE, pkR, sm), ReceiverTranscript(g, enc, skR, rm);
    if SharedSecretOf(g, t1) == SharedSecretOf(g, t2) {
      SharedSecretBindsKeys(g, t1, t2);
    }
  }

  /**
   The same from what an application sees: equal exports of a sender and a receiver over one curve force one exporter
   context, one length and agreement on everything hashed; or one of the calls that lead to the exports collides.
   */
  lemma ExportsBindBothEnds<Sk(!new), Pk(!new)>(
    g: Group<Sk, Pk>,
    s1: Suite, skE: Sk, pkR: Pk, info1: Bytes, sm: SenderMode<PrivateKey<Sk>>, c1: Bytes, n1: nat,
    s2: Suite, enc: Bytes, skR: PrivateKey<Sk>, info2: Bytes, rm: ReceiverMode<Pk>, c2: Bytes, n2: nat)
    requires LawfulGroup(g) && s1.Lawful() && s2.Lawful() && FitsSchedule(s1) && FitsSchedule(s2) && s1.kdf == s2.kdf
    requires SendExportSpec(DhKemOf(g), s1, skE, pkR, info1, c1, n1, sm).Ok?
    requires ReceiverExportSpec(DhKemOf(g), s2, enc, skR, info2, c2, n2, rm) ==
             Ok(SendExportSpec(DhKemOf(g), s1, skE, pkR, info1, c1, n1, sm).value.1)
    requires KeysConstructed(g, skE, pkR, sm, skR, rm)
    ensures g.pkFromBytes(enc).Ok? && n1 == n2 < 0x1_0000
    ensures var t1, t2 := SenderTranscript(g, skE, pkR, sm), ReceiverTranscript(g, enc, skR, rm);
            var ss1, ss2 := SharedSecretOf(g, t1), SharedSecretOf(g, t2);
            var k1 := ScheduleTranscript(s1, sm.Mode(), ss1, info1, sm.PskSecret(), sm.PskId());
            var k2 := ScheduleTranscript(s2, rm.Mode(), ss2, info2, rm.PskSecret(), rm.PskId());
            || (t1 == t2 && k1 == k2 && c1 == c2)
            || ClashBetween(g.kdf, KemQueries(g, t1), KemQueries(g, t2))
            || ExportsClash(s1.kdf, k1, c1, k2, c2, n1)
  {
    ExportsBindInputs(DhKemOf(g), s1, skE, pkR, info1, sm, c1, n1, DhKemOf(g), s2, enc, skR, info2, rm, c2, n2);
    SecretsOfTranscripts(g, skE, pkR, sm, enc, skR, rm);
    var t1, t2 := SenderTranscript(g, skE, pkR, sm), ReceiverTranscript(g, enc, skR, rm);
    if SharedSecretOf(g, t1) == SharedSecretOf(g, t2) {
      SharedSecretBindsKeys(g, t1, t2);
    }
  }

  /** The partner of that theorem: two ends that do match hash one and the same transcript, in every mode. */
  lemma MatchingEndsShareTranscript<Sk(!new), Pk(!new)>(
    g: Group<Sk, Pk>, skE: Sk, skR: PrivateKey<Sk>, pkR: Pk, sm: SenderMode<PrivateKey<Sk>>, rm: ReceiverMode<Pk>)
    requires LawfulGroup(g) && g.validSk(skE) && Paired(g, skR, pkR) && Matching(DhKemOf(g), sm, rm)
    ensures var enc := g.pkToBytes(g.skToPk(skE));
            && g.pkFromBytes(enc).Ok?
            && SenderTranscript(g, skE, pkR, sm) == ReceiverTranscript(g, enc, skR, rm)
            && sm.Mode() == rm.Mode() && sm.PskSecret() == rm.PskSecret() && sm.PskId() == rm.PskId()
  {
    assert g.dhRaw(skE, g.skToPk(skR.sk)) == g.dhRaw(skR.sk, g.skToPk(skE));
    match (sm, rm) {
      case (SendAuth(skS), ReceiveAuth(pkS)) =>
        assert g.dhRaw(skS.sk, g.skToPk(skR.sk)) == g.dhRaw(skR.sk, g.skToPk(skS.sk));
      case (SendAuthPsk(_, skS), ReceiveAuthPsk(_, pkS)) =>
        assert g.dhRaw(skS.sk, g.skToPk(skR.sk)) == g.dhRaw(skR.sk, g.skToPk(skS.sk));
      case _ =>
    }
  }

  /** The sizes the binding of a decapsulation needs: a cached public key and a sender's public key of Npk octets. */
  predicate ReceiverSized<Sk, Pk>(g: Group<Sk, Pk>, k: PrivateKey<Sk>, m: ReceiverMode<Pk>) {
    |k.pkBytes| == g.npk && (m.ReceiveAuth? || m.ReceiveAuthPsk? ==> |g.pkToBytes(m.pkS)| == g.npk)
  }

  /** Two decapsulations with one result, in whatever modes, hashed one transcript; or the KEM's own calls collide. */
  lemma DecapBindsTranscript<Sk(!new), Pk(!new)>(
    g: Group<Sk, Pk>,
    enc1: Bytes, k1: PrivateKey<Sk>, m1: ReceiverMode<Pk>, enc2: Bytes, k2: PrivateKey<Sk>, m2: ReceiverMode<Pk>)
    requires LawfulGroup(g) && ReceiverSized(g, k1, m1) && ReceiverSized(g, k2, m2)
    requires DecapFor(DhKemOf(g), enc1, k1, m1).Ok?
    requires DecapFor(DhKemOf(g), enc1, k1, m1) == DecapFor(DhKemOf(g), enc2, k2, m2)
    ensures g.pkFromBytes(enc1).Ok? && g.pkFromBytes(enc2).Ok?
    ensures var t1, t2 := ReceiverTranscript(g, enc1, k1, m1), ReceiverTranscript(g, enc2, k2, m2);
            t1 == t2 || ClashBetween(g.kdf, KemQueries(g, t1), KemQueries(g, t2))
  {
    ReceiverHashesItsTranscript(g, enc1, k1, m1);
    ReceiverHashesItsTranscript(g, enc2, k2, m2);
    SharedSecretBindsKeys(g, ReceiverTranscript(g, enc1, k1, m1), ReceiverTranscript(g, enc2, k2, m2));
  }

  /**
   Octets are bound as received, in every mode: two encapsulated keys that parse to one public key, and so give the
   same Diffie-Hellman outputs, still decapsulate to different secrets, or the KEM's own calls collide.
   */
  lemma RawOctetsAreBound<Sk(!new), Pk(!new)>(
    g: Group<Sk, Pk>, enc1: Bytes, enc2: Bytes, k: PrivateKey<Sk>, m: ReceiverMode<Pk>)
    requires LawfulGroup(g) && ReceiverSized(g, k, m) && enc1 != enc2
    requires g.pkFromBytes(enc1).Ok? && g.pkFromBytes(enc2) == g.pkFromBytes(enc1)
    ensures DecapFor(DhKemOf(g), enc1, k, m).Ok? <==> DecapFor(DhKemOf(g), enc2, k, m).Ok?
    ensures var d1, d2 := DecapFor(DhKemOf(g), enc1, k, m), DecapFor(DhKemOf(g), enc2, k, m);
            d1.Ok? && d1 == d2 ==>
              ClashBetween(g.kdf, KemQueries(g, ReceiverTranscript(g, enc1, k, m)),
                                  KemQueries(g, ReceiverTranscript(g, enc2, k, m)))
  {
    if DecapFor(DhKemOf(g), enc1, k, m).Ok? && DecapFor(DhKemOf(g), enc1, k, m) == DecapFor(DhKemOf(g), enc2, k, m) {
      DecapBindsTranscript(g, enc1, k, m, enc2, k, m);
    }
  }

  /**
   Why the cache must be right: with a wrong one of the right length, decapsulation fails for the same inputs but never
   gives the secret the recomputed public key gives, unless the KEM's own calls collide.
   */
  lemma WrongCacheIsNoticed<Sk(!new), Pk(!new)>(g: Group<Sk, Pk>, enc: Bytes, k: PrivateKey<Sk>, m: ReceiverMode<Pk>)
    requires LawfulGroup(g) && ReceiverSized(g, k, m) && !CacheRight(g, k)
    requires |g.pkToBytes(g.skToPk(k.sk))| == g.npk
    ensures var d1, d2 := DecapFor(DhKemOf(g), enc, k, m), DecapFor(DhKemOf(g), enc, FromSk(g, k.sk), m);
            && (d1.Ok? <==> d2.Ok?)
            && (d1.Ok? ==> g.pkFromBytes(enc).Ok?)
            && (d1.Ok? && d1 == d2 ==>
                  ClashBetween(g.kdf, KemQueries(g, ReceiverTranscript(g, enc, k, m)),
                                      KemQueries(g, ReceiverTranscript(g, enc, FromSk(g, k.sk), m))))
  {
    var right := FromSk(g, k.sk);
    if DecapFor(DhKemOf(g), enc, k, m).Ok? && DecapFor(DhKemOf(g), enc, k, m) == DecapFor(DhKemOf(g), enc, right, m) {
      DecapBindsTranscript(g, enc, k, m, enc, right, m);
    }
  }
}
