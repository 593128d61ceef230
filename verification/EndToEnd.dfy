/** The agreement and safety theorems for the KEMs the crate ships, from the laws of their primitives alone. */
module EndToEnd {
  import opened ByteStrings
  import opened Results
  import opened Primitives
  import opened MessageContext
  import opened KeySchedule
  import opened Hpke
  import Channel
  import DhKem
  import DhSessions
  import Montgomery
  import PrimeCurves
  import PostQuantum

  // ---- What the two ends of a setup may rely on ----

  /** If the sender's setup succeeds, so does the receiver's from the wire, with the same context and exports. */
  ghost predicate EndsAgree<Rng(!new), Sk(!new), Pk(!new)>(
    k: Kem<Rng, Sk, Pk>, s: Suite, rng: Rng, skR: Sk, pkR: Pk, info: Bytes, sm: SenderMode<Sk>, rm: ReceiverMode<Pk>)
    requires FitsSchedule(s)
  {
    SenderSetup(k, s, rng, pkR, info, sm).Ok? ==>
      var (enc, c) := SenderSetup(k, s, rng, pkR, info, sm).value;
      && k.encFromBytes(enc) == Ok(enc)
      && ReceiverSetup(k, s, enc, skR, info, rm) == Ok(c)
      && forall context, length: nat ::
           SendExportSpec(k, s, rng, pkR, info, context, length, sm).Ok? ==>
             ReceiverExportSpec(k, s, enc, skR, info, context, length, rm) ==
             Ok(SendExportSpec(k, s, rng, pkR, info, context, length, sm).value.1)
  }

  /** Single-shot open turns whatever single-shot seal returns back into its plaintext. */
  ghost predicate OpensWhatItSeals<Rng(!new), Sk(!new), Pk(!new)>(
    k: Kem<Rng, Sk, Pk>, s: Suite, rng: Rng, skR: Sk, pkR: Pk, info: Bytes, sm: SenderMode<Sk>, rm: ReceiverMode<Pk>)
    requires FitsSchedule(s)
  {
    forall aad, pt ::
      SealSpec(k, s, rng, pkR, info, aad, pt, sm).Ok? ==>
        var (enc, ct) := SealSpec(k, s, rng, pkR, info, aad, pt, sm).value;
        k.encFromBytes(enc) == Ok(enc) && OpenSpec(k, s, enc, skR, info, aad, ct, rm) == Ok(pt)
  }

  /**
   In every run between the two ends, over any network, the receiver accepts a prefix of what was sent, short of a
   forgery; the counters stay in step, no nonce is used twice, and outstanding messages are accepted when delivered.
   */
  ghost predicate KeepsSessionsSafe<Rng(!new), Sk(!new), Pk(!new)>(
    k: Kem<Rng, Sk, Pk>, s: Suite, rng: Rng, skR: Sk, pkR: Pk, info: Bytes, sm: SenderMode<Sk>, rm: ReceiverMode<Pk>)
    requires FitsSchedule(s)
  {
    SenderSetup(k, s, rng, pkR, info, sm).Ok? ==>
      var (enc, c) := SenderSetup(k, s, rng, pkR, info, sm).value;
      var receiver := ReceiverSetup(k, s, enc, skR, info, rm);
      && receiver.Ok?
      && forall actions :: Channel.Safe(c, Channel.Run(Channel.Session(c, receiver.value, [], []), actions))
  }

  /** Single-shot seal and open answer with what the AEAD answers, on whatever octets they are handed. */
  ghost predicate AnswersAsAead<Rng(!new), Sk(!new), Pk(!new)>(
    k: Kem<Rng, Sk, Pk>, s: Suite, rng: Rng, skR: Sk, pkR: Pk, info: Bytes, sm: SenderMode<Sk>, rm: ReceiverMode<Pk>)
    requires FitsSchedule(s)
  {
    && (forall aad, pt :: SealAnswers(k, s, rng, pkR, info, aad, pt, sm))
    && (forall enc, aad, ct :: OpenAnswers(k, s, enc, skR, info, aad, ct, rm))
  }

  /** All four, for one KEM, suite and choice of everything else. */
  ghost predicate StackCorrect<Rng(!new), Sk(!new), Pk(!new)>(
    k: Kem<Rng, Sk, Pk>, s: Suite, rng: Rng, skR: Sk, pkR: Pk, info: Bytes, sm: SenderMode<Sk>, rm: ReceiverMode<Pk>)
    requires FitsSchedule(s)
  {
    && EndsAgree(k, s, rng, skR, pkR, info, sm, rm)
    && (s.aead.Sealing() ==>
          && AnswersAsAead(k, s, rng, skR, pkR, info, sm, rm)
          && OpensWhatItSeals(k, s, rng, skR, pkR, info, sm, rm)
          && KeepsSessionsSafe(k, s, rng, skR, pkR, info, sm, rm))
  }

  lemma LawfulKemExports<Rng(!new), Sk(!new), Pk(!new)>(
    k: Kem<Rng, Sk, Pk>, s: Suite, rng: Rng, skR: Sk, pkR: Pk, info: Bytes, sm: SenderMode<Sk>, rm: ReceiverMode<Pk>)
    requires LawfulKem(k) && s.Lawful() && FitsSchedule(s)
    requires k.proper(rng) && k.paired(skR, pkR) && Matching(k, sm, rm) && sm.Valid(k.authenticates)
    ensures EndsAgree(k, s, rng, skR, pkR, info, sm, rm)
  {
    SetupsAgree(k, s, rng, skR, pkR, info, sm, rm);
    forall context, length: nat { SingleShotExportsAgree(k, s, rng, skR, pkR, info, context, length, sm, rm); }
  }

  lemma LawfulKemOpens<Rng(!new), Sk(!new), Pk(!new)>(
    k: Kem<Rng, Sk, Pk>, s: Suite, rng: Rng, skR: Sk, pkR: Pk, info: Bytes, sm: SenderMode<Sk>, rm: ReceiverMode<Pk>)
    requires LawfulKem(k) && s.Lawful() && FitsSchedule(s) && s.aead.Sealing()
    requires k.proper(rng) && k.paired(skR, pkR) && Matching(k, sm, rm) && sm.Valid(k.authenticates)
    ensures OpensWhatItSeals(k, s, rng, skR, pkR, info, sm, rm)
  {
    forall aad, pt { OpenUndoesSeal(k, s, rng, skR, pkR, info, aad, pt, sm, rm); }
  }

  lemma AnyKemAnswers<Rng(!new), Sk(!new), Pk(!new)>(
    k: Kem<Rng, Sk, Pk>, s: Suite, rng: Rng, skR: Sk, pkR: Pk, info: Bytes, sm: SenderMode<Sk>, rm: ReceiverMode<Pk>)
    requires s.Lawful() && FitsSchedule(s) && sm.Valid(k.authenticates) && rm.Valid(k.authenticates)
    ensures AnswersAsAead(k, s, rng, skR, pkR, info, sm, rm)
  {
    forall aad, pt { SealSingleExactly(k, s, rng, pkR, info, aad, pt, sm); }
    forall enc, aad, ct { OpenSingleExactly(k, s, enc, skR, info, aad, ct, rm); }
  }

  lemma LawfulKemSessions<Rng(!new), Sk(!new), Pk(!new)>(
    k: Kem<Rng, Sk, Pk>, s: Suite, rng: Rng, skR: Sk, pkR: Pk, info: Bytes, sm: SenderMode<Sk>, rm: ReceiverMode<Pk>)
    requires LawfulKem(k) && s.Lawful() && FitsSchedule(s) && s.aead.Sealing()
    requires k.proper(rng) && k.paired(skR, pkR) && Matching(k, sm, rm) && sm.Valid(k.authenticates)
    ensures KeepsSessionsSafe(k, s, rng, skR, pkR, info, sm, rm)
  {
    SetupsAgree(k, s, rng, skR, pkR, info, sm, rm);
    if SenderSetup(k, s, rng, pkR, info, sm).Ok? {
      forall actions { SessionsAreSafe(k, s, rng, skR, pkR, info, sm, rm, actions); }
    }
  }

  lemma LawfulKemStack<Rng(!new), Sk(!new), Pk(!new)>(
    k: Kem<Rng, Sk, Pk>, s: Suite, rng: Rng, skR: Sk, pkR: Pk, info: Bytes, sm: SenderMode<Sk>, rm: ReceiverMode<Pk>)
    requires LawfulKem(k) && s.Lawful()
    requires k.proper(rng) && k.paired(skR, pkR) && Matching(k, sm, rm) && sm.Valid(k.authenticates)
    ensures FitsSchedule(s) && StackCorrect(k, s, rng, skR, pkR, info, sm, rm)
  {
    SetupsAgree(k, s, rng, skR, pkR, info, sm, rm);
    LawfulKemExports(k, s, rng, skR, pkR, info, sm, rm);
    if s.aead.Sealing() {
      AnyKemAnswers(k, s, rng, skR, pkR, info, sm, rm);
      LawfulKemOpens(k, s, rng, skR, pkR, info, sm, rm);
      LawfulKemSessions(k, s, rng, skR, pkR, info, sm, rm);
    }
  }

  // ---- The crate's KEMs ----

  /** DHKEM over any lawful group, in all four modes. */
  lemma DhStack<Sk(!new), Pk(!new)>(
    g: DhKem.Group<Sk, Pk>, s: Suite, skE: Sk, skR: DhKem.PrivateKey<Sk>, pkR: Pk, info: Bytes,
    sm: SenderMode<DhKem.PrivateKey<Sk>>, rm: ReceiverMode<Pk>)
    requires DhKem.LawfulGroup(g) && s.Lawful()
    requires g.validSk(skE) && DhKem.Paired(g, skR, pkR) && Matching(DhSessions.DhKemOf(g), sm, rm) && sm.Valid(true)
    ensures FitsSchedule(s) && StackCorrect(DhSessions.DhKemOf(g), s, skE, skR, pkR, info, sm, rm)
  {
    DhSessions.DhKemLawful(g);
    LawfulKemStack(DhSessions.DhKemOf(g), s, skE, skR, pkR, info, sm, rm);
  }

  /** X25519 and X448: the ephemeral scalar is any clamped one, the key pairs any the crate constructs. */
  lemma MontgomeryStack(
    c: Montgomery.Curve, s: Suite, skE: Bytes, skR: DhKem.PrivateKey<Bytes>, pkR: Bytes, info: Bytes,
    sm: SenderMode<DhKem.PrivateKey<Bytes>>, rm: ReceiverMode<Bytes>)
    requires Montgomery.LawfulCurve(c) && s.Lawful() && c.ClampedKey(skE)
    requires DhKem.Paired(Montgomery.GroupOf(c), skR, pkR)
    requires Matching(DhSessions.DhKemOf(Montgomery.GroupOf(c)), sm, rm) && sm.Valid(true)
    ensures FitsSchedule(s)
    ensures StackCorrect(DhSessions.DhKemOf(Montgomery.GroupOf(c)), s, skE, skR, pkR, info, sm, rm)
  {
    Montgomery.MontgomeryGroupLawful(c);
    DhStack(Montgomery.GroupOf(c), s, skE, skR, pkR, info, sm, rm);
  }

  /** P-256, P-384, P-521 and secp256k1: the ephemeral scalar is any from 1 to order - 1. */
  lemma PrimeStack<Point(!new)>(
    c: PrimeCurves.Curve<Point>, s: Suite, skE: nat, skR: DhKem.PrivateKey<nat>, pkR: Point, info: Bytes,
    sm: SenderMode<DhKem.PrivateKey<nat>>, rm: ReceiverMode<Point>)
    requires PrimeCurves.LawfulCurve(c) && s.Lawful() && 0 < skE < c.order
    requires DhKem.Paired(PrimeCurves.GroupOf(c), skR, pkR)
    requires Matching(DhSessions.DhKemOf(PrimeCurves.GroupOf(c)), sm, rm) && sm.Valid(true)
    ensures FitsSchedule(s)
    ensures StackCorrect(DhSessions.DhKemOf(PrimeCurves.GroupOf(c)), s, skE, skR, pkR, info, sm, rm)
  {
    PrimeCurves.PrimeGroupLawful(c);
    DhStack(PrimeCurves.GroupOf(c), s, skE, skR, pkR, info, sm, rm);
  }

  /** X-Wing and ML-KEM in the two unauthenticated modes: the key pair is that of any seed. */
  lemma PostQuantumStack<Dk(!new), Ek(!new)>(
    q: PostQuantum.Scheme<Dk, Ek>, s: Suite, random: Bytes, seed: Bytes, info: Bytes,
    sm: SenderMode<PostQuantum.KeyState<Dk>>, rm: ReceiverMode<PostQuantum.PublicKey<Ek>>)
    requires PostQuantum.LawfulScheme(q) && s.Lawful()
    requires Matching(PostQuantum.PqKemOf(q), sm, rm) && sm.Valid(false)
    ensures FitsSchedule(s)
    ensures StackCorrect(
              PostQuantum.PqKemOf(q), s, random,
              PostQuantum.KeyFromSeed(q, seed), PostQuantum.PublicFromSeed(q, seed), info, sm, rm)
  {
    PostQuantum.PqKemLawful(q, seed);
    assert PostQuantum.PairedKeys(q, PostQuantum.KeyFromSeed(q, seed), PostQuantum.PublicFromSeed(q, seed));
    LawfulKemStack(
      PostQuantum.PqKemOf(q), s, random,
      PostQuantum.KeyFromSeed(q, seed), PostQuantum.PublicFromSeed(q, seed), info, sm, rm);
  }
}
