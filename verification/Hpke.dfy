/** Setups and single-shot operations in the four modes, over any KEM whose decapsulation undoes its encapsulation. */
module Hpke {
  import opened ByteStrings
  import opened Results
  import opened Primitives
  import opened PskInputs
  import opened MessageContext
  import opened KeySchedule
  import Channel

  /** A KEM as the key schedule sees one.  `Rng` is the random choice an encapsulation makes. */
  datatype Kem<!Rng, !Sk, !Pk> = Kem(
    id: u16,
    encap: (Rng, Pk) -> Result<(Bytes, Bytes)>,         // shared secret and encapsulated key
    authEncap: (Rng, Pk, Sk) -> Result<(Bytes, Bytes)>,
    decap: (Bytes, Sk) -> Result<Bytes>,
    authDecap: (Bytes, Sk, Pk) -> Result<Bytes>,
    encFromBytes: Bytes -> Result<Bytes>,
    proper: Rng -> bool,                                // the random choice is one the generator can make
    paired: (Sk, Pk) -> bool,                           // the two keys were handed out together
    authenticates: bool)                                // implements the authenticated modes

  ghost predicate LawfulKem<Rng(!new), Sk(!new), Pk(!new)>(k: Kem<Rng, Sk, Pk>) {
    && (forall rng, skR, pkR :: k.proper(rng) && k.paired(skR, pkR) && k.encap(rng, pkR).Ok? ==>
          var (ss, enc) := k.encap(rng, pkR).value;
          k.encFromBytes(enc) == Ok(enc) && k.decap(enc, skR) == Ok(ss))
    && (k.authenticates ==>
          forall rng, skR, pkR, skS, pkS ::
            k.proper(rng) && k.paired(skR, pkR) && k.paired(skS, pkS) && k.authEncap(rng, pkR, skS).Ok? ==>
              var (ss, enc) := k.authEncap(rng, pkR, skS).value;
              k.encFromBytes(enc) == Ok(enc) && k.authDecap(enc, skR, pkS) == Ok(ss))
  }

  // ---- Modes with their arguments ----

  datatype SenderMode<+Sk> =
    | SendBase | SendPsk(psk: Psk) | SendAuth(skS: Sk) | SendAuthPsk(psk: Psk, skS: Sk)
  {
    function Mode(): Mode {
      match this
      case SendBase => Base
      case SendPsk(_) => PskOnly
      case SendAuth(_) => Auth
      case SendAuthPsk(_, _) => AuthPsk
    }

    function PskSecret(): Bytes {
      if SendPsk? || SendAuthPsk? then psk.secret else []
    }

    function PskId(): Bytes {
      if SendPsk? || SendAuthPsk? then psk.id else []
    }

    predicate Valid(authenticates: bool) {
      && (SendPsk? || SendAuthPsk? ==> psk.Valid())
      && (SendAuth? || SendAuthPsk? ==> authenticates)
    }
  }

  datatype ReceiverMode<+Pk> =
    | ReceiveBase | ReceivePsk(psk: Psk) | ReceiveAuth(pkS: Pk) | ReceiveAuthPsk(psk: Psk, pkS: Pk)
  {
    function Mode(): Mode {
      match this
      case ReceiveBase => Base
      case ReceivePsk(_) => PskOnly
      case ReceiveAuth(_) => Auth
      case ReceiveAuthPsk(_, _) => AuthPsk
    }

    function PskSecret(): Bytes {
      if ReceivePsk? || ReceiveAuthPsk? then psk.secret else []
    }

    function PskId(): Bytes {
      if ReceivePsk? || ReceiveAuthPsk? then psk.id else []
    }

    predicate Valid(authenticates: bool) {
      && (ReceivePsk? || ReceiveAuthPsk? ==> psk.Valid())
      && (ReceiveAuth? || ReceiveAuthPsk? ==> authenticates)
    }
  }

  /** The two ends chose the same mode with the same PSK, and the receiver knows the sender's public key. */
  predicate Matching<Rng, Sk, Pk>(k: Kem<Rng, Sk, Pk>, sm: SenderMode<Sk>, rm: ReceiverMode<Pk>) {
    match (sm, rm)
    case (SendBase, ReceiveBase) => true
    case (SendPsk(p), ReceivePsk(q)) => p == q
    case (SendAuth(skS), ReceiveAuth(pkS)) => k.paired(skS, pkS)
    case (SendAuthPsk(p, skS), ReceiveAuthPsk(q, pkS)) => p == q && k.paired(skS, pkS)
    case _ => false
  }

  /** Ends match when they agree on mode and PSK inputs and, if the sender authenticates, on the sender's key pair. */
  lemma MatchingExactly<Rng, Sk, Pk>(k: Kem<Rng, Sk, Pk>, sm: SenderMode<Sk>, rm: ReceiverMode<Pk>)
    ensures Matching(k, sm, rm) <==>
            && sm.Mode() == rm.Mode() && sm.PskSecret() == rm.PskSecret() && sm.PskId() == rm.PskId()
            && (sm.SendAuth? || sm.SendAuthPsk? ==> k.paired(sm.skS, rm.pkS))
  {
  }

  // ---- What the setups compute ----

  function EncapFor<Rng, Sk, Pk>(k: Kem<Rng, Sk, Pk>, rng: Rng, pkR: Pk, m: SenderMode<Sk>): Result<(Bytes, Bytes)> {
    if m.SendAuth? || m.SendAuthPsk? then k.authEncap(rng, pkR, m.skS) else k.encap(rng, pkR)
  }

  function DecapFor<Rng, Sk, Pk>(k: Kem<Rng, Sk, Pk>, enc: Bytes, skR: Sk, m: ReceiverMode<Pk>): Result<Bytes> {
    if m.ReceiveAuth? || m.ReceiveAuthPsk? then k.authDecap(enc, skR, m.pkS) else k.decap(enc, skR)
  }

  function SenderSetup<Rng, Sk, Pk>(k: Kem<Rng, Sk, Pk>, s: Suite, rng: Rng, pkR: Pk, info: Bytes, m: SenderMode<Sk>)
    : Result<(Bytes, CtxState)>
    requires FitsSchedule(s)
  {
    var (ss, enc) :- EncapFor(k, rng, pkR, m);
    var c :- RfcKeySchedule(s, m.Mode(), ss, info, m.PskSecret(), m.PskId());
    Ok((enc, c))
  }

  function ReceiverSetup<Rng, Sk, Pk>(
    k: Kem<Rng, Sk, Pk>, s: Suite, enc: Bytes, skR: Sk, info: Bytes, m: ReceiverMode<Pk>)
    : Result<CtxState>
    requires FitsSchedule(s)
  {
    var ss :- DecapFor(k, enc, skR, m);
    RfcKeySchedule(s, m.Mode(), ss, info, m.PskSecret(), m.PskId())
  }

  // ---- The setup functions ----

  /** `setup_sender_base`, `setup_sender_psk`, `setup_sender_auth` and `setup_sender_auth_psk`, one branch each. */
  method SetupSender<Rng, Sk, Pk>(k: Kem<Rng, Sk, Pk>, s: Suite, rng: Rng, pkR: Pk, info: Bytes, m: SenderMode<Sk>)
    returns (r: Result<(Bytes, SenderContext)>)
    requires s.Lawful() && s.kemId == k.id && m.Valid(k.authenticates)
    ensures FitsSchedule(s)
    ensures r.Ok? ==> fresh(r.value.1.inner) && fresh(r.value.1.inner.baseNonce) && r.value.1.inner.Valid()
    ensures (if r.Ok? then Ok((r.value.0, r.value.1.inner.State())) else Err(r.error)) ==
            SenderSetup(k, s, rng, pkR, info, m)
  {
    ScheduleIsTotal(s, m.Mode(), [], info, m.PskSecret(), m.PskId());
    var encapped;
    var c;
    match m {
      case SendBase =>
        encapped := k.encap(rng, pkR);
        if encapped.Err? {
          return Err(encapped.error);
        }
        c := KeySchedulePskFree(Base, s, encapped.value.0, info);
      case SendPsk(psk) =>
        encapped := k.encap(rng, pkR);
        if encapped.Err? {
          return Err(encapped.error);
        }
        c := KeySchedulePsk(PskOnly, s, encapped.value.0, info, psk);
      case SendAuth(skS) =>
        encapped := k.authEncap(rng, pkR, skS);
        if encapped.Err? {
          return Err(encapped.error);
        }
        c := KeySchedulePskFree(Auth, s, encapped.value.0, info);
      case SendAuthPsk(psk, skS) =>
        encapped := k.authEncap(rng, pkR, skS);
        if encapped.Err? {
          return Err(encapped.error);
        }
        c := KeySchedulePsk(AuthPsk, s, encapped.value.0, info, psk);
    }
    var sender := new SenderContext(c.value);
    r := Ok((encapped.value.1, sender));
  }

  /** `setup_receiver_base`, `setup_receiver_psk`, `setup_receiver_auth` and `setup_receiver_auth_psk`. */
  method SetupReceiver<Rng, Sk, Pk>(
    k: Kem<Rng, Sk, Pk>, s: Suite, enc: Bytes, skR: Sk, info: Bytes, m: ReceiverMode<Pk>)
    returns (r: Result<ReceiverContext>)
    requires s.Lawful() && s.kemId == k.id && m.Valid(k.authenticates)
    ensures FitsSchedule(s)
    ensures r.Ok? ==> fresh(r.value.inner) && fresh(r.value.inner.baseNonce) && r.value.inner.Valid()
    ensures (if r.Ok? then Ok(r.value.inner.State()) else Err(r.error)) == ReceiverSetup(k, s, enc, skR, info, m)
  {
    ScheduleIsTotal(s, m.Mode(), [], info, m.PskSecret(), m.PskId());
    var ss;
    var c;
    match m {
      case ReceiveBase =>
        ss := k.decap(enc, skR);
        if ss.Err? {
          return Err(ss.error);
        }
        c := KeySchedulePskFree(Base, s, ss.value, info);
      case ReceivePsk(psk) =>
        ss := k.decap(enc, skR);
        if ss.Err? {
          return Err(ss.error);
        }
        c := KeySchedulePsk(PskOnly, s, ss.value, info, psk);
      case ReceiveAuth(pkS) =>
        ss := k.authDecap(enc, skR, pkS);
        if ss.Err? {
          return Err(ss.error);
        }
        c := KeySchedulePskFree(Auth, s, ss.value, info);
      case ReceiveAuthPsk(psk, pkS) =>
        ss := k.authDecap(enc, skR, pkS);
        if ss.Err? {
          return Err(ss.error);
        }
        c := KeySchedulePsk(AuthPsk, s, ss.value, info, psk);
    }
    var receiver := new ReceiverContext(c.value);
    r := Ok(receiver);
  }

  // ---- Single-shot operations ----

  function SealSpec<Rng, Sk, Pk>(
    k: Kem<Rng, Sk, Pk>, s: Suite, rng: Rng, pkR: Pk, info: Bytes, aad: Bytes, pt: Bytes, m: SenderMode<Sk>)
    : Result<(Bytes, Bytes)>
    requires FitsSchedule(s)
  {
    var (enc, c) :- SenderSetup(k, s, rng, pkR, info, m);
    var ct :- SealStep(c, aad, pt).1;
    Ok((enc, ct))
  }

  function OpenSpec<Rng, Sk, Pk>(
    k: Kem<Rng, Sk, Pk>, s: Suite, enc: Bytes, skR: Sk, info: Bytes, aad: Bytes, ct: Bytes, m: ReceiverMode<Pk>)
    : Result<Bytes>
    requires FitsSchedule(s)
  {
    var c :- ReceiverSetup(k, s, enc, skR, info, m);
    OpenStep(c, aad, ct).1
  }

  function SendExportSpec<Rng, Sk, Pk>(
    k: Kem<Rng, Sk, Pk>, s: Suite, rng: Rng, pkR: Pk, info: Bytes, context: Bytes, length: nat, m: SenderMode<Sk>)
    : Result<(Bytes, Bytes)>
    requires FitsSchedule(s)
  {
    var (enc, c) :- SenderSetup(k, s, rng, pkR, info, m);
    var secret :- ExportOf(c, context, length);
    Ok((enc, secret))
  }

  function ReceiverExportSpec<Rng, Sk, Pk>(
    k: Kem<Rng, Sk, Pk>, s: Suite, enc: Bytes, skR: Sk, info: Bytes, context: Bytes, length: nat, m: ReceiverMode<Pk>)
    : Result<Bytes>
    requires FitsSchedule(s)
  {
    var c :- ReceiverSetup(k, s, enc, skR, info, m);
    ExportOf(c, context, length)
  }

  lemma SetupsProduceSealers<Rng, Sk, Pk>(
    k: Kem<Rng, Sk, Pk>, s: Suite, rng: Rng, pkR: Pk, info: Bytes, m: SenderMode<Sk>)
    requires s.Lawful() && m.Valid(k.authenticates)
    ensures FitsSchedule(s)
    ensures var r := SenderSetup(k, s, rng, pkR, info, m);
            var encapped := EncapFor(k, rng, pkR, m);
            && (encapped.Err? ==> r == Err(encapped.error))
            && (encapped.Ok? ==>
                  var (ss, enc) := encapped.value;
                  var schedule := RfcKeySchedule(s, m.Mode(), ss, info, m.PskSecret(), m.PskId());
                  schedule.Ok? && r == Ok((enc, schedule.value)))
            && (r.Ok? ==>
                  && r.value.1.Valid() && r.value.1.counter == 0 && r.value.1.suite == s
                  && |r.value.1.exporterSecret| == s.kdf.hashLen
                  && (s.aead.Sealing() ==> r.value.1.CanSeal()))
  {
    var encapped := EncapFor(k, rng, pkR, m);
    ScheduleIsTotal(s, m.Mode(), if encapped.Ok? then encapped.value.0 else [], info, m.PskSecret(), m.PskId());
  }

  /** `seal_base` and its three siblings: a fresh sender context used once. */
  method SealSingle<Rng, Sk, Pk>(
    k: Kem<Rng, Sk, Pk>, s: Suite, rng: Rng, pkR: Pk, info: Bytes, aad: Bytes, pt: Bytes, m: SenderMode<Sk>)
    returns (r: Result<(Bytes, Bytes)>)
    requires s.Lawful() && s.kemId == k.id && s.aead.Sealing() && m.Valid(k.authenticates)
    ensures FitsSchedule(s) && r == SealSpec(k, s, rng, pkR, info, aad, pt, m)
  {
    var setup := SetupSender(k, s, rng, pkR, info, m);
    if setup.Err? {
      return Err(setup.error);
    }
    SetupsProduceSealers(k, s, rng, pkR, info, m);
    var ct := setup.value.1.Seal(aad, pt);
    if ct.Err? {
      return Err(ct.error);
    }
    r := Ok((setup.value.0, ct.value));
  }

  lemma SetupsProduceOpeners<Rng, Sk, Pk>(
    k: Kem<Rng, Sk, Pk>, s: Suite, enc: Bytes, skR: Sk, info: Bytes, m: ReceiverMode<Pk>)
    requires s.Lawful() && m.Valid(k.authenticates)
    ensures FitsSchedule(s)
    ensures var r := ReceiverSetup(k, s, enc, skR, info, m);
            var ss := DecapFor(k, enc, skR, m);
            && (ss.Err? ==> r == Err(ss.error))
            && (ss.Ok? ==>
                  var schedule := RfcKeySchedule(s, m.Mode(), ss.value, info, m.PskSecret(), m.PskId());
                  schedule.Ok? && r == Ok(schedule.value))
            && (r.Ok? ==>
                  && r.value.Valid() && r.value.counter == 0 && r.value.suite == s
                  && |r.value.exporterSecret| == s.kdf.hashLen
                  && (s.aead.Sealing() ==> r.value.CanSeal()))
  {
    var ss := DecapFor(k, enc, skR, m);
    ScheduleIsTotal(s, m.Mode(), if ss.Ok? then ss.value else [], info, m.PskSecret(), m.PskId());
  }

  /** `open_base` and its three siblings. */
  method OpenSingle<Rng, Sk, Pk>(
    k: Kem<Rng, Sk, Pk>, s: Suite, enc: Bytes, skR: Sk, info: Bytes, aad: Bytes, ct: Bytes, m: ReceiverMode<Pk>)
    returns (r: Result<Bytes>)
    requires s.Lawful() && s.kemId == k.id && s.aead.Sealing() && m.Valid(k.authenticates)
    ensures FitsSchedule(s) && r == OpenSpec(k, s, enc, skR, info, aad, ct, m)
  {
    var setup := SetupReceiver(k, s, enc, skR, info, m);
    if setup.Err? {
      return Err(setup.error);
    }
    SetupsProduceOpeners(k, s, enc, skR, info, m);
    r := setup.value.Open(aad, ct);
  }

  method SendExport<Rng, Sk, Pk>(
    k: Kem<Rng, Sk, Pk>, s: Suite, rng: Rng, pkR: Pk, info: Bytes, context: Bytes, length: nat, m: SenderMode<Sk>)
    returns (r: Result<(Bytes, Bytes)>)
    requires s.Lawful() && s.kemId == k.id && m.Valid(k.authenticates)
    ensures FitsSchedule(s) && r == SendExportSpec(k, s, rng, pkR, info, context, length, m)
  {
    var setup := SetupSender(k, s, rng, pkR, info, m);
    if setup.Err? {
      return Err(setup.error);
    }
    var secret := setup.value.1.Export(context, length);
    if secret.Err? {
      return Err(secret.error);
    }
    r := Ok((setup.value.0, secret.value));
  }

  method ReceiverExport<Rng, Sk, Pk>(
    k: Kem<Rng, Sk, Pk>, s: Suite, enc: Bytes, skR: Sk, info: Bytes, context: Bytes, length: nat, m: ReceiverMode<Pk>)
    returns (r: Result<Bytes>)
    requires s.Lawful() && s.kemId == k.id && m.Valid(k.authenticates)
    ensures FitsSchedule(s) && r == ReceiverExportSpec(k, s, enc, skR, info, context, length, m)
  {
    var setup := SetupReceiver(k, s, enc, skR, info, m);
    if setup.Err? {
      return Err(setup.error);
    }
    r := setup.value.Export(context, length);
  }

  // ---- The modes one by one ----

  /** The sender's setup after an encapsulation: the key schedule of the given mode and PSK inputs. */
  ghost predicate SetUpFrom(
    r: Result<(Bytes, CtxState)>, encapped: Result<(Bytes, Bytes)>, s: Suite, mode: Mode, info: Bytes, psk: Bytes,
    pskId: Bytes)
    requires FitsSchedule(s)
  {
    match encapped
    case Err(error) => r == Err(error)
    case Ok((ss, enc)) =>
      var schedule := RfcKeySchedule(s, mode, ss, info, psk, pskId);
      schedule.Ok? && r == Ok((enc, schedule.value))
  }

  ghost predicate SetUpAfter(
    r: Result<CtxState>, ss: Result<Bytes>, s: Suite, mode: Mode, info: Bytes, psk: Bytes, pskId: Bytes)
    requires FitsSchedule(s)
  {
    match ss
    case Err(error) => r == Err(error)
    case Ok(secret) => r.Ok? && r == RfcKeySchedule(s, mode, secret, info, psk, pskId)
  }

  /** Which operation of the KEM, which mode and which PSK inputs the setups without authentication use. */
  lemma SetupsByMode<Rng, Sk, Pk>(
    k: Kem<Rng, Sk, Pk>, s: Suite, rng: Rng, pkR: Pk, enc: Bytes, skR: Sk, info: Bytes, psk: Psk)
    requires s.Lawful() && psk.Valid()
    ensures FitsSchedule(s)
    ensures SetUpFrom(SenderSetup(k, s, rng, pkR, info, SendBase), k.encap(rng, pkR), s, Base, info, [], [])
    ensures SetUpFrom(
              SenderSetup(k, s, rng, pkR, info, SendPsk(psk)), k.encap(rng, pkR), s, PskOnly, info, psk.secret, psk.id)
    ensures SetUpAfter(ReceiverSetup(k, s, enc, skR, info, ReceiveBase), k.decap(enc, skR), s, Base, info, [], [])
    ensures SetUpAfter(
              ReceiverSetup(k, s, enc, skR, info, ReceivePsk(psk)), k.decap(enc, skR),
              s, PskOnly, info, psk.secret, psk.id)
  {
    SetupsProduceSealers(k, s, rng, pkR, info, SendBase);
    SetupsProduceSealers(k, s, rng, pkR, info, SendPsk(psk));
    SetupsProduceOpeners(k, s, enc, skR, info, ReceiveBase);
    SetupsProduceOpeners(k, s, enc, skR, info, ReceivePsk(psk));
  }

  /** The same for the setups with authentication. */
  lemma AuthSetupsByMode<Rng, Sk, Pk>(
    k: Kem<Rng, Sk, Pk>, s: Suite, rng: Rng, pkR: Pk, enc: Bytes, skR: Sk, info: Bytes, psk: Psk, skS: Sk, pkS: Pk)
    requires s.Lawful() && psk.Valid() && k.authenticates
    ensures FitsSchedule(s)
    ensures SetUpFrom(
              SenderSetup(k, s, rng, pkR, info, SendAuth(skS)), k.authEncap(rng, pkR, skS), s, Auth, info, [], [])
    ensures SetUpFrom(
              SenderSetup(k, s, rng, pkR, info, SendAuthPsk(psk, skS)), k.authEncap(rng, pkR, skS),
              s, AuthPsk, info, psk.secret, psk.id)
    ensures SetUpAfter(
              ReceiverSetup(k, s, enc, skR, info, ReceiveAuth(pkS)), k.authDecap(enc, skR, pkS), s, Auth, info, [], [])
    ensures SetUpAfter(
              ReceiverSetup(k, s, enc, skR, info, ReceiveAuthPsk(psk, pkS)), k.authDecap(enc, skR, pkS),
              s, AuthPsk, info, psk.secret, psk.id)
  {
    SetupsProduceSealers(k, s, rng, pkR, info, SendAuth(skS));
    SetupsProduceSealers(k, s, rng, pkR, info, SendAuthPsk(psk, skS));
    SetupsProduceOpeners(k, s, enc, skR, info, ReceiveAuth(pkS));
    SetupsProduceOpeners(k, s, enc, skR, info, ReceiveAuthPsk(psk, pkS));
  }

  // ---- What the single-shot operations answer ----

  /**
   A single-shot seal passes on a failed encapsulation.  Otherwise it returns the encapsulated key with what the AEAD
   gives under the schedule's key and, this being the first message, its base nonce; or reports that it gives nothing.
   */
  ghost predicate SealAnswers<Rng, Sk, Pk>(
    k: Kem<Rng, Sk, Pk>, s: Suite, rng: Rng, pkR: Pk, info: Bytes, aad: Bytes, pt: Bytes, m: SenderMode<Sk>)
    requires FitsSchedule(s)
  {
    var r := SealSpec(k, s, rng, pkR, info, aad, pt, m);
    match EncapFor(k, rng, pkR, m)
    case Err(error) => r == Err(error)
    case Ok((ss, enc)) =>
      var schedule := RfcKeySchedule(s, m.Mode(), ss, info, m.PskSecret(), m.PskId());
      && schedule.Ok?
      && var answer := s.aead.encrypt(schedule.value.key, schedule.value.baseNonce, aad, pt);
         && (answer.None? ==> r == Err(SealError))
         && (answer.Some? ==> r == Ok((enc, answer.value)))
  }

  /** The same for a single-shot open, on whatever octets it is handed. */
  ghost predicate OpenAnswers<Rng, Sk, Pk>(
    k: Kem<Rng, Sk, Pk>, s: Suite, enc: Bytes, skR: Sk, info: Bytes, aad: Bytes, ct: Bytes, m: ReceiverMode<Pk>)
    requires FitsSchedule(s)
  {
    var r := OpenSpec(k, s, enc, skR, info, aad, ct, m);
    match DecapFor(k, enc, skR, m)
    case Err(error) => r == Err(error)
    case Ok(ss) =>
      var schedule := RfcKeySchedule(s, m.Mode(), ss, info, m.PskSecret(), m.PskId());
      && schedule.Ok?
      && var answer := s.aead.decrypt(schedule.value.key, schedule.value.baseNonce, aad, ct);
         && (answer.None? ==> r == Err(OpenError))
         && (answer.Some? ==> r == Ok(answer.value))
  }

  lemma SealSingleExactly<Rng, Sk, Pk>(
    k: Kem<Rng, Sk, Pk>, s: Suite, rng: Rng, pkR: Pk, info: Bytes, aad: Bytes, pt: Bytes, m: SenderMode<Sk>)
    requires s.Lawful() && m.Valid(k.authenticates)
    ensures FitsSchedule(s) && SealAnswers(k, s, rng, pkR, info, aad, pt, m)
  {
    SetupsProduceSealers(k, s, rng, pkR, info, m);
    var setup := SenderSetup(k, s, rng, pkR, info, m);
    if setup.Ok? {
      FirstNonceIsBase(setup.value.1);
    }
  }

  lemma OpenSingleExactly<Rng, Sk, Pk>(
    k: Kem<Rng, Sk, Pk>, s: Suite, enc: Bytes, skR: Sk, info: Bytes, aad: Bytes, ct: Bytes, m: ReceiverMode<Pk>)
    requires s.Lawful() && m.Valid(k.authenticates)
    ensures FitsSchedule(s) && OpenAnswers(k, s, enc, skR, info, aad, ct, m)
  {
    SetupsProduceOpeners(k, s, enc, skR, info, m);
    var setup := ReceiverSetup(k, s, enc, skR, info, m);
    if setup.Ok? {
      FirstNonceIsBase(setup.value);
    }
  }

  /**
   Single-shot exports, on either end: a failed encapsulation or decapsulation is passed on, more than 255 blocks are
   refused, and otherwise the octets are the expansion of the schedule's exporter secret.
   */
  lemma ExportsExactly<Rng, Sk, Pk>(
    k: Kem<Rng, Sk, Pk>, s: Suite, rng: Rng, pkR: Pk, sm: SenderMode<Sk>, enc: Bytes, skR: Sk, rm: ReceiverMode<Pk>,
    info: Bytes, context: Bytes, length: nat)
    requires s.Lawful() && sm.Valid(k.authenticates) && rm.Valid(k.authenticates)
    ensures FitsSchedule(s)
    ensures var encapped, r := EncapFor(k, rng, pkR, sm), SendExportSpec(k, s, rng, pkR, info, context, length, sm);
            && (encapped.Err? ==> r == Err(encapped.error))
            && (encapped.Ok? ==>
                  var schedule := RfcKeySchedule(s, sm.Mode(), encapped.value.0, info, sm.PskSecret(), sm.PskId());
                  && schedule.Ok?
                  && (length > 255 * s.kdf.hashLen ==> r == Err(ExportLengthExceeded))
                  && (length <= 255 * s.kdf.hashLen ==>
                        r == Ok((encapped.value.1, Exported(s, schedule.value.exporterSecret, context, length)))))
    ensures var ss, r := DecapFor(k, enc, skR, rm), ReceiverExportSpec(k, s, enc, skR, info, context, length, rm);
            && (ss.Err? ==> r == Err(ss.error))
            && (ss.Ok? ==>
                  var schedule := RfcKeySchedule(s, rm.Mode(), ss.value, info, rm.PskSecret(), rm.PskId());
                  && schedule.Ok?
                  && (length > 255 * s.kdf.hashLen ==> r == Err(ExportLengthExceeded))
                  && (length <= 255 * s.kdf.hashLen ==>
                        r == Ok(Exported(s, schedule.value.exporterSecret, context, length))))
  {
    SetupsProduceSealers(k, s, rng, pkR, info, sm);
    SetupsProduceOpeners(k, s, enc, skR, info, rm);
    var sender, receiver := SenderSetup(k, s, rng, pkR, info, sm), ReceiverSetup(k, s, enc, skR, info, rm);
    if sender.Ok? {
      ExportExactly(sender.value.1, context, length);
    }
    if receiver.Ok? {
      ExportExactly(receiver.value, context, length);
    }
  }

  // ---- Agreement ----

  /**
   In every mode, for every random choice, info and PSK: if the sender's setup succeeds, the octets of its
   encapsulated key parse, the receiver's setup from them succeeds, and the two contexts are one value: suite, key,
   base nonce, exporter secret and counter.
   */
  lemma SetupsAgree<Rng(!new), Sk(!new), Pk(!new)>(
    k: Kem<Rng, Sk, Pk>, s: Suite, rng: Rng, skR: Sk, pkR: Pk, info: Bytes, sm: SenderMode<Sk>, rm: ReceiverMode<Pk>)
    requires LawfulKem(k) && s.Lawful()
    requires k.proper(rng) && k.paired(skR, pkR) && Matching(k, sm, rm) && sm.Valid(k.authenticates)
    ensures FitsSchedule(s)
    ensures var r := SenderSetup(k, s, rng, pkR, info, sm);
            r.Ok? ==>
              && k.encFromBytes(r.value.0) == Ok(r.value.0)
              && ReceiverSetup(k, s, r.value.0, skR, info, rm) == Ok(r.value.1)
  {
    SetupsProduceSealers(k, s, rng, pkR, info, sm);
    match (sm, rm) {
      case (SendAuth(skS), ReceiveAuth(pkS)) =>
      case (SendAuthPsk(_, skS), ReceiveAuthPsk(_, pkS)) =>
      case _ =>
    }
  }

  /** Opening undoes sealing: what any single-shot seal returns, the matching open turns back into the plaintext. */
  lemma OpenUndoesSeal<Rng(!new), Sk(!new), Pk(!new)>(
    k: Kem<Rng, Sk, Pk>, s: Suite, rng: Rng, skR: Sk, pkR: Pk, info: Bytes, aad: Bytes, pt: Bytes,
    sm: SenderMode<Sk>, rm: ReceiverMode<Pk>)
    requires LawfulKem(k) && s.Lawful() && s.aead.Sealing()
    requires k.proper(rng) && k.paired(skR, pkR) && Matching(k, sm, rm) && sm.Valid(k.authenticates)
    ensures FitsSchedule(s)
    ensures var r := SealSpec(k, s, rng, pkR, info, aad, pt, sm);
            r.Ok? ==>
              && k.encFromBytes(r.value.0) == Ok(r.value.0)
              && OpenSpec(k, s, r.value.0, skR, info, aad, r.value.1, rm) == Ok(pt)
  {
    SetupsAgree(k, s, rng, skR, pkR, info, sm, rm);
    SetupsProduceSealers(k, s, rng, pkR, info, sm);
    var setup := SenderSetup(k, s, rng, pkR, info, sm);
    if setup.Ok? {
      var c := setup.value.1;
      var sealed := s.aead.encrypt(c.key, c.Nonce(0), aad, pt);
      assert sealed.Some? ==> s.aead.decrypt(c.key, c.Nonce(0), aad, sealed.value) == Some(pt);
    }
  }

  /** Single-shot exports agree, and the sender's fails beyond its setup only for a length over 255 blocks. */
  lemma SingleShotExportsAgree<Rng(!new), Sk(!new), Pk(!new)>(
    k: Kem<Rng, Sk, Pk>, s: Suite, rng: Rng, skR: Sk, pkR: Pk, info: Bytes, context: Bytes, length: nat,
    sm: SenderMode<Sk>, rm: ReceiverMode<Pk>)
    requires LawfulKem(k) && s.Lawful()
    requires k.proper(rng) && k.paired(skR, pkR) && Matching(k, sm, rm) && sm.Valid(k.authenticates)
    ensures FitsSchedule(s)
    ensures var r := SendExportSpec(k, s, rng, pkR, info, context, length, sm);
            && (r.Ok? <==> EncapFor(k, rng, pkR, sm).Ok? && length <= 255 * s.kdf.hashLen)
            && (r.Ok? ==>
                  && |r.value.1| == length
                  && ReceiverExportSpec(k, s, r.value.0, skR, info, context, length, rm) == Ok(r.value.1))
  {
    SetupsAgree(k, s, rng, skR, pkR, info, sm, rm);
    SetupsProduceSealers(k, s, rng, pkR, info, sm);
    var setup := SenderSetup(k, s, rng, pkR, info, sm);
    if setup.Ok? {
      Channel.LabeledKdfFacts(setup.value.1, context, length);
    }
  }

  /**
   The whole stack at once: between the two ends of any successful setup, whatever is sent and whatever the network
   delivers, the receiver accepts a prefix of what was sent or some accepted message is an explicit AEAD forgery, the
   counters stay in step with what was sent and accepted, no nonce is used twice and outstanding messages are accepted.
   */
  lemma SessionsAreSafe<Rng(!new), Sk(!new), Pk(!new)>(
    k: Kem<Rng, Sk, Pk>, s: Suite, rng: Rng, skR: Sk, pkR: Pk, info: Bytes, sm: SenderMode<Sk>, rm: ReceiverMode<Pk>,
    actions: seq<Channel.Action>)
    requires LawfulKem(k) && s.Lawful() && s.aead.Sealing() && FitsSchedule(s)
    requires k.proper(rng) && k.paired(skR, pkR) && Matching(k, sm, rm) && sm.Valid(k.authenticates)
    requires SenderSetup(k, s, rng, pkR, info, sm).Ok?
    ensures var (enc, c) := SenderSetup(k, s, rng, pkR, info, sm).value;
            var receiver := ReceiverSetup(k, s, enc, skR, info, rm);
            && receiver.Ok?
            && Channel.Safe(c, Channel.Run(Channel.Session(c, receiver.value, [], []), actions))
  {
    SetupsAgree(k, s, rng, skR, pkR, info, sm, rm);
    SetupsProduceSealers(k, s, rng, pkR, info, sm);
    Channel.EveryRunIsSafe(SenderSetup(k, s, rng, pkR, info, sm).value.1, actions);
  }
}
