/**
 Transcript binding.  Equal outputs of two runs of the key schedule force equal inputs, unless two KDF calls the runs
 themselves made collide; the colliding pair is named by its position among those calls, never merely said to exist.
 */
module Binding {
  import opened ByteStrings
  import opened Results
  import opened Primitives
  import opened LabeledKdf
  import opened DomainSeparation
  import opened MessageContext
  import opened PskInputs
  import opened KeySchedule

  /** One call to the underlying KDF. */
  datatype Query = ExtractQuery(salt: Bytes, ikm: Bytes) | ExpandQuery(prk: Bytes, info: Bytes, length: nat) {
    function Answer(kdf: Kdf): Bytes {
      match this
      case ExtractQuery(salt, ikm) => kdf.extract(salt, ikm)
      case ExpandQuery(prk, info, length) => kdf.expand(prk, info, length)
    }
  }

  /**
   Expansions to one length, or extractions that differ in more than the length of the salt: HMAC pads its key with
   zeros, so one keying material under a salt and under the same salt padded is answered alike for free.
   */
  predicate Comparable(a: Query, b: Query) {
    match (a, b)
    case (ExtractQuery(s, x), ExtractQuery(t, y)) => |s| == |t| || x != y
    case (ExpandQuery(_, _, m), ExpandQuery(_, _, n)) => m == n
    case _ => false
  }

  /** Two different comparable calls with the same answer. */
  ghost predicate Clash(kdf: Kdf, a: Query, b: Query) {
    a != b && Comparable(a, b) && a.Answer(kdf) == b.Answer(kdf)
  }

  /** Some call of one run collides with the call of the same position in the other run. */
  ghost predicate ClashBetween(kdf: Kdf, a: seq<Query>, b: seq<Query>) {
    exists i | 0 <= i < |a| && i < |b| :: Clash(kdf, a[i], b[i])
  }

  /** Everything one run of the key schedule takes in. */
  datatype Transcript = Transcript(
    kemId: u16,
    aead: u16,
    mode: Mode,
    sharedSecret: Bytes,
    info: Bytes,
    psk: Bytes,
    pskId: Bytes)
  {
    function Caller(kdf: Kdf): Caller {
      HpkeCaller(kemId, kdf.id, aead)
    }

    function PskIdQuery(kdf: Kdf): Query {
      ExtractQuery([], LabeledIkm(Caller(kdf).SuiteId(), PskIdHash.Text(), pskId))
    }

    function InfoQuery(kdf: Kdf): Query {
      ExtractQuery([], LabeledIkm(Caller(kdf).SuiteId(), InfoHash.Text(), info))
    }

    function SecretQuery(kdf: Kdf): Query {
      ExtractQuery(sharedSecret, LabeledIkm(Caller(kdf).SuiteId(), Secret.Text(), psk))
    }

    function Context(kdf: Kdf): Bytes {
      [mode.Byte()] + PskIdQuery(kdf).Answer(kdf) + InfoQuery(kdf).Answer(kdf)
    }

    /** The expansion that yields the output called `l`: the key, the base nonce or the exporter secret. */
    function OutputQuery(kdf: Kdf, l: Label, length: u16): Query {
      var info := LabeledInfo(length, Caller(kdf).SuiteId(), l.Text(), Context(kdf));
      ExpandQuery(SecretQuery(kdf).Answer(kdf), info, length)
    }

    /** The calls one run makes on the way to that output. */
    function Queries(kdf: Kdf, l: Label, length: u16): seq<Query> {
      [PskIdQuery(kdf), InfoQuery(kdf), SecretQuery(kdf), OutputQuery(kdf, l, length)]
    }

    function ExporterSecret(kdf: Kdf): Bytes
      requires kdf.hashLen < 0x1_0000
    {
      OutputQuery(kdf, Exp, kdf.hashLen).Answer(kdf)
    }
  }

  /** The calls above are the calls the schedule makes. */
  lemma ScheduleAsksTheseQueries(s: Suite, mode: Mode, ss: Bytes, info: Bytes, psk: Bytes, pskId: Bytes)
    requires FitsSchedule(s) && RfcKeySchedule(s, mode, ss, info, psk, pskId).Ok?
    ensures var c := RfcKeySchedule(s, mode, ss, info, psk, pskId).value;
            var t := Transcript(s.kemId, s.aead.id, mode, ss, info, psk, pskId);
            && c.key == t.OutputQuery(s.kdf, Key, s.aead.keyLen).Answer(s.kdf)
            && c.baseNonce == t.OutputQuery(s.kdf, BaseNonce, s.aead.nonceLen).Answer(s.kdf)
            && c.exporterSecret == t.ExporterSecret(s.kdf)
  {
    var t := Transcript(s.kemId, s.aead.id, mode, ss, info, psk, pskId);
    assert t.Context(s.kdf) == KsContext(s, mode, info, pskId);
    assert t.SecretQuery(s.kdf).Answer(s.kdf) == Extracted(s, ss, Secret, psk);
  }

  lemma NoClashAt(kdf: Kdf, a: seq<Query>, b: seq<Query>, i: nat)
    requires i < |a| && i < |b| && !ClashBetween(kdf, a, b)
    requires Comparable(a[i], b[i])
    requires a[i].Answer(kdf) == b[i].Answer(kdf)
    ensures a[i] == b[i]
  {
  }

  /** The schedule context splits into mode, psk_id_hash and info_hash because the hashes have one length. */
  lemma ContextParts(kdf: Kdf, t1: Transcript, t2: Transcript)
    requires kdf.Lawful() && t1.Context(kdf) == t2.Context(kdf)
    ensures t1.mode == t2.mode
    ensures t1.PskIdQuery(kdf).Answer(kdf) == t2.PskIdQuery(kdf).Answer(kdf)
    ensures t1.InfoQuery(kdf).Answer(kdf) == t2.InfoQuery(kdf).Answer(kdf)
  {
    var m1, p1, i1 := t1.mode.Byte(), t1.PskIdQuery(kdf).Answer(kdf), t1.InfoQuery(kdf).Answer(kdf);
    var m2, p2, i2 := t2.mode.Byte(), t2.PskIdQuery(kdf).Answer(kdf), t2.InfoQuery(kdf).Answer(kdf);
    SplitHead([m1] + p1, i1, [m2] + p2, i2);
    SplitHead([m1], p1, [m2], p2);
    assert [m1][0] == [m2][0];
    ModeByteInjective(t1.mode, t2.mode);
  }

  /** The same inputs throughout, the shared secrets included if they have one length. */
  predicate Agree(t1: Transcript, t2: Transcript) {
    t1.(sharedSecret := t2.sharedSecret) == t2 && (|t1.sharedSecret| == |t2.sharedSecret| ==> t1 == t2)
  }

  /** Every input is bound by every output of the schedule, whichever of the three it is, and whatever the two KEMs. */
  lemma OutputBindsTranscript(kdf: Kdf, l: Label, length: u16, t1: Transcript, t2: Transcript)
    requires kdf.Lawful() && (l.Key? || l.BaseNonce? || l.Exp?)
    requires t1.OutputQuery(kdf, l, length).Answer(kdf) == t2.OutputQuery(kdf, l, length).Answer(kdf)
    ensures Agree(t1, t2) || ClashBetween(kdf, t1.Queries(kdf, l, length), t2.Queries(kdf, l, length))
  {
    var q1, q2 := t1.Queries(kdf, l, length), t2.Queries(kdf, l, length);
    if !ClashBetween(kdf, q1, q2) {
      NoClashAt(kdf, q1, q2, 3);
      ExpandInputsSeparate(length, t1.Caller(kdf), l, t1.Context(kdf), length, t2.Caller(kdf), l, t2.Context(kdf));
      ContextParts(kdf, t1, t2);
      NoClashAt(kdf, q1, q2, 0);
      ExtractInputsSeparate(t1.Caller(kdf), PskIdHash, t1.pskId, t2.Caller(kdf), PskIdHash, t2.pskId);
      NoClashAt(kdf, q1, q2, 1);
      ExtractInputsSeparate(t1.Caller(kdf), InfoHash, t1.info, t2.Caller(kdf), InfoHash, t2.info);
      if q1[2].ikm != q2[2].ikm || |t1.sharedSecret| == |t2.sharedSecret| {
        NoClashAt(kdf, q1, q2, 2);
      }
      ExtractInputsSeparate(t1.Caller(kdf), Secret, t1.psk, t2.Caller(kdf), Secret, t2.psk);
    }
  }

  /**
   Two runs of the key schedule over one KDF, after any two KEMs, with the same exporter secret had the same KEM, AEAD,
   mode, info, PSK and PSK identifier, and the same shared secret if the two have one length; or one of the four KDF
   calls of the first collides with its counterpart.
   */
  lemma ExporterBindsTranscript(kdf: Kdf, t1: Transcript, t2: Transcript)
    requires kdf.Lawful() && t1.ExporterSecret(kdf) == t2.ExporterSecret(kdf)
    ensures Agree(t1, t2) || ClashBetween(kdf, t1.Queries(kdf, Exp, kdf.hashLen), t2.Queries(kdf, Exp, kdf.hashLen))
  {
    OutputBindsTranscript(kdf, Exp, kdf.hashLen, t1, t2);
  }

  /** Since a KEM has one length of shared secret, nothing is left open between runs after real KEMs. */
  lemma OneLengthPerKem(kdf: Kdf, nsecret: u16 -> nat, t1: Transcript, t2: Transcript)
    requires kdf.Lawful() && t1.ExporterSecret(kdf) == t2.ExporterSecret(kdf)
    requires |t1.sharedSecret| == nsecret(t1.kemId) && |t2.sharedSecret| == nsecret(t2.kemId)
    ensures t1 == t2 || ClashBetween(kdf, t1.Queries(kdf, Exp, kdf.hashLen), t2.Queries(kdf, Exp, kdf.hashLen))
  {
    ExporterBindsTranscript(kdf, t1, t2);
  }

  /** The call by which a context of this transcript exports `length` octets. */
  function ExportQuery(kdf: Kdf, t: Transcript, context: Bytes, length: u16): Query
    requires kdf.hashLen < 0x1_0000
  {
    ExpandQuery(t.ExporterSecret(kdf), LabeledInfo(length, t.Caller(kdf).SuiteId(), Sec.Text(), context), length)
  }

  lemma ClashWidens(kdf: Kdf, a: seq<Query>, b: seq<Query>, x: seq<Query>, y: seq<Query>)
    requires |a| == |b| && ClashBetween(kdf, a, b)
    ensures ClashBetween(kdf, a + x, b + y)
  {
    var i :| 0 <= i < |a| && i < |b| && Clash(kdf, a[i], b[i]);
    assert Clash(kdf, (a + x)[i], (b + y)[i]);
  }

  /** What both ends export binds the exporter context and, through the exporter secret, the whole transcript. */
  lemma ExportBindsTranscript(kdf: Kdf, t1: Transcript, c1: Bytes, t2: Transcript, c2: Bytes, length: u16)
    requires kdf.Lawful()
    requires ExportQuery(kdf, t1, c1, length).Answer(kdf) == ExportQuery(kdf, t2, c2, length).Answer(kdf)
    ensures || (Agree(t1, t2) && c1 == c2)
            || ClashBetween(kdf, t1.Queries(kdf, Exp, kdf.hashLen) + [ExportQuery(kdf, t1, c1, length)],
                                 t2.Queries(kdf, Exp, kdf.hashLen) + [ExportQuery(kdf, t2, c2, length)])
  {
    var e1, e2 := ExportQuery(kdf, t1, c1, length), ExportQuery(kdf, t2, c2, length);
    var q1, q2 := t1.Queries(kdf, Exp, kdf.hashLen), t2.Queries(kdf, Exp, kdf.hashLen);
    if !ClashBetween(kdf, q1 + [e1], q2 + [e2]) {
      NoClashAt(kdf, q1 + [e1], q2 + [e2], 4);
      ExpandInputsSeparate(length, t1.Caller(kdf), Sec, c1, length, t2.Caller(kdf), Sec, c2);
      ExporterBindsTranscript(kdf, t1, t2);
      if ClashBetween(kdf, q1, q2) {
        ClashWidens(kdf, q1, q2, [e1], [e2]);
      }
    }
  }
}
