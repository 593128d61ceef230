/**
 What equal secrets at the two ends say about the ends.  The sender and the receiver run any two KEMs and any two
 suites over one KDF, and nothing is assumed to match between them.
 */
module SessionBinding {
  import opened ByteStrings
  import opened Results
  import opened Primitives
  import opened LabeledKdf
  import opened MessageContext
  import opened PskInputs
  import opened DomainSeparation
  import opened KeySchedule
  import opened Binding
  import opened Hpke

  function ScheduleTranscript(s: Suite, mode: Mode, ss: Bytes, info: Bytes, psk: Bytes, pskId: Bytes): Transcript {
    Transcript(s.kemId, s.aead.id, mode, ss, info, psk, pskId)
  }

  /** What the sender's key schedule takes in. */
  function SenderInputs<Rng, Sk, Pk>(
    k: Kem<Rng, Sk, Pk>, s: Suite, rng: Rng, pkR: Pk, info: Bytes, m: SenderMode<Sk>): Transcript
    requires EncapFor(k, rng, pkR, m).Ok?
  {
    ScheduleTranscript(s, m.Mode(), EncapFor(k, rng, pkR, m).value.0, info, m.PskSecret(), m.PskId())
  }

  /** What the receiver's key schedule takes in. */
  function ReceiverInputs<Rng, Sk, Pk>(
    k: Kem<Rng, Sk, Pk>, s: Suite, enc: Bytes, skR: Sk, info: Bytes, m: ReceiverMode<Pk>): Transcript
    requires DecapFor(k, enc, skR, m).Ok?
  {
    ScheduleTranscript(s, m.Mode(), DecapFor(k, enc, skR, m).value, info, m.PskSecret(), m.PskId())
  }

  /** A call that leads to the exporter secret under one transcript collides with its counterpart under the other. */
  ghost predicate SchedulesClash(kdf: Kdf, t1: Transcript, t2: Transcript)
    requires kdf.hashLen < 0x1_0000
  {
    ClashBetween(kdf, t1.Queries(kdf, Exp, kdf.hashLen), t2.Queries(kdf, Exp, kdf.hashLen))
  }

  /** Equal exporter secrets force the two key schedules to agree on every input, or a named collision. */
  lemma ExporterBindsInputs<Rng1(!new), Sk1(!new), Pk1(!new), Rng2(!new), Sk2(!new), Pk2(!new)>(
    k1: Kem<Rng1, Sk1, Pk1>, s1: Suite, rng: Rng1, pkR: Pk1, info1: Bytes, sm: SenderMode<Sk1>,
    k2: Kem<Rng2, Sk2, Pk2>, s2: Suite, enc: Bytes, skR: Sk2, info2: Bytes, rm: ReceiverMode<Pk2>)
    requires s1.Lawful() && FitsSchedule(s1) && FitsSchedule(s2) && s1.kdf == s2.kdf
    requires SenderSetup(k1, s1, rng, pkR, info1, sm).Ok? && ReceiverSetup(k2, s2, enc, skR, info2, rm).Ok?
    requires SenderSetup(k1, s1, rng, pkR, info1, sm).value.1.exporterSecret ==
             ReceiverSetup(k2, s2, enc, skR, info2, rm).value.exporterSecret
    ensures EncapFor(k1, rng, pkR, sm).Ok? && DecapFor(k2, enc, skR, rm).Ok?
    ensures var t1, t2 := SenderInputs(k1, s1, rng, pkR, info1, sm), ReceiverInputs(k2, s2, enc, skR, info2, rm);
            Agree(t1, t2) || SchedulesClash(s1.kdf, t1, t2)
  {
    var t1, t2 := SenderInputs(k1, s1, rng, pkR, info1, sm), ReceiverInputs(k2, s2, enc, skR, info2, rm);
    ScheduleAsksTheseQueries(s1, t1.mode, t1.sharedSecret, info1, t1.psk, t1.pskId);
    ScheduleAsksTheseQueries(s2, t2.mode, t2.sharedSecret, info2, t2.psk, t2.pskId);
    ExporterBindsTranscript(s1.kdf, t1, t2);
  }

  /** Ends that run different KEMs, AEADs, modes, PSKs or info reach one exporter secret only by a named collision. */
  lemma MismatchedEndsClash<Rng1(!new), Sk1(!new), Pk1(!new), Rng2(!new), Sk2(!new), Pk2(!new)>(
    k1: Kem<Rng1, Sk1, Pk1>, s1: Suite, rng: Rng1, pkR: Pk1, info1: Bytes, sm: SenderMode<Sk1>,
    k2: Kem<Rng2, Sk2, Pk2>, s2: Suite, enc: Bytes, skR: Sk2, info2: Bytes, rm: ReceiverMode<Pk2>)
    requires s1.Lawful() && FitsSchedule(s1) && FitsSchedule(s2) && s1.kdf == s2.kdf
    requires SenderSetup(k1, s1, rng, pkR, info1, sm).Ok? && ReceiverSetup(k2, s2, enc, skR, info2, rm).Ok?
    requires || s1.kemId != s2.kemId || s1.aead.id != s2.aead.id || info1 != info2
             || sm.Mode() != rm.Mode() || sm.PskSecret() != rm.PskSecret() || sm.PskId() != rm.PskId()
    requires SenderSetup(k1, s1, rng, pkR, info1, sm).value.1.exporterSecret ==
             ReceiverSetup(k2, s2, enc, skR, info2, rm).value.exporterSecret
    ensures EncapFor(k1, rng, pkR, sm).Ok? && DecapFor(k2, enc, skR, rm).Ok?
    ensures SchedulesClash(s1.kdf, SenderInputs(k1, s1, rng, pkR, info1, sm),
                                   ReceiverInputs(k2, s2, enc, skR, info2, rm))
  {
    ExporterBindsInputs(k1, s1, rng, pkR, info1, sm, k2, s2, enc, skR, info2, rm);
  }

  /** The call by which an exporting context answers is the export call of the binding theorems. */
  lemma ExportAsksThisQuery(
    s: Suite, mode: Mode, ss: Bytes, info: Bytes, psk: Bytes, pskId: Bytes, context: Bytes, length: nat)
    requires s.Lawful() && FitsSchedule(s) && RfcKeySchedule(s, mode, ss, info, psk, pskId).Ok?
    requires ExportOf(RfcKeySchedule(s, mode, ss, info, psk, pskId).value, context, length).Ok?
    ensures length < 0x1_0000
    ensures var exported := ExportOf(RfcKeySchedule(s, mode, ss, info, psk, pskId).value, context, length).value;
            var t := ScheduleTranscript(s, mode, ss, info, psk, pskId);
            exported == ExportQuery(s.kdf, t, context, length).Answer(s.kdf) && |exported| == length
  {
    var c := RfcKeySchedule(s, mode, ss, info, psk, pskId).value;
    ScheduleAsksTheseQueries(s, mode, ss, info, psk, pskId);
    ScheduleIsTotal(s, mode, ss, info, psk, pskId);
    ExpandSucceedsExactly(s.kdf, c.exporterSecret, SuiteCaller(s).SuiteId(), Sec.Text(), context, length);
  }

  /** One of the five calls that lead to an export collides with its counterpart. */
  ghost predicate ExportsClash(kdf: Kdf, t1: Transcript, c1: Bytes, t2: Transcript, c2: Bytes, length: u16)
    requires kdf.hashLen < 0x1_0000
  {
    ClashBetween(kdf, t1.Queries(kdf, Exp, kdf.hashLen) + [ExportQuery(kdf, t1, c1, length)],
                      t2.Queries(kdf, Exp, kdf.hashLen) + [ExportQuery(kdf, t2, c2, length)])
  }

  /**
   What an application sees: equal exports force the exporter contexts and lengths, and every input of the two key
   schedules, to agree, or a named collision.
   */
  lemma ExportsBindInputs<Rng1(!new), Sk1(!new), Pk1(!new), Rng2(!new), Sk2(!new), Pk2(!new)>(
    k1: Kem<Rng1, Sk1, Pk1>, s1: Suite, rng: Rng1, pkR: Pk1, info1: Bytes, sm: SenderMode<Sk1>, c1: Bytes, n1: nat,
    k2: Kem<Rng2, Sk2, Pk2>, s2: Suite, enc: Bytes, skR: Sk2, info2: Bytes, rm: ReceiverMode<Pk2>, c2: Bytes, n2: nat)
    requires s1.Lawful() && s2.Lawful() && FitsSchedule(s1) && FitsSchedule(s2) && s1.kdf == s2.kdf
    requires SendExportSpec(k1, s1, rng, pkR, info1, c1, n1, sm).Ok?
    requires ReceiverExportSpec(k2, s2, enc, skR, info2, c2, n2, rm) ==
             Ok(SendExportSpec(k1, s1, rng, pkR, info1, c1, n1, sm).value.1)
    ensures EncapFor(k1, rng, pkR, sm).Ok? && DecapFor(k2, enc, skR, rm).Ok? && n1 == n2 < 0x1_0000
    ensures var t1, t2 := SenderInputs(k1, s1, rng, pkR, info1, sm), ReceiverInputs(k2, s2, enc, skR, info2, rm);
            (Agree(t1, t2) && c1 == c2) || ExportsClash(s1.kdf, t1, c1, t2, c2, n1)
  {
    var t1, t2 := SenderInputs(k1, s1, rng, pkR, info1, sm), ReceiverInputs(k2, s2, enc, skR, info2, rm);
    ExportAsksThisQuery(s1, t1.mode, t1.sharedSecret, info1, t1.psk, t1.pskId, c1, n1);
    ExportAsksThisQuery(s2, t2.mode, t2.sharedSecret, info2, t2.psk, t2.pskId, c2, n2);
    ExportBindsTranscript(s1.kdf, t1, c1, t2, c2, n1);
  }
}
