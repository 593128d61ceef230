/**
 Every labeled KDF call of the crate, and the proof that its input string says which call it is.

 Labels carry no length prefix, so separation is a fact about the set of call sites, not about the encoding alone.
 */
module DomainSeparation {
  import opened ByteStrings
  import opened LabeledKdf

  /** Who is calling: a KEM (five-octet suite id) or the HPKE key schedule and exporter (ten octets). */
  datatype Caller = KemCaller(kem: u16) | HpkeCaller(kem: u16, kdf: u16, aead: u16) {
    function SuiteId(): Bytes {
      match this
      case KemCaller(kem) => KemSuiteId(kem)
      case HpkeCaller(kem, kdf, aead) => HpkeSuiteId(kem, kdf, aead)
    }
  }

  datatype Label =
    | EaePrk | DkpPrk | PskIdHash | InfoHash | Secret
    | SharedSecret | Candidate | Sk | Key | BaseNonce | Exp | Sec
  {
    function Text(): (s: Bytes)
      ensures |s| >= 2
    {
      match this
      case EaePrk => [0x65, 0x61, 0x65, 0x5F, 0x70, 0x72, 0x6B]
      case DkpPrk => [0x64, 0x6B, 0x70, 0x5F, 0x70, 0x72, 0x6B]
      case PskIdHash => [0x70, 0x73, 0x6B, 0x5F, 0x69, 0x64, 0x5F, 0x68, 0x61, 0x73, 0x68]
      case InfoHash => [0x69, 0x6E, 0x66, 0x6F, 0x5F, 0x68, 0x61, 0x73, 0x68]
      case Secret => [0x73, 0x65, 0x63, 0x72, 0x65, 0x74]
      case SharedSecret => [0x73, 0x68, 0x61, 0x72, 0x65, 0x64, 0x5F, 0x73, 0x65, 0x63, 0x72, 0x65, 0x74]
      case Candidate => [0x63, 0x61, 0x6E, 0x64, 0x69, 0x64, 0x61, 0x74, 0x65]
      case Sk => [0x73, 0x6B]
      case Key => [0x6B, 0x65, 0x79]
      case BaseNonce => [0x62, 0x61, 0x73, 0x65, 0x5F, 0x6E, 0x6F, 0x6E, 0x63, 0x65]
      case Exp => [0x65, 0x78, 0x70]
      case Sec => [0x73, 0x65, 0x63]
    }
  }

  /** The suite identifiers, read field by field. */
  lemma SuiteIdsExactly(c: Caller)
    ensures c.KemCaller? ==>
              var id := c.SuiteId();
              |id| == 5 && Spells(id[..3], "KEM") && Pair(id[3..]) == c.kem
    ensures c.HpkeCaller? ==>
              var id := c.SuiteId();
              && |id| == 10 && Spells(id[..4], "HPKE")
              && Pair(id[4..6]) == c.kem && Pair(id[6..8]) == c.kdf && Pair(id[8..]) == c.aead
  {
    var id := c.SuiteId();
    PairOfU16(c.kem);
    if c.KemCaller? {
      assert id[3..] == I2OSP(c.kem, 2);
    } else {
      PairOfU16(c.kdf);
      PairOfU16(c.aead);
      assert id[4..6] == I2OSP(c.kem, 2) && id[6..8] == I2OSP(c.kdf, 2) && id[8..] == I2OSP(c.aead, 2);
    }
  }

  /** The labels as RFC 9180 writes them. */
  function Spelling(l: Label): string {
    match l
    case EaePrk => "eae_prk"
    case DkpPrk => "dkp_prk"
    case PskIdHash => "psk_id_hash"
    case InfoHash => "info_hash"
    case Secret => "secret"
    case SharedSecret => "shared_secret"
    case Candidate => "candidate"
    case Sk => "sk"
    case Key => "key"
    case BaseNonce => "base_nonce"
    case Exp => "exp"
    case Sec => "sec"
  }

  lemma KemLabelsExactly(l: Label)
    requires l in {EaePrk, DkpPrk, Candidate, Sk}
    ensures Spells(l.Text(), Spelling(l))
  {
  }

  lemma HashLabelsExactly(l: Label)
    requires l in {PskIdHash, InfoHash}
    ensures Spells(l.Text(), Spelling(l))
  {
  }

  lemma SecretLabelsExactly(l: Label)
    requires l in {SharedSecret, Secret, Sec}
    ensures Spells(l.Text(), Spelling(l))
  {
  }

  lemma OutputLabelsExactly(l: Label)
    requires l in {Key, BaseNonce, Exp}
    ensures Spells(l.Text(), Spelling(l))
  {
  }

  lemma LabelsExactly(l: Label)
    ensures Spells(l.Text(), Spelling(l))
  {
    match l
    case EaePrk | DkpPrk | Candidate | Sk => KemLabelsExactly(l);
    case PskIdHash | InfoHash => HashLabelsExactly(l);
    case SharedSecret | Secret | Sec => SecretLabelsExactly(l);
    case Key | BaseNonce | Exp => OutputLabelsExactly(l);
  }

  /** The caller and label pairs the crate hands to LabeledExtract. */
  predicate ExtractSite(c: Caller, l: Label) {
    match c
    case KemCaller(_) => l.EaePrk? || l.DkpPrk?
    case HpkeCaller(_, _, _) => l.PskIdHash? || l.InfoHash? || l.Secret?
  }

  /** The caller and label pairs the crate hands to LabeledExpand. */
  predicate ExpandSite(c: Caller, l: Label) {
    match c
    case KemCaller(_) => l.SharedSecret? || l.Candidate? || l.Sk?
    case HpkeCaller(_, _, _) => l.Key? || l.BaseNonce? || l.Exp? || l.Sec?
  }

  lemma PeelIkm(s1: Bytes, t1: Bytes, x1: Bytes, s2: Bytes, t2: Bytes, x2: Bytes)
    requires LabeledIkm(s1, t1, x1) == LabeledIkm(s2, t2, x2)
    ensures s1 + t1 + x1 == s2 + t2 + x2
  {
    assert LabeledIkm(s1, t1, x1) == HPKE_V1 + (s1 + t1 + x1);
    assert LabeledIkm(s2, t2, x2) == HPKE_V1 + (s2 + t2 + x2);
    SplitHead(HPKE_V1, s1 + t1 + x1, HPKE_V1, s2 + t2 + x2);
  }

  lemma IdsSeparate(x: u16, y: u16)
    requires I2OSP(x, 2) == I2OSP(y, 2)
    ensures x == y
  {
    U16Range(x);
    U16Range(y);
    I2OSPInjective(x, y, 2);
  }

  /** 'K' or 'H' tells the two kinds of suite id apart, and with it their lengths. */
  lemma SuiteIdsSeparate(c1: Caller, x: Bytes, c2: Caller, y: Bytes)
    requires c1.SuiteId() + x == c2.SuiteId() + y
    ensures c1 == c2 && x == y
  {
    var s1, s2 := c1.SuiteId(), c2.SuiteId();
    assert s1[0] == (s1 + x)[0] == (s2 + y)[0] == s2[0];
    assert c1.KemCaller? <==> s1[0] == 0x4B;
    assert c2.KemCaller? <==> s2[0] == 0x4B;
    SplitHead(s1, x, s2, y);
    if c1.KemCaller? {
      assert I2OSP(c1.kem, 2) == s1[3..] == s2[3..] == I2OSP(c2.kem, 2);
      IdsSeparate(c1.kem, c2.kem);
    } else {
      assert I2OSP(c1.kem, 2) == s1[4..6] == s2[4..6] == I2OSP(c2.kem, 2);
      assert I2OSP(c1.kdf, 2) == s1[6..8] == s2[6..8] == I2OSP(c2.kdf, 2);
      assert I2OSP(c1.aead, 2) == s1[8..10] == s2[8..10] == I2OSP(c2.aead, 2);
      IdsSeparate(c1.kem, c2.kem);
      IdsSeparate(c1.kdf, c2.kdf);
      IdsSeparate(c1.aead, c2.aead);
    }
  }

  lemma TwoOctets(t1: Bytes, x: Bytes, t2: Bytes, y: Bytes)
    requires |t1| >= 2 && |t2| >= 2 && t1 + x == t2 + y
    ensures t1[0] == t2[0] && t1[1] == t2[1]
  {
    assert t1[0] == (t1 + x)[0] && t2[0] == (t2 + y)[0];
    assert t1[1] == (t1 + x)[1] && t2[1] == (t2 + y)[1];
  }

  lemma FirstTwoOctetsDecide(c: Caller, l1: Label, l2: Label)
    requires (ExtractSite(c, l1) && ExtractSite(c, l2)) || (ExpandSite(c, l1) && ExpandSite(c, l2))
    requires l1.Text()[0] == l2.Text()[0] && l1.Text()[1] == l2.Text()[1]
    ensures l1 == l2
  {
  }

  /** The first two octets tell apart the labels one caller uses. */
  lemma LabelsSeparate(c: Caller, l1: Label, x: Bytes, l2: Label, y: Bytes)
    requires (ExtractSite(c, l1) && ExtractSite(c, l2)) || (ExpandSite(c, l1) && ExpandSite(c, l2))
    requires l1.Text() + x == l2.Text() + y
    ensures l1 == l2 && x == y
  {
    TwoOctets(l1.Text(), x, l2.Text(), y);
    FirstTwoOctetsDecide(c, l1, l2);
    SplitHead(l1.Text(), x, l2.Text(), y);
  }

  lemma Regroup(a: Bytes, b: Bytes, c: Bytes)
    ensures a + b + c == a + (b + c)
  {
  }

  lemma FramesSeparate(c1: Caller, l1: Label, rest1: Bytes, c2: Caller, l2: Label, rest2: Bytes)
    requires (ExtractSite(c1, l1) && ExtractSite(c2, l2)) || (ExpandSite(c1, l1) && ExpandSite(c2, l2))
    requires c1.SuiteId() + l1.Text() + rest1 == c2.SuiteId() + l2.Text() + rest2
    ensures c1 == c2 && l1 == l2 && rest1 == rest2
  {
    Regroup(c1.SuiteId(), l1.Text(), rest1);
    Regroup(c2.SuiteId(), l2.Text(), rest2);
    SuiteIdsSeparate(c1, l1.Text() + rest1, c2, l2.Text() + rest2);
    LabelsSeparate(c1, l1, rest1, l2, rest2);
  }

  /** What every LabeledExtract input says: its caller, label and keying material. */
  lemma ExtractInputsSeparate(c1: Caller, l1: Label, ikm1: Bytes, c2: Caller, l2: Label, ikm2: Bytes)
    requires ExtractSite(c1, l1) && ExtractSite(c2, l2)
    ensures LabeledIkm(c1.SuiteId(), l1.Text(), ikm1) == LabeledIkm(c2.SuiteId(), l2.Text(), ikm2) <==>
            c1 == c2 && l1 == l2 && ikm1 == ikm2
  {
    if LabeledIkm(c1.SuiteId(), l1.Text(), ikm1) == LabeledIkm(c2.SuiteId(), l2.Text(), ikm2) {
      PeelIkm(c1.SuiteId(), l1.Text(), ikm1, c2.SuiteId(), l2.Text(), ikm2);
      FramesSeparate(c1, l1, ikm1, c2, l2, ikm2);
    }
  }

  lemma PeelInfo(n1: u16, s1: Bytes, t1: Bytes, x1: Bytes, n2: u16, s2: Bytes, t2: Bytes, x2: Bytes)
    requires LabeledInfo(n1, s1, t1, x1) == LabeledInfo(n2, s2, t2, x2)
    ensures n1 == n2 && s1 + t1 + x1 == s2 + t2 + x2
  {
    assert LabeledInfo(n1, s1, t1, x1) == I2OSP(n1, 2) + LabeledIkm(s1, t1, x1);
    assert LabeledInfo(n2, s2, t2, x2) == I2OSP(n2, 2) + LabeledIkm(s2, t2, x2);
    SplitHead(I2OSP(n1, 2), LabeledIkm(s1, t1, x1), I2OSP(n2, 2), LabeledIkm(s2, t2, x2));
    PeelIkm(s1, t1, x1, s2, t2, x2);
    IdsSeparate(n1, n2);
  }

  /** What every LabeledExpand input says: its output length, caller, label and context. */
  lemma ExpandInputsSeparate(n1: u16, c1: Caller, l1: Label, info1: Bytes, n2: u16, c2: Caller, l2: Label, info2: Bytes)
    requires ExpandSite(c1, l1) && ExpandSite(c2, l2)
    ensures LabeledInfo(n1, c1.SuiteId(), l1.Text(), info1) == LabeledInfo(n2, c2.SuiteId(), l2.Text(), info2) <==>
            n1 == n2 && c1 == c2 && l1 == l2 && info1 == info2
  {
    if LabeledInfo(n1, c1.SuiteId(), l1.Text(), info1) == LabeledInfo(n2, c2.SuiteId(), l2.Text(), info2) {
      PeelInfo(n1, c1.SuiteId(), l1.Text(), info1, n2, c2.SuiteId(), l2.Text(), info2);
      FramesSeparate(c1, l1, info1, c2, l2, info2);
    }
  }

  /**
   Why the set of labels matters: two unprefixed labels can be confused by some pair of contexts exactly when one
   is a prefix of the other, as "sec" (an Expand label) is of "secret" (an Extract label).
   */
  lemma UnprefixedLabelsConfusedExactly(t1: Bytes, t2: Bytes)
    ensures (exists x: Bytes, y: Bytes :: t1 + x == t2 + y) <==> t1 <= t2 || t2 <= t1
    ensures Sec.Text() <= Secret.Text()
  {
    if t1 <= t2 {
      assert t1 + t2[|t1|..] == t2 + [];
    } else if t2 <= t1 {
      assert t1 + [] == t2 + t1[|t2|..];
    }
    forall x: Bytes, y: Bytes | t1 + x == t2 + y ensures t1 <= t2 || t2 <= t1 {
      var s := t1 + x;
      assert t1 == s[..|t1|] && t2 == s[..|t2|];
    }
  }
}
