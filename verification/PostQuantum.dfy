/**
 X-Wing and ML-KEM: the LabeledDerive encoding (section 4 of draft-ietf-hpke-hpke), and private keys that keep a seed
 and the decapsulation key expanded from it.
 */
module PostQuantum {
  import opened ByteStrings
  import opened Results
  import opened LabeledKdf
  import opened DomainSeparation
  import opened Hpke

  // "DeriveKeyPair"
  const DERIVE_KEY_PAIR: Bytes := [0x44, 0x65, 0x72, 0x69, 0x76, 0x65, 0x4B, 0x65, 0x79, 0x50, 0x61, 0x69, 0x72]

  /** One parameter set over uninterpreted SHAKE256, key expansion, encapsulation and decapsulation. */
  datatype Scheme<!Dk, !Ek> = Scheme(
    id: u16,
    seedLen: nat,
    nenc: nat,
    npk: nat,
    shake: (Bytes, nat) -> Bytes,
    expandKey: Bytes -> Dk,
    ekOf: Dk -> Ek,
    ekToBytes: Ek -> Bytes,
    ekFromBytes: Bytes -> Option<Ek>,
    encapsulate: (Bytes, Ek) -> (Bytes, Bytes), // randomness; ciphertext and shared secret
    decapsulate: (Dk, Bytes) -> Bytes)

  ghost predicate LawfulScheme<Dk(!new), Ek(!new)>(s: Scheme<Dk, Ek>) {
    // X-Wing, ML-KEM-768 and ML-KEM-1024
    && (s.id, s.seedLen, s.nenc, s.npk) in
         {(0x647A, 32, 1120, 1216), (0x0041, 64, 1088, 1184), (0x0042, 64, 1568, 1568)}
    && (forall x, n: nat :: |s.shake(x, n)| == n)
    && (forall ek :: |s.ekToBytes(ek)| == s.npk && s.ekFromBytes(s.ekToBytes(ek)) == Some(ek))
    && (forall r, ek :: |s.encapsulate(r, ek).0| == s.nenc)
    && (forall r, dk :: s.decapsulate(dk, s.encapsulate(r, s.ekOf(dk)).0) == s.encapsulate(r, s.ekOf(dk)).1)
  }

  // ---- LabeledDerive ----

  /** What follows the keying material: version, suite id, length-prefixed label. */
  function DeriveFrame(suiteId: Bytes, lbl: Bytes): Bytes
    requires |lbl| < 0x1_0000
  {
    HPKE_V1 + suiteId + I2OSP(|lbl|, 2) + lbl
  }

  /** ikm || "HPKE-v1" || suite_id || lengthPrefixed(label) || I2OSP(L, 2), with an empty context. */
  function DeriveInput(suiteId: Bytes, lbl: Bytes, ikm: Bytes, length: u16): Bytes
    requires |lbl| < 0x1_0000
  {
    ikm + DeriveFrame(suiteId, lbl) + I2OSP(length, 2)
  }

  /** `shake256_labeled_derive`: the hasher absorbs the fields in order, then fills `out`. */
  method LabeledDerive(shake: (Bytes, nat) -> Bytes, suiteId: Bytes, lbl: Bytes, ikm: Bytes, out: array<Byte>)
    returns (r: Result<()>)
    requires forall x, n: nat :: |shake(x, n)| == n
    modifies out
    ensures r.Ok? <==> |lbl| < 0x1_0000 && out.Length < 0x1_0000
    ensures r.Ok? ==> out[..] == shake(DeriveInput(suiteId, lbl, ikm, out.Length), out.Length)
    ensures r.Err? ==> r.error == DeriveKeyPairError && out[..] == old(out[..])
  {
    if |lbl| >= 0x1_0000 {
      return Err(DeriveKeyPairError);
    }
    if out.Length >= 0x1_0000 {
      return Err(DeriveKeyPairError);
    }
    var absorbed := ikm;
    absorbed := absorbed + HPKE_V1;
    absorbed := absorbed + suiteId;
    absorbed := absorbed + I2OSP(|lbl|, 2);
    absorbed := absorbed + lbl;
    absorbed := absorbed + I2OSP(out.Length, 2);
    assert absorbed == DeriveInput(suiteId, lbl, ikm, out.Length);
    CopyInto(out, 0, shake(absorbed, out.Length));
    r := Ok(());
  }

  lemma SliceAfter(a: Bytes, b: Bytes, i: nat, j: nat)
    requires i <= j <= |b|
    ensures (a + b)[|a| + i..|a| + j] == b[i..j]
  {
  }

  lemma FieldsAfter(a: Bytes, tail: Bytes, n: nat)
    requires |tail| == 16 + n
    ensures var x, at := a + tail, |a|;
            && x[..at] == a && x[at..at + 7] == tail[..7]
            && x[at + 7..at + 10] == tail[7..10] && x[at + 10..at + 12] == tail[10..12]
            && x[at + 12..at + 14] == tail[12..14]
            && x[at + 14..at + 14 + n] == tail[14..14 + n]
            && x[at + 14 + n..at + 16 + n] == tail[14 + n..]
  {
    SliceAfter(a, tail, 0, 7);
    SliceAfter(a, tail, 7, 10);
    SliceAfter(a, tail, 10, 12);
    SliceAfter(a, tail, 12, 14);
    SliceAfter(a, tail, 14, 14 + n);
    SliceAfter(a, tail, 14 + n, 16 + n);
  }

  lemma FieldsOf(version: Bytes, suiteId: Bytes, n: Bytes, lbl: Bytes, length: Bytes)
    requires |version| == 7 && |suiteId| == 5 && |n| == 2 && |length| == 2
    ensures var tail := version + suiteId + n + lbl + length;
            && tail[..7] == version
            && tail[7..10] == suiteId[..3] && tail[10..12] == suiteId[3..]
            && tail[12..14] == n
            && tail[14..14 + |lbl|] == lbl
            && tail[14 + |lbl|..] == length
  {
  }

  /** What follows the keying material, read field by field; the length prefix says where the label ends. */
  lemma DeriveTailExactly(id: u16, lbl: Bytes, length: u16)
    requires |lbl| < 0x1_0000
    ensures var tail := DeriveFrame(KemSuiteId(id), lbl) + I2OSP(length, 2);
            && |tail| == 16 + |lbl|
            && Spells(tail[..7], "HPKE-v1")
            && Spells(tail[7..10], "KEM") && Pair(tail[10..12]) == id
            && Pair(tail[12..14]) == |lbl|
            && tail[14..14 + Pair(tail[12..14])] == lbl
            && Pair(tail[14 + |lbl|..]) == length
  {
    FieldsOf(HPKE_V1, KemSuiteId(id), I2OSP(|lbl|, 2), lbl, I2OSP(length, 2));
    VersionExactly();
    SuiteIdsExactly(KemCaller(id));
    PairOfU16(|lbl|);
    PairOfU16(length);
  }

  /** The SHAKE input is the keying material followed by that. */
  lemma DeriveInputExactly(id: u16, lbl: Bytes, ikm: Bytes, length: u16)
    requires |lbl| < 0x1_0000
    ensures var input, at := DeriveInput(KemSuiteId(id), lbl, ikm, length), |ikm|;
            && |input| == at + 16 + |lbl|
            && input[..at] == ikm
            && Spells(input[at..at + 7], "HPKE-v1")
            && Spells(input[at + 7..at + 10], "KEM") && Pair(input[at + 10..at + 12]) == id
            && Pair(input[at + 12..at + 14]) == |lbl|
            && input[at + 14..at + 14 + |lbl|] == lbl
            && Pair(input[at + 14 + |lbl|..at + 16 + |lbl|]) == length
  {
    var tail := DeriveFrame(KemSuiteId(id), lbl) + I2OSP(length, 2);
    DeriveTailExactly(id, lbl, length);
    assert DeriveInput(KemSuiteId(id), lbl, ikm, length) == ikm + tail;
    FieldsAfter(ikm, tail, |lbl|);
  }

  lemma DeriveLabelExactly()
    ensures Spells(DERIVE_KEY_PAIR, "DeriveKeyPair")
  {
  }

  /** Strip the 29 octets after the keying material, if they are what the crate's call sites put there. */
  function DecodeDerive(input: Bytes): Option<(Bytes, u16, u16)> {
    if |input| < 29 then None
    else
      var at := |input| - 29;
      var ikm, id, length := input[..at], OS2IP(input[at + 10..at + 12]), OS2IP(input[at + 27..]);
      if id < 0x1_0000 && length < 0x1_0000 && input == DeriveInput(KemSuiteId(id), DERIVE_KEY_PAIR, ikm, length)
      then Some((ikm, id, length))
      else None
  }

  /** Decoding undoes encoding, with keying material of any length, and encoding undoes decoding. */
  lemma DeriveInputDecodes(id: u16, ikm: Bytes, length: u16, input: Bytes)
    ensures DecodeDerive(DeriveInput(KemSuiteId(id), DERIVE_KEY_PAIR, ikm, length)) == Some((ikm, id, length))
    ensures DecodeDerive(input).Some? ==>
              var (k, i, n) := DecodeDerive(input).value; input == DeriveInput(KemSuiteId(i), DERIVE_KEY_PAIR, k, n)
  {
    var e := DeriveInput(KemSuiteId(id), DERIVE_KEY_PAIR, ikm, length);
    var at := |ikm|;
    assert |e| == at + 29;
    assert e[..at] == ikm;
    assert e[at + 10..at + 12] == I2OSP(id, 2);
    assert e[at + 27..] == I2OSP(length, 2);
    U16Range(id);
    I2OSPRoundTrip(id, 2);
    U16Range(length);
    I2OSPRoundTrip(length, 2);
  }

  /** Two derivations share a SHAKE input only if they are the same derivation; so no two KEMs ever do. */
  lemma DeriveInputsSeparate(id1: u16, ikm1: Bytes, n1: u16, id2: u16, ikm2: Bytes, n2: u16)
    ensures DeriveInput(KemSuiteId(id1), DERIVE_KEY_PAIR, ikm1, n1) ==
            DeriveInput(KemSuiteId(id2), DERIVE_KEY_PAIR, ikm2, n2) <==>
            id1 == id2 && ikm1 == ikm2 && n1 == n2
  {
    DeriveInputDecodes(id1, ikm1, n1, []);
    DeriveInputDecodes(id2, ikm2, n2, []);
  }

  predicate SuffixOf(a: Bytes, b: Bytes) {
    |a| <= |b| && b[|b| - |a|..] == a
  }

  lemma OneEndsWithTheOther(k1: Bytes, f1: Bytes, k2: Bytes, f2: Bytes)
    requires k1 + f1 == k2 + f2
    ensures SuffixOf(f1, f2) || SuffixOf(f2, f1)
  {
    var w := k1 + f1;
    assert f1 == w[|k1|..] && f2 == w[|k2|..];
    if |f1| <= |f2| {
      assert f2[|f2| - |f1|..] == f1;
    } else {
      assert f1[|f1| - |f2|..] == f2;
    }
  }

  /**
   The label's length prefix alone does not separate labels, because the keying material comes first: some keying
   material confuses two callers exactly when the frame of one ends with the frame of the other.
   */
  lemma DeriveLabelsConfusedExactly(s1: Bytes, l1: Bytes, n1: u16, s2: Bytes, l2: Bytes, n2: u16)
    requires |l1| < 0x1_0000 && |l2| < 0x1_0000
    ensures (exists k1: Bytes, k2: Bytes :: DeriveInput(s1, l1, k1, n1) == DeriveInput(s2, l2, k2, n2)) <==>
            && n1 == n2
            && (|| SuffixOf(DeriveFrame(s1, l1), DeriveFrame(s2, l2))
                || SuffixOf(DeriveFrame(s2, l2), DeriveFrame(s1, l1)))
  {
    var f1, f2 := DeriveFrame(s1, l1), DeriveFrame(s2, l2);
    if n1 == n2 && SuffixOf(f1, f2) {
      var k := f2[..|f2| - |f1|];
      assert k + f1 == [] + f2;
      assert DeriveInput(s1, l1, k, n1) == DeriveInput(s2, l2, [], n2);
    }
    if n1 == n2 && SuffixOf(f2, f1) {
      var k := f1[..|f1| - |f2|];
      assert [] + f1 == k + f2;
      assert DeriveInput(s1, l1, [], n1) == DeriveInput(s2, l2, k, n2);
    }
    forall k1: Bytes, k2: Bytes | DeriveInput(s1, l1, k1, n1) == DeriveInput(s2, l2, k2, n2)
      ensures n1 == n2 && (SuffixOf(f1, f2) || SuffixOf(f2, f1))
    {
      SplitTail(k1 + f1, I2OSP(n1, 2), k2 + f2, I2OSP(n2, 2));
      IdsSeparate(n1, n2);
      OneEndsWithTheOther(k1, f1, k2, f2);
    }
  }

  /** Such labels exist: an empty label, and one that spells out the empty label's frame. */
  lemma ConfusableLabelsExist(suiteId: Bytes)
    requires |suiteId| == 5
    ensures var long := DeriveFrame(suiteId, []);
            && |long| < 0x1_0000
            && SuffixOf(DeriveFrame(suiteId, []), DeriveFrame(suiteId, long))
  {
    var long := DeriveFrame(suiteId, []);
    var frame := DeriveFrame(suiteId, long);
    assert frame[|frame| - |long|..] == long;
  }

  // ---- Private keys ----

  /** The value of a private key. */
  datatype KeyState<Dk> = KeyState(seed: Bytes, dk: Option<Dk>)

  datatype PublicKey<Ek> = PublicKey(bytes: Bytes, parsed: Ek)

  function KeyFromSeed<Dk, Ek>(s: Scheme<Dk, Ek>, seed: Bytes): KeyState<Dk> {
    KeyState(seed, Some(s.expandKey(seed)))
  }

  function PublicFromSeed<Dk, Ek>(s: Scheme<Dk, Ek>, seed: Bytes): PublicKey<Ek> {
    var ek := s.ekOf(s.expandKey(seed));
    PublicKey(s.ekToBytes(ek), ek)
  }

  function ZeroizedKey<Dk>(k: KeyState<Dk>): KeyState<Dk> {
    KeyState(Zeros(|k.seed|), None)
  }

  function DecapWith<Dk, Ek>(s: Scheme<Dk, Ek>, k: KeyState<Dk>, enc: Bytes): Result<Bytes> {
    match k.dk
    case None => Err(DecapError)
    case Some(dk) => if |enc| != s.nenc then Err(InvalidEncappedKey) else Ok(s.decapsulate(dk, enc))
  }

  /** Decapsulation without a cache: expand the seed every time. */
  function DecapFromSeed<Dk, Ek>(s: Scheme<Dk, Ek>, seed: Bytes, enc: Bytes): Result<Bytes> {
    if |enc| != s.nenc then Err(InvalidEncappedKey) else Ok(s.decapsulate(s.expandKey(seed), enc))
  }

  function ReloadedKey<Dk, Ek>(s: Scheme<Dk, Ek>, b: Bytes): Result<KeyState<Dk>> {
    if |b| != s.seedLen then Err(InvalidPrivateKey) else Ok(KeyFromSeed(s, b))
  }

  class PrivateKey<Dk> {
    const seed: array<Byte>
    var dk: Option<Dk>

    ghost function State(): KeyState<Dk>
      reads this, seed
    {
      KeyState(seed[..], dk)
    }

    constructor (seed: array<Byte>, dk: Dk)
      ensures this.seed == seed && this.dk == Some(dk)
    {
      this.seed := seed;
      this.dk := Some(dk);
    }

    /** `zeroize`: the seed is overwritten and the expanded key dropped. */
    method Zeroize()
      modifies this, seed
      ensures State() == ZeroizedKey(old(State()))
    {
      forall i | 0 <= i < seed.Length {
        seed[i] := 0;
      }
      dk := None;
    }

    method Decap<Ek>(s: Scheme<Dk, Ek>, enc: Bytes) returns (r: Result<Bytes>)
      ensures r == DecapWith(s, State(), enc)
    {
      match dk
      case None =>
        r := Err(DecapError);
      case Some(cached) =>
        if |enc| != s.nenc {
          return Err(InvalidEncappedKey);
        }
        r := Ok(s.decapsulate(cached, enc));
    }

    method ToBytes() returns (b: Bytes)
      ensures b == State().seed
    {
      b := seed[..];
    }
  }

  /** `keypair_from_seed` and its ML-KEM counterparts. */
  method KeypairFromSeed<Dk, Ek>(s: Scheme<Dk, Ek>, seed: Bytes) returns (sk: PrivateKey<Dk>, pk: PublicKey<Ek>)
    ensures fresh(sk) && fresh(sk.seed) && sk.State() == KeyFromSeed(s, seed)
    ensures sk.State().seed == seed && sk.State().dk == Some(s.expandKey(seed))
    ensures pk == PublicFromSeed(s, seed)
    ensures pk.parsed == s.ekOf(s.expandKey(seed)) && pk.bytes == s.ekToBytes(pk.parsed)
  {
    var buffer := new Byte[|seed|](_ => 0);
    CopyInto(buffer, 0, seed);
    assert buffer[..] == seed;
    var dk := s.expandKey(seed);
    var ek := s.ekOf(dk);
    sk := new PrivateKey(buffer, dk);
    pk := PublicKey(s.ekToBytes(ek), ek);
  }

  method SkFromBytes<Dk, Ek>(s: Scheme<Dk, Ek>, b: Bytes) returns (r: Result<PrivateKey<Dk>>)
    ensures r.Ok? ==> fresh(r.value) && fresh(r.value.seed)
    ensures (if r.Ok? then Ok(r.value.State()) else Err(r.error)) == ReloadedKey(s, b)
  {
    if |b| != s.seedLen {
      return Err(InvalidPrivateKey);
    }
    var sk, _ := KeypairFromSeed(s, b);
    r := Ok(sk);
  }

  /** `derive_key_pair`: the seed is the labeled derivation of the keying material, of any length. */
  method DeriveKeyPair<Dk, Ek>(s: Scheme<Dk, Ek>, ikm: Bytes) returns (r: Result<(PrivateKey<Dk>, PublicKey<Ek>)>)
    requires forall x, n: nat :: |s.shake(x, n)| == n
    requires s.seedLen < 0x1_0000
    ensures var seed := s.shake(DeriveInput(KemSuiteId(s.id), DERIVE_KEY_PAIR, ikm, s.seedLen), s.seedLen);
            && r.Ok? && fresh(r.value.0) && fresh(r.value.0.seed)
            && r.value.0.State() == KeyFromSeed(s, seed)
            && r.value.1 == PublicFromSeed(s, seed)
  {
    var suite := KemSuite(s.id);
    var seed := new Byte[s.seedLen](_ => 0);
    var derived := LabeledDerive(s.shake, suite[..], DERIVE_KEY_PAIR, ikm, seed);
    var sk, pk := KeypairFromSeed(s, seed[..]);
    r := Ok((sk, pk));
  }

  // ---- The life of a key ----

  datatype KeyOp = Decapsulate(enc: Bytes) | Serialise | Zeroize

  datatype KeyAnswer = Decapsulated(r: Result<Bytes>) | Octets(b: Bytes) | Done

  function ApplyOp<Dk, Ek>(s: Scheme<Dk, Ek>, k: KeyState<Dk>, op: KeyOp): (KeyState<Dk>, KeyAnswer) {
    match op
    case Decapsulate(enc) => (k, Decapsulated(DecapWith(s, k, enc)))
    case Serialise => (k, Octets(k.seed))
    case Zeroize => (ZeroizedKey(k), Done)
  }

  /** All answers of a sequence of operations, and the key it leaves. */
  function ApplyAll<Dk, Ek>(s: Scheme<Dk, Ek>, k: KeyState<Dk>, ops: seq<KeyOp>): (KeyState<Dk>, seq<KeyAnswer>)
    decreases |ops|
  {
    if ops == [] then (k, [])
    else
      var (k', a) := ApplyOp(s, k, ops[0]);
      var (k'', rest) := ApplyAll(s, k', ops[1..]);
      (k'', [a] + rest)
  }

  /** The answer the uncached, never-zeroized key would give; and the one a zeroized key gives. */
  function AnswerFromSeed<Dk, Ek>(s: Scheme<Dk, Ek>, seed: Bytes, op: KeyOp): KeyAnswer {
    match op
    case Decapsulate(enc) => Decapsulated(DecapFromSeed(s, seed, enc))
    case Serialise => Octets(seed)
    case Zeroize => Done
  }

  function AnswerAfterZeroize(op: KeyOp, n: nat): KeyAnswer {
    match op
    case Decapsulate(_) => Decapsulated(Err(DecapError))
    case Serialise => Octets(Zeros(n))
    case Zeroize => Done
  }

  lemma {:induction false} ZeroizedHistory<Dk, Ek>(s: Scheme<Dk, Ek>, n: nat, ops: seq<KeyOp>)
    ensures var (k, answers) := ApplyAll(s, KeyState(Zeros(n), None), ops);
            && |answers| == |ops| && k == KeyState(Zeros(n), None)
            && forall i :: 0 <= i < |ops| ==> answers[i] == AnswerAfterZeroize(ops[i], n)
  {
    if ops != [] {
      var zero: KeyState<Dk> := KeyState(Zeros(n), None);
      assert ZeroizedKey(zero) == zero;
      ZeroizedHistory(s, n, ops[1..]);
    }
  }

  /**
   Under any sequence of operations on a constructed key, the cached key is either the expansion of the original seed
   or gone with an all-zero seed; every answer up to the first zeroize is the uncached key's, and every answer after
   it is a decapsulation error or zeros.
   */
  lemma {:induction false} KeyHistory<Dk, Ek>(s: Scheme<Dk, Ek>, seed: Bytes, ops: seq<KeyOp>)
    ensures var (k, answers) := ApplyAll(s, KeyFromSeed(s, seed), ops);
            && |answers| == |ops|
            && k == (if Zeroize in ops then KeyState(Zeros(|seed|), None) else KeyFromSeed(s, seed))
            && forall i :: 0 <= i < |ops| ==>
                 answers[i] == if Zeroize in ops[..i] then AnswerAfterZeroize(ops[i], |seed|)
                               else AnswerFromSeed(s, seed, ops[i])
  {
    if ops != [] {
      var rest := ops[1..];
      if ops[0] == Zeroize {
        ZeroizedHistory(s, |seed|, rest);
      } else {
        KeyHistory(s, seed, rest);
      }
      forall i | 0 < i < |ops| ensures Zeroize in ops[..i] <==> ops[0] == Zeroize || Zeroize in rest[..i - 1] {
        assert ops[..i] == [ops[0]] + rest[..i - 1];
      }
      assert ops == [ops[0]] + rest;
    }
  }

  /**
   A key reloaded from its own octets decapsulates every well-formed ciphertext like the original exactly when the
   original was not zeroized: the zeros a zeroized key serialises to load as a working key for the all-zero seed.
   */
  lemma ReloadDecapsulatesAlikeExactly<Dk(!new), Ek(!new)>(s: Scheme<Dk, Ek>, seed: Bytes, ops: seq<KeyOp>)
    requires LawfulScheme(s) && |seed| == s.seedLen
    ensures var k := ApplyAll(s, KeyFromSeed(s, seed), ops).0;
            var reloaded := ReloadedKey(s, k.seed);
            && reloaded.Ok?
            && ((forall enc :: |enc| == s.nenc ==> DecapWith(s, reloaded.value, enc) == DecapWith(s, k, enc)) <==>
                Zeroize !in ops)
  {
    KeyHistory(s, seed, ops);
    var k := ApplyAll(s, KeyFromSeed(s, seed), ops).0;
    var reloaded := ReloadedKey(s, k.seed).value;
    if Zeroize in ops {
      assert DecapWith(s, reloaded, Zeros(s.nenc)) != DecapWith(s, k, Zeros(s.nenc));
    }
  }

  // ---- As a KEM of HPKE ----

  function EncFromBytes<Dk, Ek>(s: Scheme<Dk, Ek>, b: Bytes): Result<Bytes> {
    if |b| != s.nenc then Err(InvalidEncappedKey) else Ok(b)
  }

  function PkFromBytes<Dk, Ek>(s: Scheme<Dk, Ek>, b: Bytes): Result<PublicKey<Ek>> {
    if |b| != s.npk then Err(InvalidPublicKey)
    else match s.ekFromBytes(b)
      case None => Err(InvalidPublicKey)
      case Some(ek) => Ok(PublicKey(b, ek))
  }

  function EncapTo<Dk, Ek>(s: Scheme<Dk, Ek>, random: Bytes, pk: PublicKey<Ek>): Result<(Bytes, Bytes)> {
    var (ct, ss) := s.encapsulate(random, pk.parsed);
    Ok((ss, ct))
  }

  predicate PairedKeys<Dk(==), Ek(==)>(s: Scheme<Dk, Ek>, k: KeyState<Dk>, pk: PublicKey<Ek>) {
    k == KeyFromSeed(s, k.seed) && pk == PublicFromSeed(s, k.seed)
  }

  /** These KEMs do not implement the authenticated modes; the two unused entries stand for their absence. */
  function PqKemOf<Dk(==), Ek(==)>(s: Scheme<Dk, Ek>): Kem<Bytes, KeyState<Dk>, PublicKey<Ek>> {
    Kem(s.id,
        (random, pk) => EncapTo(s, random, pk),
        (random, pk, k) => Err(EncapError),
        (enc, k) => DecapWith(s, k, enc),
        (enc, k, pk) => Err(DecapError),
        b => EncFromBytes(s, b),
        random => true,
        (k, pk) => PairedKeys(s, k, pk),
        false)
  }

  /**
   Which octets the three parsers accept, what they keep of them, and how they refuse the others: private keys are the
   seeds, kept with their expansion; public keys are what the scheme decodes, kept as received.
   */
  lemma OctetsParseExactly<Dk(!new), Ek(!new)>(s: Scheme<Dk, Ek>, b: Bytes)
    ensures var sk := ReloadedKey(s, b);
            if |b| != s.seedLen then sk == Err(InvalidPrivateKey)
            else sk.Ok? && sk.value.seed == b && sk.value.dk == Some(s.expandKey(b))
    ensures var pk := PkFromBytes(s, b);
            if |b| != s.npk || s.ekFromBytes(b).None? then pk == Err(InvalidPublicKey)
            else pk.Ok? && pk.value.bytes == b && Some(pk.value.parsed) == s.ekFromBytes(b)
    ensures var enc := PqKemOf(s).encFromBytes(b);
            if |b| != s.nenc then enc == Err(InvalidEncappedKey) else enc == Ok(b)
  {
  }

  /** Encapsulation never fails, and decapsulation fails exactly for a zeroized key or a wrong length, in this order. */
  lemma KemAnswersExactly<Dk(!new), Ek(!new)>(
    s: Scheme<Dk, Ek>, random: Bytes, pk: PublicKey<Ek>, k: KeyState<Dk>, enc: Bytes)
    ensures var r := PqKemOf(s).encap(random, pk);
            r.Ok? && (r.value.1, r.value.0) == s.encapsulate(random, pk.parsed)
    ensures var r := PqKemOf(s).decap(enc, k);
            && (k.dk == None ==> r == Err(DecapError))
            && (k.dk != None && |enc| != s.nenc ==> r == Err(InvalidEncappedKey))
            && (k.dk != None && |enc| == s.nenc ==> r == Ok(s.decapsulate(k.dk.value, enc)))
  {
  }

  /** Each scheme is a lawful KEM, and its public keys survive the wire. */
  lemma PqKemLawful<Dk(!new), Ek(!new)>(s: Scheme<Dk, Ek>, seed: Bytes)
    requires LawfulScheme(s)
    ensures LawfulKem(PqKemOf(s)) && PqKemOf(s).id == s.id && !PqKemOf(s).authenticates
    ensures PkFromBytes(s, PublicFromSeed(s, seed).bytes) == Ok(PublicFromSeed(s, seed))
  {
    forall random, sk, pk | PairedKeys(s, sk, pk)
      ensures var (ss, enc) := EncapTo(s, random, pk).value; |enc| == s.nenc && DecapWith(s, sk, enc) == Ok(ss)
    {
      var dk := s.expandKey(sk.seed);
      assert sk.dk == Some(dk) && pk.parsed == s.ekOf(dk);
      assert s.decapsulate(dk, s.encapsulate(random, s.ekOf(dk)).0) == s.encapsulate(random, s.ekOf(dk)).1;
    }
  }
}
