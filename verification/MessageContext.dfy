/** The encryption context of section 5.2 of RFC 9180: nonces, sealing, opening and exporting. */
module MessageContext {
  import opened ByteStrings
  import opened Results
  import opened Primitives
  import opened LabeledKdf
  import opened DomainSeparation

  const SEQ_LEN: nat := 8
  const MAX_NONCE_LEN: nat := 12

  /** The value of a context.  `baseNonce` is the suite's Nn octets, without the unused end of the fixed buffer. */
  datatype CtxState = CtxState(suite: Suite, key: Bytes, baseNonce: Bytes, exporterSecret: Bytes, counter: nat) {
    predicate Valid() {
      && |baseNonce| == suite.aead.nonceLen <= MAX_NONCE_LEN
      && counter <= U64_MAX
      && (suite.aead.Sealing() ==> |key| == suite.aead.keyLen)
    }

    /** The bound the crate asserts at compile time for every AEAD that seals. */
    predicate CanSeal() {
      Valid() && suite.aead.Sealing() && |baseNonce| >= SEQ_LEN
    }

    /** ComputeNonce of section 5.2 of RFC 9180: base_nonce XOR I2OSP(i, Nn). */
    function Nonce(i: nat): Bytes {
      Xor(baseNonce, I2OSP(i, |baseNonce|))
    }

    function Advanced(): CtxState {
      this.(counter := counter + 1)
    }
  }

  // ---- One step of the crate's context ----

  function SealStep(c: CtxState, aad: Bytes, pt: Bytes): (CtxState, Result<Bytes>) {
    if c.counter == U64_MAX then (c, Err(MessageLimitReached))
    else match c.suite.aead.encrypt(c.key, c.Nonce(c.counter), aad, pt)
      case None => (c, Err(SealError))
      case Some(ct) => (c.Advanced(), Ok(ct))
  }

  function OpenStep(c: CtxState, aad: Bytes, ct: Bytes): (CtxState, Result<Bytes>) {
    if c.counter == U64_MAX then (c, Err(MessageLimitReached))
    else match c.suite.aead.decrypt(c.key, c.Nonce(c.counter), aad, ct)
      case None => (c, Err(OpenError))
      case Some(pt) => (c.Advanced(), Ok(pt))
  }

  function SuiteCaller(s: Suite): Caller {
    HpkeCaller(s.kemId, s.kdf.id, s.aead.id)
  }

  function ExportOf(c: CtxState, context: Bytes, length: nat): Result<Bytes> {
    CheckedExpand(c.suite.kdf, c.exporterSecret, SuiteCaller(c.suite).SuiteId(), Sec.Text(), context, length)
  }

  // ---- Nonces ----

  /**
   A nonce, bit by bit: octet `j` differs from the base nonce's in exactly the bits that are set in the digit of weight
   256^(Nn - 1 - j) of the counter.
   */
  predicate NonceBits(nonce: Bytes, base: Bytes, i: nat) {
    && |nonce| == |base|
    && forall j :: 0 <= j < |base| ==>
         var digit := Digit(i, |base| - 1 - j);
         nonce[j] == (base[j] | digit) & !(base[j] & digit)
  }

  /** ComputeNonce of section 5.2 of RFC 9180 is that, and nothing else is. */
  lemma NonceIsBits(c: CtxState, i: nat, nonce: Bytes)
    ensures NonceBits(nonce, c.baseNonce, i) <==> nonce == c.Nonce(i)
  {
    var n := |c.baseNonce|;
    forall j | 0 <= j < n
      ensures var digit := Digit(i, n - 1 - j); c.Nonce(i)[j] == (c.baseNonce[j] | digit) & !(c.baseNonce[j] & digit)
    {
      I2OSPDigit(i, n, j);
      XorByteBits(c.baseNonce[j], I2OSP(i, n)[j]);
    }
  }

  /** The first message goes under the base nonce itself. */
  lemma FirstNonceIsBase(c: CtxState)
    ensures c.Nonce(0) == c.baseNonce
  {
    I2OSPZero(|c.baseNonce|);
    forall j | 0 <= j < |c.baseNonce| ensures c.Nonce(0)[j] == c.baseNonce[j] {
      XorByteCancels(c.baseNonce[j], 0);
    }
  }

  lemma {:induction false} CounterInRange(i: u64, n: nat)
    requires n >= SEQ_LEN
    ensures i < Pow256(SEQ_LEN) <= Pow256(n)
  {
    if n == SEQ_LEN {
      U64Range(i);
    } else {
      CounterInRange(i, n - 1);
    }
  }

  /** Distinct counters give distinct nonces. */
  lemma NoncesDistinct(c: CtxState, i: u64, j: u64)
    requires c.CanSeal()
    requires c.Nonce(i) == c.Nonce(j)
    ensures i == j
  {
    var n := |c.baseNonce|;
    XorCancels(c.baseNonce, I2OSP(i, n), I2OSP(j, n));
    CounterInRange(i, n);
    CounterInRange(j, n);
    I2OSPInjective(i, j, n);
  }

  /** The string with a mask XORed into the octets from a given position on. */
  function XoredAt(s: Bytes, at: nat, mask: Bytes): (r: Bytes)
    requires at + |mask| <= |s|
    ensures |r| == |s|
    ensures forall j :: 0 <= j < |s| ==>
              r[j] == if at <= j < at + |mask| then XorByte(s[j], mask[j - at]) else s[j]
  {
    seq(|s|, j requires 0 <= j < |s| => if at <= j < at + |mask| then XorByte(s[j], mask[j - at]) else s[j])
  }

  method XorInto(dst: array<Byte>, at: nat, mask: Bytes)
    requires at + |mask| <= dst.Length
    modifies dst
    ensures dst[..] == XoredAt(old(dst[..]), at, mask)
  {
    for i := 0 to |mask|
      invariant forall j :: 0 <= j < dst.Length ==>
                  dst[j] == if at <= j < at + i then XorByte(old(dst[j]), mask[j - at]) else old(dst[j])
    {
      dst[at + i] := XorByte(dst[at + i], mask[i]);
    }
  }

  // ---- What the steps answer ----

  /**
   A seal returns a ciphertext exactly below the limit and when the AEAD gives it under the nonce of the counter; the
   counter moves then and only then, and the two refusals are told apart.
   */
  lemma SealsExactly(c: CtxState, aad: Bytes, pt: Bytes)
    requires c.counter <= U64_MAX
    ensures var (d, r) := SealStep(c, aad, pt);
            var answer := c.suite.aead.encrypt(c.key, Xor(c.baseNonce, I2OSP(c.counter, |c.baseNonce|)), aad, pt);
            && (forall ct :: r == Ok(ct) <==> c.counter < U64_MAX && answer == Some(ct))
            && (r == Err(MessageLimitReached) <==> c.counter == U64_MAX)
            && (r == Err(SealError) <==> c.counter < U64_MAX && answer == None)
            && d == c.(counter := if r.Ok? then c.counter + 1 else c.counter)
  {
  }

  /** The same for opening: what the AEAD does not authenticate is refused and leaves the state as it was. */
  lemma OpensExactly(c: CtxState, aad: Bytes, ct: Bytes)
    requires c.counter <= U64_MAX
    ensures var (d, r) := OpenStep(c, aad, ct);
            var answer := c.suite.aead.decrypt(c.key, Xor(c.baseNonce, I2OSP(c.counter, |c.baseNonce|)), aad, ct);
            && (forall pt :: r == Ok(pt) <==> c.counter < U64_MAX && answer == Some(pt))
            && (r == Err(MessageLimitReached) <==> c.counter == U64_MAX)
            && (r == Err(OpenError) <==> c.counter < U64_MAX && answer == None)
            && d == c.(counter := if r.Ok? then c.counter + 1 else c.counter)
  {
  }

  /** Context.Export of section 5.3 of RFC 9180, as the call to HKDF-Expand it is. */
  function Exported(s: Suite, exporterSecret: Bytes, context: Bytes, length: nat): Bytes {
    var id := HpkeSuiteId(s.kemId, s.kdf.id, s.aead.id);
    s.kdf.expand(exporterSecret, I2OSP(length, 2) + HPKE_V1 + id + Sec.Text() + context, length)
  }

  lemma ExportExactly(c: CtxState, context: Bytes, length: nat)
    requires c.suite.Lawful() && |c.exporterSecret| == c.suite.kdf.hashLen
    ensures ExportOf(c, context, length) ==
            if length <= 255 * c.suite.kdf.hashLen then Ok(Exported(c.suite, c.exporterSecret, context, length))
            else Err(ExportLengthExceeded)
  {
    ExpandSucceedsExactly(c.suite.kdf, c.exporterSecret, SuiteCaller(c.suite).SuiteId(), Sec.Text(), context, length);
  }

  // ---- The context object ----

  /** XORing eight big-endian octets into the end is XORing the full-width encoding. */
  lemma TrailingXor(base: Bytes, i: u64, out: Bytes)
    requires |base| == |out| >= SEQ_LEN
    requires forall j :: 0 <= j < |base| ==>
               out[j] == if j < |base| - SEQ_LEN then base[j]
                         else XorByte(base[j], I2OSP(i, SEQ_LEN)[j - (|base| - SEQ_LEN)])
    ensures out == Xor(base, I2OSP(i, |base|))
  {
    U64Range(i);
    I2OSPWiden(i, SEQ_LEN, |base|);
    forall j | 0 <= j < |base| ensures out[j] == Xor(base, I2OSP(i, |base|))[j] {
      XorByteCancels(base[j], 0);
    }
  }

  /** The whole buffer: base nonce padded with zeros, the counter's octets XORed in where the nonce ends. */
  lemma BufferIsNonce(c: CtxState, i: u64)
    requires SEQ_LEN <= |c.baseNonce| <= MAX_NONCE_LEN
    ensures var len := |c.baseNonce|;
            var out := XoredAt(c.baseNonce + Zeros(MAX_NONCE_LEN - len), len - SEQ_LEN, I2OSP(i, SEQ_LEN));
            out == c.Nonce(i) + Zeros(MAX_NONCE_LEN - len)
  {
    var len := |c.baseNonce|;
    var out := XoredAt(c.baseNonce + Zeros(MAX_NONCE_LEN - len), len - SEQ_LEN, I2OSP(i, SEQ_LEN));
    TrailingXor(c.baseNonce, i, out[..len]);
  }

  class Context {
    const suite: Suite
    const cipher: Bytes // the key the cached cipher state was built from
    const baseNonce: array<Byte>
    const exporterSecret: Bytes
    var counter: u64

    ghost predicate Valid()
      reads this, baseNonce
    {
      baseNonce.Length == MAX_NONCE_LEN && suite.aead.nonceLen <= MAX_NONCE_LEN && State().Valid()
    }

    ghost function State(): CtxState
      reads this, baseNonce
      requires suite.aead.nonceLen <= baseNonce.Length
    {
      CtxState(suite, cipher, baseNonce[..suite.aead.nonceLen], exporterSecret, counter)
    }

    constructor Init(suite: Suite, cipher: Bytes, baseNonce: array<Byte>, exporterSecret: Bytes)
      ensures this.suite == suite && this.cipher == cipher && this.baseNonce == baseNonce
      ensures this.exporterSecret == exporterSecret && counter == 0
    {
      this.suite := suite;
      this.cipher := cipher;
      this.baseNonce := baseNonce;
      this.exporterSecret := exporterSecret;
      counter := 0;
    }

    /** The copy into the nonce buffer panics unless the base nonce has the suite's length. */
    static method New(suite: Suite, key: Bytes, baseNonce: Bytes, exporterSecret: Bytes) returns (r: Result<Context>)
      requires |baseNonce| == suite.aead.nonceLen <= MAX_NONCE_LEN
      ensures r.Ok? <==> suite.aead.Sealing() ==> |key| == suite.aead.keyLen
      ensures r.Err? ==> r.error == AeadInitError
      ensures r.Ok? ==>
                && fresh(r.value) && fresh(r.value.baseNonce) && r.value.Valid()
                && r.value.State() == CtxState(suite, key, baseNonce, exporterSecret, 0)
    {
      if suite.aead.Sealing() && |key| != suite.aead.keyLen {
        return Err(AeadInitError);
      }
      var nonce := new Byte[MAX_NONCE_LEN](_ => 0);
      CopyInto(nonce, 0, baseNonce);
      var c := new Context.Init(suite, key, nonce, exporterSecret);
      assert nonce[..suite.aead.nonceLen] == baseNonce;
      r := Ok(c);
    }

    /** The counter is XORed into the last eight octets of the nonce, in place, in a twelve-octet buffer. */
    method ComputeNonce() returns (nonce: array<Byte>)
      requires Valid() && State().CanSeal()
      ensures fresh(nonce) && nonce.Length == MAX_NONCE_LEN
      ensures nonce[..] == State().Nonce(counter) + Zeros(MAX_NONCE_LEN - suite.aead.nonceLen)
    {
      var len := suite.aead.nonceLen;
      nonce := new Byte[MAX_NONCE_LEN](_ => 0);
      CopyInto(nonce, 0, baseNonce[..len]);
      assert nonce[..] == State().baseNonce + Zeros(MAX_NONCE_LEN - len);
      var seqBe := I2OSP(counter, SEQ_LEN);
      XorInto(nonce, len - SEQ_LEN, seqBe);
      BufferIsNonce(State(), counter);
    }

    /** `Context::seal`: the limit is checked first, and only a returned ciphertext advances the counter. */
    method Seal(aad: Bytes, pt: Bytes) returns (r: Result<Bytes>)
      requires Valid() && State().CanSeal()
      modifies this`counter
      ensures Valid()
      ensures (State(), r) == SealStep(old(State()), aad, pt)
    {
      if counter == U64_MAX {
        return Err(MessageLimitReached);
      }
      var nonce := ComputeNonce();
      match suite.aead.encrypt(cipher, nonce[..suite.aead.nonceLen], aad, pt)
      case None =>
        r := Err(SealError);
      case Some(ct) =>
        counter := counter + 1;
        r := Ok(ct);
    }

    /** `Context::open`: a message that does not authenticate leaves the counter where it was. */
    method Open(aad: Bytes, ct: Bytes) returns (r: Result<Bytes>)
      requires Valid() && State().CanSeal()
      modifies this`counter
      ensures Valid()
      ensures (State(), r) == OpenStep(old(State()), aad, ct)
    {
      if counter == U64_MAX {
        return Err(MessageLimitReached);
      }
      var nonce := ComputeNonce();
      match suite.aead.decrypt(cipher, nonce[..suite.aead.nonceLen], aad, ct)
      case None =>
        r := Err(OpenError);
      case Some(pt) =>
        counter := counter + 1;
        r := Ok(pt);
    }

    method Export(context: Bytes, length: nat) returns (r: Result<Bytes>)
      requires Valid()
      ensures r == ExportOf(State(), context, length)
    {
      var suiteId := Ciphersuite(suite);
      r := LabeledExpandWhole(suite.kdf, exporterSecret, suiteId[..], Sec.Text(), context, length);
    }
  }

  /** The sender's half of a context: it seals and exports, and cannot open. */
  class SenderContext {
    const inner: Context

    constructor (inner: Context)
      ensures this.inner == inner
    {
      this.inner := inner;
    }

    method Seal(aad: Bytes, pt: Bytes) returns (r: Result<Bytes>)
      requires inner.Valid() && inner.State().CanSeal()
      modifies inner`counter
      ensures inner.Valid()
      ensures (inner.State(), r) == SealStep(old(inner.State()), aad, pt)
    {
      r := inner.Seal(aad, pt);
    }

    method Export(context: Bytes, length: nat) returns (r: Result<Bytes>)
      requires inner.Valid()
      ensures r == ExportOf(inner.State(), context, length)
    {
      r := inner.Export(context, length);
    }
  }

  /** The receiver's half: it opens and exports, and cannot seal. */
  class ReceiverContext {
    const inner: Context

    constructor (inner: Context)
      ensures this.inner == inner
    {
      this.inner := inner;
    }

    method Open(aad: Bytes, ct: Bytes) returns (r: Result<Bytes>)
      requires inner.Valid() && inner.State().CanSeal()
      modifies inner`counter
      ensures inner.Valid()
      ensures (inner.State(), r) == OpenStep(old(inner.State()), aad, ct)
    {
      r := inner.Open(aad, ct);
    }

    method Export(context: Bytes, length: nat) returns (r: Result<Bytes>)
      requires inner.Valid()
      ensures r == ExportOf(inner.State(), context, length)
    {
      r := inner.Export(context, length);
    }
  }

  // ---- The reference context of RFC 9180, whose counter is an unbounded integer ----

  function SeqLimit(c: CtxState): nat {
    Pow256(|c.baseNonce|) - 1
  }

  /** ContextS.Seal of section 5.2 of RFC 9180: encrypt first, then IncrementSeq, which may raise. */
  function RfcSeal(c: CtxState, aad: Bytes, pt: Bytes): (CtxState, Result<Bytes>) {
    match c.suite.aead.encrypt(c.key, c.Nonce(c.counter), aad, pt)
    case None => (c, Err(SealError))
    case Some(ct) => if c.counter >= SeqLimit(c) then (c, Err(MessageLimitReached)) else (c.Advanced(), Ok(ct))
  }

  function RfcOpen(c: CtxState, aad: Bytes, ct: Bytes): (CtxState, Result<Bytes>) {
    match c.suite.aead.decrypt(c.key, c.Nonce(c.counter), aad, ct)
    case None => (c, Err(OpenError))
    case Some(pt) => if c.counter >= SeqLimit(c) then (c, Err(MessageLimitReached)) else (c.Advanced(), Ok(pt))
  }

  lemma LimitsCompared(c: CtxState)
    requires c.CanSeal()
    ensures SeqLimit(c) >= U64_MAX
    ensures SeqLimit(c) == U64_MAX <==> |c.baseNonce| == SEQ_LEN
  {
    var n := |c.baseNonce|;
    CounterInRange(U64_MAX, n);
    assert Pow256(SEQ_LEN) == 0x1_0000_0000_0000_0000 by {
      assert Pow256(8) == 256 * Pow256(7) && Pow256(7) == 256 * Pow256(6) && Pow256(6) == 256 * Pow256(5);
      assert Pow256(5) == 256 * Pow256(4) && Pow256(4) == 256 * Pow256(3) && Pow256(3) == 256 * Pow256(2);
      assert Pow256(2) == 256 * Pow256(1) && Pow256(1) == 256;
    }
    if n > SEQ_LEN {
      CounterInRange(U64_MAX, n - 1);
    }
  }

  /**
   Exactly when the u64 context does what the RFC's context does: always below 2^64 - 1; at 2^64 - 1 only if that is
   the RFC's own limit and the AEAD accepts the message, because the RFC raises its limit error after encrypting.
   */
  lemma SealMatchesRfcExactly(c: CtxState, aad: Bytes, pt: Bytes)
    requires c.CanSeal()
    ensures SealStep(c, aad, pt) == RfcSeal(c, aad, pt) <==>
            || c.counter < U64_MAX
            || (&& c.suite.aead.nonceLen == SEQ_LEN
                && c.suite.aead.encrypt(c.key, c.Nonce(c.counter), aad, pt).Some?)
  {
    LimitsCompared(c);
  }

  lemma OpenMatchesRfcExactly(c: CtxState, aad: Bytes, ct: Bytes)
    requires c.CanSeal()
    ensures OpenStep(c, aad, ct) == RfcOpen(c, aad, ct) <==>
            || c.counter < U64_MAX
            || (&& c.suite.aead.nonceLen == SEQ_LEN
                && c.suite.aead.decrypt(c.key, c.Nonce(c.counter), aad, ct).Some?)
  {
    LimitsCompared(c);
  }
}
