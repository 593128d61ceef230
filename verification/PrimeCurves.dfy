/** P-256, P-384, P-521 and secp256k1: key derivation by rejection (section 7.1.3 of RFC 9180), and their groups. */
module PrimeCurves {
  import opened ByteStrings
  import opened Results
  import opened Primitives
  import opened LabeledKdf
  import opened DomainSeparation
  import opened DhKem

  /** A prime-order curve over uninterpreted point arithmetic.  A `Point` is a validated public key. */
  datatype Curve<!Point(==)> = Curve(
    id: u16,
    kdf: Kdf,
    nsk: nat,
    bitmask: Byte,
    order: nat,
    mulBase: nat -> Point,
    mul: (nat, Point) -> Bytes,
    sec1: Point -> Bytes,             // uncompressed encoding
    fromSec1: Bytes -> Option<Point>)
  {
    /** What `SecretKey::from_slice` accepts: the big-endian scalars from 1 to order - 1. */
    predicate Accepts(b: Bytes) {
      0 < OS2IP(b) < order
    }

    function SkFromBytes(b: Bytes): Result<nat> {
      if |b| != nsk || !Accepts(b) then Err(InvalidPrivateKey) else Ok(OS2IP(b))
    }

    function PkFromBytes(b: Bytes): Result<Point> {
      if |b| != 1 + 2 * nsk || b[0] != 0x04 then Err(InvalidPublicKey)
      else match fromSec1(b)
        case None => Err(InvalidPublicKey)
        case Some(p) => Ok(p)
    }
  }

  /** Multiplication commutes, and different scalars have different public keys. */
  ghost predicate LawfulScalars<Point(!new)>(c: Curve<Point>) {
    && (forall a, b :: 0 < a < c.order && 0 < b < c.order ==> c.mul(a, c.mulBase(b)) == c.mul(b, c.mulBase(a)))
    && (forall a, b :: 0 < a < c.order && 0 < b < c.order && c.mulBase(a) == c.mulBase(b) ==> a == b)
  }

  ghost predicate LawfulCurve<Point(!new)>(c: Curve<Point>) {
    && c.kdf.Lawful()
    && 0 < c.nsk <= 255 * c.kdf.hashLen && 2 < c.order <= Pow256(c.nsk) && c.bitmask in {0xFF, 0x01}
    && LawfulScalars(c)
    && (forall a, p :: |c.mul(a, p)| == c.nsk)
    && (forall p :: |c.sec1(p)| == 1 + 2 * c.nsk && c.sec1(p)[0] == 0x04 && c.fromSec1(c.sec1(p)) == Some(p))
    // the decoder takes other forms too; of the uncompressed form it takes the encoding of each point and no more
    && (forall b, p :: |b| == 1 + 2 * c.nsk && b[0] == 0x04 && c.fromSec1(b) == Some(p) ==> c.sec1(p) == b)
  }

  // ---- DeriveKeyPair ----

  function DkpPrkOf<Point>(c: Curve<Point>, ikm: Bytes): Bytes {
    LabeledExtract(c.kdf, [], KemCaller(c.id).SuiteId(), DkpPrk.Text(), ikm)
  }

  /** The candidate of one counter octet: an expansion whose first octet is masked. */
  function CandidateBytes<Point>(c: Curve<Point>, prk: Bytes, counter: nat, n: u16, bitmask: Byte): (b: Bytes)
    requires counter < 256 && 0 < n
    requires c.kdf.Lawful() && n <= 255 * c.kdf.hashLen && |prk| == c.kdf.hashLen
    ensures |b| == n
  {
    var raw := LabeledExpand(c.kdf, prk, KemCaller(c.id).SuiteId(), Candidate.Text(), [ByteOf(counter)], n);
    raw[0 := raw[0] & bitmask]
  }

  /** Some candidate from `counter` on is accepted, `r` is the first of them; or all of them are rejected. */
  function FirstAccepted<Point>(c: Curve<Point>, prk: Bytes, counter: nat, n: u16, bitmask: Byte): (r: Option<nat>)
    requires counter <= 256 && 0 < n
    requires c.kdf.Lawful() && n <= 255 * c.kdf.hashLen && |prk| == c.kdf.hashLen
    ensures r.Some? ==>
              && counter <= r.value < 256
              && c.SkFromBytes(CandidateBytes(c, prk, r.value, n, bitmask)).Ok?
    ensures forall k :: counter <= k < (if r.Some? then r.value else 256) ==>
              c.SkFromBytes(CandidateBytes(c, prk, k, n, bitmask)).Err?
    decreases 256 - counter
  {
    if counter == 256 then None
    else if c.SkFromBytes(CandidateBytes(c, prk, counter, n, bitmask)).Ok? then Some(counter)
    else FirstAccepted(c, prk, counter + 1, n, bitmask)
  }

  /** The body of the loop: one expansion, masked in place. */
  method MaskedCandidate<Point>(c: Curve<Point>, prk: Bytes, counter: nat, n: nat, bitmask: Byte)
    returns (r: Result<Bytes>)
    requires c.kdf.Lawful() && 0 < n && counter < 256 && |prk| == c.kdf.hashLen
    ensures n > 255 * c.kdf.hashLen ==> r == Err(ExportLengthExceeded)
    ensures n <= 255 * c.kdf.hashLen ==> r == Ok(CandidateBytes(c, prk, counter, n, bitmask))
  {
    ExpandSucceedsExactly(c.kdf, prk, KemCaller(c.id).SuiteId(), Candidate.Text(), [ByteOf(counter)], n);
    var suite := KemSuite(c.id);
    var expanded := LabeledExpandWhole(c.kdf, prk, suite[..], Candidate.Text(), [ByteOf(counter)], n);
    if expanded.Err? {
      return expanded;
    }
    var bytes := new Byte[n](_ => 0);
    CopyInto(bytes, 0, expanded.value);
    assert bytes[..] == expanded.value;
    bytes[0] := bytes[0] & bitmask;
    r := Ok(bytes[..]);
  }

  /**
   The loop of section 7.1.3 of RFC 9180, which goes on while the scalar is zero or too large and whose counter may
   reach 256.
   */
  function RfcDeriveLoop<Point>(c: Curve<Point>, prk: Bytes, sk: nat, counter: nat): Result<nat>
    requires counter <= 256 && 0 < c.nsk < 0x1_0000
    requires c.kdf.Lawful() && c.nsk <= 255 * c.kdf.hashLen && |prk| == c.kdf.hashLen
    decreases 257 - counter
  {
    if sk == 0 || sk >= c.order then
      if counter > 255 then Err(DeriveKeyPairError)
      else RfcDeriveLoop(c, prk, OS2IP(CandidateBytes(c, prk, counter, c.nsk, c.bitmask)), counter + 1)
    else Ok(sk)
  }

  /** From any counter on, the RFC's loop returns the scalar of the first accepted candidate, or its error. */
  lemma {:induction false} LoopFindsFirst<Point>(c: Curve<Point>, prk: Bytes, sk: nat, counter: nat)
    requires counter <= 256 && 0 < c.nsk < 0x1_0000
    requires c.kdf.Lawful() && c.nsk <= 255 * c.kdf.hashLen && |prk| == c.kdf.hashLen
    requires sk == 0 || sk >= c.order
    ensures RfcDeriveLoop(c, prk, sk, counter) ==
            match FirstAccepted(c, prk, counter, c.nsk, c.bitmask)
            case None => Err(DeriveKeyPairError)
            case Some(k) => Ok(OS2IP(CandidateBytes(c, prk, k, c.nsk, c.bitmask)))
    decreases 257 - counter
  {
    if counter < 256 {
      var candidate := CandidateBytes(c, prk, counter, c.nsk, c.bitmask);
      if c.SkFromBytes(candidate).Err? {
        LoopFindsFirst(c, prk, OS2IP(candidate), counter + 1);
      }
    }
  }

  // ---- Which candidate, by value ----

  /** The k-th candidate of section 7.1.3 of RFC 9180 as an integer: two KDF calls and the bits the mask keeps. */
  function CandidateNumber<Point>(c: Curve<Point>, ikm: Bytes, k: nat): nat
    requires k < 256 && 0 < c.nsk
  {
    var id := KemSuiteId(c.id);
    var prk := c.kdf.extract([], HPKE_V1 + id + DkpPrk.Text() + ikm);
    var raw := c.kdf.expand(prk, I2OSP(c.nsk, 2) + HPKE_V1 + id + Candidate.Text() + [k as Byte], c.nsk);
    OS2IP(raw) % ((c.bitmask as int + 1) * Pow256(c.nsk - 1))
  }

  predicate Acceptable<Point>(c: Curve<Point>, ikm: Bytes, k: nat)
    requires k < 256 && 0 < c.nsk
  {
    0 < CandidateNumber(c, ikm, k) < c.order
  }

  /** The first acceptable candidate has number `k`. */
  predicate FirstAcceptable<Point>(c: Curve<Point>, ikm: Bytes, k: nat)
    requires 0 < c.nsk
  {
    k < 256 && Acceptable(c, ikm, k) && forall j: nat :: j < k ==> !Acceptable(c, ikm, j)
  }

  lemma MaskedByte(b: Byte, m: Byte)
    requires m in {0xFF, 0x01}
    ensures (b & m) as int == b as int % (m as int + 1)
  {
  }

  lemma HeadReduced(raw: Bytes, masked: Bytes, h: nat, base: nat)
    requires |masked| == |raw| > 0 && h > 0 && base == h * Pow256(|raw| - 1)
    requires masked[1..] == raw[1..] && masked[0] as int == raw[0] as int % h
    ensures base > 0 && OS2IP(masked) == OS2IP(raw) % base
  {
    var rest := raw[1..];
    OS2IPHead(raw);
    OS2IPHead(masked);
    OS2IPRoundTrip(rest);
    LowPart(OS2IP(rest), Pow256(|rest|), raw[0] as int, masked[0] as int, h, base, OS2IP(raw), OS2IP(masked));
  }

  lemma MaskedNumber(raw: Bytes, m: Byte, base: nat)
    requires raw != [] && m in {0xFF, 0x01} && base == (m as int + 1) * Pow256(|raw| - 1)
    ensures base > 0 && OS2IP(raw[0 := raw[0] & m]) == OS2IP(raw) % base
  {
    MaskedByte(raw[0], m);
    HeadReduced(raw, raw[0 := raw[0] & m], m as int + 1, base);
  }

  /** Masking the first octet of an expansion reduces it modulo a power of two; the octets are those of its value. */
  lemma CandidateByValue<Point(!new)>(c: Curve<Point>, ikm: Bytes, k: nat)
    requires LawfulCurve(c) && k < 256
    ensures OS2IP(CandidateBytes(c, DkpPrkOf(c, ikm), k, c.nsk, c.bitmask)) == CandidateNumber(c, ikm, k)
    ensures c.SkFromBytes(CandidateBytes(c, DkpPrkOf(c, ikm), k, c.nsk, c.bitmask)).Ok? <==> Acceptable(c, ikm, k)
  {
    var prk := DkpPrkOf(c, ikm);
    var raw := LabeledExpand(c.kdf, prk, KemCaller(c.id).SuiteId(), Candidate.Text(), [ByteOf(k)], c.nsk);
    MaskedNumber(raw, c.bitmask, (c.bitmask as int + 1) * Pow256(c.nsk - 1));
  }

  /** The search and the RFC's loop find the first acceptable candidate, and fail exactly when there is none. */
  lemma DerivesFirstAcceptable<Point(!new)>(c: Curve<Point>, ikm: Bytes)
    requires LawfulCurve(c)
    ensures var r := FirstAccepted(c, DkpPrkOf(c, ikm), 0, c.nsk, c.bitmask);
            && (r.None? <==> forall k: nat :: k < 256 ==> !Acceptable(c, ikm, k))
            && (r.Some? ==>
                  && FirstAcceptable(c, ikm, r.value)
                  && OS2IP(CandidateBytes(c, DkpPrkOf(c, ikm), r.value, c.nsk, c.bitmask)) ==
                     CandidateNumber(c, ikm, r.value))
    ensures var r := RfcDeriveLoop(c, DkpPrkOf(c, ikm), 0, 0);
            && (r.Err? <==> forall k: nat :: k < 256 ==> !Acceptable(c, ikm, k))
            && (r.Err? ==> r.error == DeriveKeyPairError)
            && (r.Ok? ==> exists k: nat :: FirstAcceptable(c, ikm, k) && r.value == CandidateNumber(c, ikm, k))
  {
    LoopFindsFirst(c, DkpPrkOf(c, ikm), 0, 0);
    forall k: nat | k < 256
      ensures c.SkFromBytes(CandidateBytes(c, DkpPrkOf(c, ikm), k, c.nsk, c.bitmask)).Ok? <==> Acceptable(c, ikm, k)
    {
      CandidateByValue(c, ikm, k);
    }
    var found := FirstAccepted(c, DkpPrkOf(c, ikm), 0, c.nsk, c.bitmask);
    if found.Some? {
      CandidateByValue(c, ikm, found.value);
      assert FirstAcceptable(c, ikm, found.value);
    }
  }

  /**
   `derive_p_curve_sk`: the masked candidate of the least counter whose octets `sk_from_bytes` accepts; the
   derivation error exactly when all 256 are rejected; the length error exactly when the expansion is too long.
   */
  method DerivePCurveSk<Point(!new)>(c: Curve<Point>, ikm: Bytes, n: nat, bitmask: Byte) returns (r: Result<Bytes>)
    requires c.kdf.Lawful() && 0 < n
    ensures r == Err(ExportLengthExceeded) <==> n > 255 * c.kdf.hashLen
    ensures n <= 255 * c.kdf.hashLen ==>
              match FirstAccepted(c, DkpPrkOf(c, ikm), 0, n, bitmask)
              case None => r == Err(DeriveKeyPairError)
              case Some(k) => r == Ok(CandidateBytes(c, DkpPrkOf(c, ikm), k, n, bitmask))
    ensures LawfulCurve(c) && n == c.nsk && bitmask == c.bitmask ==>
              && (r.Err? <==> forall k: nat :: k < 256 ==> !Acceptable(c, ikm, k))
              && (r.Ok? ==> exists k: nat :: FirstAcceptable(c, ikm, k) && OS2IP(r.value) == CandidateNumber(c, ikm, k))
  {
    if LawfulCurve(c) {
      DerivesFirstAcceptable(c, ikm);
    }
    var suite := KemSuite(c.id);
    var prk := LabeledExtractWhole(c.kdf, [], suite[..], DkpPrk.Text(), ikm);
    for counter := 0 to 256
      invariant counter > 0 ==> n <= 255 * c.kdf.hashLen
      invariant n <= 255 * c.kdf.hashLen ==>
                  FirstAccepted(c, prk, 0, n, bitmask) == FirstAccepted(c, prk, counter, n, bitmask)
    {
      var candidate := MaskedCandidate(c, prk, counter, n, bitmask);
      if candidate.Err? {
        return candidate;
      }
      if c.SkFromBytes(candidate.value).Ok? {
        return candidate;
      }
    }
    r := Err(DeriveKeyPairError);
  }

  // ---- The groups ----

  function GroupOf<Point>(c: Curve<Point>): Group<nat, Point>
    requires c.kdf.hashLen < 0x1_0000
  {
    Group(c.id, c.kdf, 1 + 2 * c.nsk, c.nsk, c.nsk, c.kdf.hashLen,
          c.mul, c.mulBase,
          c.sec1, b => c.PkFromBytes(b),
          sk => I2OSP(sk, c.nsk), b => c.SkFromBytes(b),
          sk => 0 < sk < c.order,
          sk => 1)
  }

  /** `generate`, with the random scalar as its argument. */
  method Generate<Point(!new)>(c: Curve<Point>, random: nat) returns (k: PrivateKey<nat>, pk: Point)
    requires LawfulCurve(c) && 0 < random < c.order
    ensures k.sk == random
    ensures Paired(GroupOf(c), k, pk)
  {
    pk := c.mulBase(random);
    k := FromPair(GroupOf(c), random, pk);
  }

  /** The second half of `derive`: `from_slice`, with its error, and the public key. */
  function PairFromBytes<Point>(c: Curve<Point>, b: Bytes): Result<(PrivateKey<nat>, Point)>
    requires c.kdf.hashLen < 0x1_0000
  {
    var sk :- c.SkFromBytes(b);
    var pk := c.mulBase(sk);
    Ok((FromPair(GroupOf(c), sk, pk), pk))
  }

  /** `derive_key_pair`: the RFC's scalar, whose octets the code parses a second time, and its public key. */
  method DeriveKeyPair<Point(!new)>(c: Curve<Point>, ikm: Bytes) returns (r: Result<(PrivateKey<nat>, Point)>)
    requires LawfulCurve(c)
    ensures (if r.Ok? then Ok(r.value.0.sk) else Err(r.error)) == RfcDeriveLoop(c, DkpPrkOf(c, ikm), 0, 0)
    ensures r.Ok? ==> Paired(GroupOf(c), r.value.0, r.value.1)
    ensures r.Err? ==> r.error == DeriveKeyPairError
    ensures r.Err? <==> forall k: nat :: k < 256 ==> !Acceptable(c, ikm, k)
    ensures r.Ok? ==> exists k: nat :: FirstAcceptable(c, ikm, k) && r.value.0.sk == CandidateNumber(c, ikm, k)
  {
    DerivesFirstAcceptable(c, ikm);
    var bytes := DerivePCurveSk(c, ikm, c.nsk, c.bitmask);
    LoopFindsFirst(c, DkpPrkOf(c, ikm), 0, 0);
    if bytes.Err? {
      return Err(bytes.error);
    }
    r := PairFromBytes(c, bytes.value);
  }

  /** The length, tag and range checks make a lawful group of any lawful curve. */
  lemma PrimeGroupLawful<Point(!new)>(c: Curve<Point>)
    requires LawfulCurve(c)
    ensures LawfulGroup(GroupOf(c))
    ensures GroupOf(c).id == c.id && GroupOf(c).kdf == c.kdf && GroupOf(c).nsk == GroupOf(c).ndh == c.nsk
    ensures forall sk, p :: GroupOf(c).dhRaw(sk, p) == c.mul(sk, p) && GroupOf(c).skToPk(sk) == c.mulBase(sk)
  {
    var g := GroupOf(c);
    forall sk: nat | g.validSk(sk)
      ensures g.skFromBytes(g.skToBytes(sk)) == Ok(sk) && |g.skToBytes(sk)| == g.nsk
    {
      I2OSPRoundTrip(sk, c.nsk);
    }
  }

  /**
   A received public key is accepted exactly when its octets are the uncompressed encoding of a point, and is then
   written back unchanged.
   */
  lemma ReceivedPointsExactly<Point(!new)>(c: Curve<Point>, b: Bytes)
    requires LawfulCurve(c)
    ensures var r := GroupOf(c).pkFromBytes(b);
            && (r.Ok? <==> exists p :: b == c.sec1(p))
            && (r.Ok? ==> GroupOf(c).pkToBytes(r.value) == b)
            && (r.Err? ==> r.error == InvalidPublicKey)
  {
  }

  /** Octets that load as a key are written back unchanged, and octets load exactly when they encode 1 to order - 1. */
  lemma LoadedKeyWritesBack<Point(!new)>(c: Curve<Point>, b: Bytes)
    requires LawfulCurve(c)
    ensures var g := GroupOf(c);
            && (g.skFromBytes(b).Ok? <==> exists sk: nat :: 0 < sk < c.order && b == I2OSP(sk, c.nsk))
            && (g.skFromBytes(b).Ok? ==> g.skToBytes(g.skFromBytes(b).value) == b)
            && (g.skFromBytes(b).Err? ==> g.skFromBytes(b).error == InvalidPrivateKey)
  {
    OS2IPRoundTrip(b);
    if exists sk: nat :: 0 < sk < c.order && b == I2OSP(sk, c.nsk) {
      var sk: nat :| 0 < sk < c.order && b == I2OSP(sk, c.nsk);
      I2OSPRoundTrip(sk, c.nsk);
    }
  }

  /** Zeroizing replaces the scalar by 1: still a key, and the cached public key is right exactly if it was 1 before. */
  lemma CacheAfterZeroizeExactly<Point(!new)>(c: Curve<Point>, k: PrivateKey<nat>)
    requires LawfulCurve(c) && CacheValid(GroupOf(c), k)
    ensures CacheRight(GroupOf(c), Zeroized(GroupOf(c), k)) <==> k.sk == 1
  {
    var a, b := c.mulBase(1), c.mulBase(k.sk);
    assert c.fromSec1(c.sec1(a)) == Some(a) && c.fromSec1(c.sec1(b)) == Some(b);
  }

  /** The scalar 2 gives a key whose cache goes stale. */
  lemma StaleCacheExists<Point(!new)>(c: Curve<Point>)
    requires LawfulCurve(c)
    ensures var g := GroupOf(c);
            CacheValid(g, FromSk(g, 2)) && !CacheRight(g, Zeroized(g, FromSk(g, 2)))
  {
    CacheAfterZeroizeExactly(c, FromSk(GroupOf(c), 2));
  }
}
