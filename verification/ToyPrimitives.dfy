/**
 Records that satisfy every law the proofs assume, so the laws do not contradict each other.  Diffie-Hellman is modular
 exponentiation; the other primitives are the simplest functions with the right lengths.  Nothing else depends on this.
 */
module ToyPrimitives {
  import opened ByteStrings
  import opened Results
  import opened Primitives
  import M = Montgomery
  import P = PrimeCurves
  import PQ = PostQuantum
  import D = DhKem

  // 2 generates the subgroup of order 11 modulo 23
  const PRIME: nat := 23
  const ORDER: nat := 11

  function PowMod(x: nat, n: nat): (r: nat)
    ensures r < PRIME
  {
    if n == 0 then 1 else x * PowMod(x, n - 1) % PRIME
  }

  lemma AddPrimes(a: nat, k: nat)
    ensures (a + PRIME * k) % PRIME == a % PRIME
  {
  }

  lemma ModOfProduct(x: nat, y: nat)
    ensures x * (y % PRIME) % PRIME == x * y % PRIME
  {
    var q, r := y / PRIME, y % PRIME;
    assert y == PRIME * q + r;
    assert x * y == x * r + PRIME * (x * q);
    AddPrimes(x * r, x * q);
  }

  lemma Regroup(x: nat, a: nat, b: nat)
    ensures x * (a * b % PRIME) % PRIME == (x * a % PRIME) * b % PRIME
  {
    ModOfProduct(x, a * b);
    ModOfProduct(b, x * a);
    assert (x * a % PRIME) * b == b * (x * a % PRIME);
    assert x * (a * b) == b * (x * a);
  }

  lemma {:induction false} PowModSum(x: nat, m: nat, n: nat)
    ensures PowMod(x, m + n) == PowMod(x, m) * PowMod(x, n) % PRIME
  {
    if m > 0 {
      PowModSum(x, m - 1, n);
      Regroup(x, PowMod(x, m - 1), PowMod(x, n));
    }
  }

  lemma {:induction false} PowModProduct(x: nat, m: nat, n: nat)
    ensures PowMod(PowMod(x, m), n) == PowMod(x, m * n)
  {
    if n > 0 {
      PowModProduct(x, m, n - 1);
      PowModSum(x, m, m * (n - 1));
      assert m + m * (n - 1) == m * n;
    }
  }

  /** (x^m)^n == (x^n)^m modulo the prime. */
  lemma ExponentsCommute(x: nat, m: nat, n: nat)
    ensures PowMod(PowMod(x, m), n) == PowMod(PowMod(x, n), m)
  {
    PowModProduct(x, m, n);
    PowModProduct(x, n, m);
    assert m * n == n * m;
  }

  const POWERS_OF_TWO: seq<nat> := [1, 2, 4, 8, 16, 9, 18, 13, 3, 6, 12]

  lemma NextPower(n: nat)
    requires 0 < n < ORDER
    ensures POWERS_OF_TWO[n] == 2 * POWERS_OF_TWO[n - 1] % PRIME
  {
  }

  lemma {:induction false} PowerTable(n: nat)
    requires n < ORDER
    ensures PowMod(2, n) == POWERS_OF_TWO[n]
  {
    if n > 0 {
      PowerTable(n - 1);
      NextPower(n);
    }
  }

  lemma PowersDiffer(m: nat, n: nat)
    requires m < ORDER && n < ORDER && PowMod(2, m) == PowMod(2, n)
    ensures m == n
  {
    PowerTable(m);
    PowerTable(n);
  }

  function ToyKdf(): Kdf {
    Kdf(1, 32, (salt, ikm) => Zeros(32), (prk, info, n: nat) => Zeros(n))
  }

  function ToyKdf512(): Kdf {
    Kdf(3, 64, (salt, ikm) => Zeros(64), (prk, info, n: nat) => Zeros(n))
  }

  function ToyAead(): Aead {
    Aead(3, 32, 12,
         (key, nonce, aad, pt) => Some(pt + Zeros(16)),
         (key, nonce, aad, ct) => if |ct| < 16 then None else Some(ct[..|ct| - 16]))
  }

  function ExportOnly(): Aead {
    Aead(0xFFFF, 0, 0, (key, nonce, aad, pt) => None, (key, nonce, aad, ct) => None)
  }

  /** The exponent a scalar stands for: its first octet, clamped. */
  function ToyExponent(sk: Bytes): nat {
    if |sk| == 0 then 0 else (sk[0] & 0xF8) as nat
  }

  lemma {:induction false} PowerNotZero(n: nat)
    ensures PowMod(2, n) != 0
  {
    if n > 0 {
      PowerNotZero(n - 1);
    }
  }

  function ToyPublicKey(power: nat): (pk: Bytes)
    requires power < PRIME
    ensures |pk| == 32
  {
    [ByteOf(power)] + Zeros(31)
  }

  function ToyLadder(): M.Curve {
    M.Curve(0x0020, ToyKdf(), 32, M.X25519_MASKS, 0x7F, true,
            sk => ToyPublicKey(PowMod(2, ToyExponent(sk))),
            (sk, pk) => ToyPublicKey(PowMod(if |pk| == 0 then 0 else pk[0] as nat, ToyExponent(sk))))
  }

  /** The X448 counterpart, which does not clamp: the zero scalar gives the zero public key. */
  function ToyLadder448(): M.Curve {
    M.Curve(0x0021, ToyKdf512(), 56, M.X448_MASKS, 0xFF, false,
            sk => if sk == Zeros(56) then Zeros(56) else ToyPublicKey(PowMod(2, ToyExponent(sk))) + Zeros(24),
            (sk, pk) => ToyPublicKey(PowMod(if |pk| == 0 then 0 else pk[0] as nat, ToyExponent(sk))) + Zeros(24))
  }

  /** Points are single octets, the residues among them being the group. */
  function ToyPrimeCurve(): P.Curve<Byte> {
    P.Curve(0x0010, ToyKdf(), 32, 0xFF, ORDER,
            (sk: nat) => ByteOf(PowMod(2, sk)),
            (sk: nat, point) => I2OSP(PowMod(point as nat, sk), 32),
            point => [0x04] + Zeros(63) + [point],
            b => if |b| != 65 || b[..64] != [0x04] + Zeros(63) then None else Some(b[64]))
  }

  function ToyScheme(): PQ.Scheme<Byte, Byte> {
    PQ.Scheme(0x647A, 32, 1120, 1216,
              (x, n: nat) => Zeros(n),
              seed => if |seed| == 0 then 0 else seed[0],
              dk => dk,
              ek => [ek] + Zeros(1215),
              b => if |b| == 0 then None else Some(b[0]),
              (random, ek) => (Zeros(1120), [ek] + Zeros(31)),
              (dk, ct) => [dk] + Zeros(31))
  }

  lemma ToySuitesLawful()
    ensures Suite(0x0020, ToyKdf(), ToyAead()).Lawful()
    ensures Suite(0x0020, ToyKdf(), ExportOnly()).Lawful()
  {
    forall pt: Bytes ensures (pt + Zeros(16))[..|pt + Zeros(16)| - 16] == pt {
    }
  }

  lemma ToyLadderCommutes(a: Bytes, b: Bytes)
    ensures ToyLadder().mul(a, ToyLadder().mulBase(b)) == ToyLadder().mul(b, ToyLadder().mulBase(a))
  {
    ByteOfIsExact(PowMod(2, ToyExponent(a)));
    ByteOfIsExact(PowMod(2, ToyExponent(b)));
    ExponentsCommute(2, ToyExponent(a), ToyExponent(b));
  }

  lemma ToyExponentIsClamped(sk: Bytes)
    requires |sk| == 32
    ensures ToyExponent(M.Clamped(M.X25519_MASKS, sk)) == ToyExponent(sk)
  {
    var x := sk[0];
    assert (x & 0xF8) & 0xF8 == x & 0xF8;
    assert M.Clamped(M.X25519_MASKS, sk)[0] == x & 0xF8;
  }

  lemma ToyPublicKeyCanonical(power: nat)
    requires power < PRIME
    ensures M.MaskLast(ToyPublicKey(power), 0x7F) == ToyPublicKey(power)
  {
    var pk := ToyPublicKey(power);
    assert pk[31] == 0 && pk[31] & 0x7F == pk[31];
  }

  /** 2^0 is 1 and 2^8 is 3. */
  lemma ToyScalarsDiffer()
    ensures ToyLadder().SmallestPublicKey() != ToyLadder().mulBase(M.NextScalar(ToyLadder()))
  {
    ToyExponentIsClamped(Zeros(32));
    ToyExponentIsClamped(Zeros(32)[0 := 0x08]);
    PowerTable(0);
    PowerTable(8);
    ByteOfIsExact(1);
    ByteOfIsExact(3);
    assert ToyPublicKey(1)[0] != ToyPublicKey(3)[0];
  }

  lemma ToyLadderLawful()
    ensures M.LawfulCurve(ToyLadder())
  {
    var c := ToyLadder();
    forall a, b | c.ClampedKey(a) && c.ClampedKey(b) ensures c.mul(a, c.mulBase(b)) == c.mul(b, c.mulBase(a)) {
      ToyLadderCommutes(a, b);
    }
    forall sk ensures |c.mulBase(sk)| == c.n && M.MaskLast(c.mulBase(sk), c.pkMask) == c.mulBase(sk) {
      ToyPublicKeyCanonical(PowMod(2, ToyExponent(sk)));
    }
    forall sk: Bytes {:trigger M.Clamped(c.masks, sk)} | |sk| == c.n
      ensures c.mulBase(sk) == c.mulBase(M.Clamped(c.masks, sk))
    {
      ToyExponentIsClamped(sk);
    }
    ToyScalarsDiffer();
  }

  lemma ToyKeyIsNotZero(sk: Bytes)
    requires ToyLadder448().ClampedKey(sk)
    ensures sk != Zeros(56)
  {
    M.ClampFixpoint(M.X448_MASKS, sk);
    M.ClampedOctets448(sk[55]);
  }

  lemma ToyLadder448Commutes(a: Bytes, b: Bytes)
    requires ToyLadder448().ClampedKey(a) && ToyLadder448().ClampedKey(b)
    ensures ToyLadder448().mul(a, ToyLadder448().mulBase(b)) == ToyLadder448().mul(b, ToyLadder448().mulBase(a))
  {
    ToyKeyIsNotZero(a);
    ToyKeyIsNotZero(b);
    ByteOfIsExact(PowMod(2, ToyExponent(a)));
    ByteOfIsExact(PowMod(2, ToyExponent(b)));
    ExponentsCommute(2, ToyExponent(a), ToyExponent(b));
  }

  lemma ToyPublicKey448Canonical(sk: Bytes)
    ensures M.MaskLast(ToyLadder448().mulBase(sk), 0xFF) == ToyLadder448().mulBase(sk)
  {
    var pk := ToyLadder448().mulBase(sk);
    assert pk[55] == 0 && pk[55] & 0xFF == pk[55];
  }

  lemma ToySmallest448NotZero()
    ensures ToyLadder448().SmallestPublicKey() != Zeros(56)
  {
    var sk := M.Clamped(M.X448_MASKS, Zeros(56));
    M.ClampIdempotent(M.X448_MASKS, Zeros(56));
    ToyKeyIsNotZero(sk);
    PowerNotZero(ToyExponent(sk));
    ByteOfIsExact(PowMod(2, ToyExponent(sk)));
    assert ToyLadder448().mulBase(sk)[0] as int == PowMod(2, ToyExponent(sk));
  }

  lemma ToyLadder448Lawful()
    ensures M.LawfulCurve(ToyLadder448())
  {
    var c := ToyLadder448();
    forall a, b | c.ClampedKey(a) && c.ClampedKey(b) ensures c.mul(a, c.mulBase(b)) == c.mul(b, c.mulBase(a)) {
      ToyLadder448Commutes(a, b);
    }
    forall sk ensures |c.mulBase(sk)| == c.n && M.MaskLast(c.mulBase(sk), c.pkMask) == c.mulBase(sk) {
      ToyPublicKey448Canonical(sk);
    }
    ToySmallest448NotZero();
  }

  lemma ToyCurveCommutes(a: nat, b: nat)
    ensures ToyPrimeCurve().mul(a, ToyPrimeCurve().mulBase(b)) == ToyPrimeCurve().mul(b, ToyPrimeCurve().mulBase(a))
  {
    ByteOfIsExact(PowMod(2, a));
    ByteOfIsExact(PowMod(2, b));
    ExponentsCommute(2, a, b);
  }

  lemma ToyPublicKeysDiffer(a: nat, b: nat)
    requires 0 < a < ORDER && 0 < b < ORDER && ToyPrimeCurve().mulBase(a) == ToyPrimeCurve().mulBase(b)
    ensures a == b
  {
    ByteOfIsExact(PowMod(2, a));
    ByteOfIsExact(PowMod(2, b));
    PowersDiffer(a, b);
  }

  lemma ToyEncodingRoundTrips(p: Byte)
    ensures var c := ToyPrimeCurve(); |c.sec1(p)| == 65 && c.sec1(p)[0] == 0x04 && c.fromSec1(c.sec1(p)) == Some(p)
  {
  }

  lemma ToyProductsSized(a: nat, p: Byte)
    ensures |ToyPrimeCurve().mul(a, p)| == 32
  {
  }

  lemma OrderFits()
    ensures 2 < ORDER <= Pow256(32)
  {
    assert Pow256(32) == 256 * Pow256(31);
  }

  lemma ToyDecodingCanonical(b: Bytes, p: Byte)
    requires |b| == 65 && ToyPrimeCurve().fromSec1(b) == Some(p)
    ensures ToyPrimeCurve().sec1(p) == b
  {
    assert b == b[..64] + [b[64]];
  }

  lemma ToyScalarsLawful()
    ensures P.LawfulScalars(ToyPrimeCurve())
  {
    var c := ToyPrimeCurve();
    forall a: nat, b: nat ensures c.mul(a, c.mulBase(b)) == c.mul(b, c.mulBase(a)) {
      ToyCurveCommutes(a, b);
    }
    forall a: nat, b: nat | 0 < a < c.order && 0 < b < c.order && c.mulBase(a) == c.mulBase(b) ensures a == b {
      ToyPublicKeysDiffer(a, b);
    }
  }

  lemma ToyPrimeCurveLawful()
    ensures P.LawfulCurve(ToyPrimeCurve())
  {
    var c := ToyPrimeCurve();
    OrderFits();
    ToyScalarsLawful();
    forall a: nat, p ensures |c.mul(a, p)| == 32 {
      ToyProductsSized(a, p);
    }
    forall p ensures |c.sec1(p)| == 65 && c.sec1(p)[0] == 0x04 && c.fromSec1(c.sec1(p)) == Some(p) {
      ToyEncodingRoundTrips(p);
    }
    forall b, p | |b| == 65 && c.fromSec1(b) == Some(p) ensures c.sec1(p) == b {
      ToyDecodingCanonical(b, p);
    }
  }

  lemma ToyGroupsLawful()
    ensures D.LawfulGroup(M.GroupOf(ToyLadder())) && D.LawfulGroup(M.GroupOf(ToyLadder448()))
    ensures D.LawfulGroup(P.GroupOf(ToyPrimeCurve()))
  {
    ToyLadderLawful();
    M.MontgomeryGroupLawful(ToyLadder());
    ToyLadder448Lawful();
    M.MontgomeryGroupLawful(ToyLadder448());
    ToyPrimeCurveLawful();
    P.PrimeGroupLawful(ToyPrimeCurve());
  }

  lemma ToySchemeLawful()
    ensures PQ.LawfulScheme(ToyScheme())
  {
  }
}
