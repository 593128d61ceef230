/** X25519 and X448: clamping of scalars (section 5 of RFC 7748) and the key functions built on it. */
module Montgomery {
  import opened ByteStrings
  import opened Results
  import opened Primitives
  import opened LabeledKdf
  import opened DomainSeparation
  import opened DhKem

  // ---- Clamping ----

  /** Masks for the first octet, for the last one, and the bits then set in the last one. */
  datatype ClampMasks = ClampMasks(low: Byte, top: Byte, bits: Byte)

  const X25519_MASKS := ClampMasks(0xF8, 0x7F, 0x40)
  const X448_MASKS := ClampMasks(0xFC, 0xFF, 0x80)

  function MaskLast(b: Bytes, m: Byte): (r: Bytes)
    requires |b| > 0
    ensures |r| == |b|
  {
    b[|b| - 1 := b[|b| - 1] & m]
  }

  lemma LastOctets(a: Bytes, x: Byte, b: Bytes, y: Byte)
    requires |a| == |b|
    ensures a + [x] == b + [y] <==> a == b && x == y
  {
    if a + [x] == b + [y] {
      SplitHead(a, [x], b, [y]);
      assert [x][0] == [y][0];
    }
  }

  lemma MaskedAlike(a: Bytes, b: Bytes, m: Byte)
    requires |a| == |b| > 0
    ensures MaskLast(a, m) == MaskLast(b, m) <==> a[..|a| - 1] == b[..|b| - 1] && a[|a| - 1] & m == b[|b| - 1] & m
  {
    var n, x, y := |a| - 1, a[|a| - 1] & m, b[|b| - 1] & m;
    assert MaskLast(a, m) == a[..n] + [x] && MaskLast(b, m) == b[..n] + [y];
    LastOctets(a[..n], x, b[..n], y);
  }

  function Clamped(masks: ClampMasks, b: Bytes): (r: Bytes)
    requires |b| >= 2
    ensures |r| == |b|
  {
    b[0 := b[0] & masks.low][|b| - 1 := (b[|b| - 1] & masks.top) | masks.bits]
  }

  /** Clamps in place: bits are cleared at both ends, then one is set in the last octet. */
  method ClampInPlace(masks: ClampMasks, arr: array<Byte>)
    requires arr.Length >= 2
    modifies arr
    ensures arr[..] == Clamped(masks, old(arr[..]))
  {
    var last := arr.Length - 1;
    arr[0] := arr[0] & masks.low;
    arr[last] := arr[last] & masks.top;
    arr[last] := arr[last] | masks.bits;
  }

  function Pow2(n: nat): (p: nat)
    ensures p > 0
  {
    if n == 0 then 1 else 2 * Pow2(n - 1)
  }

  lemma Pow2Step(n: nat)
    ensures Pow2(n + 3) == 8 * Pow2(n) && Pow2(n + 5) == 32 * Pow2(n)
    ensures Pow2(n + 6) == 64 * Pow2(n) && Pow2(n + 7) == 128 * Pow2(n) && Pow2(n + 8) == 256 * Pow2(n)
  {
    assert Pow2(n + 1) == 2 * Pow2(n) && Pow2(n + 2) == 2 * Pow2(n + 1) && Pow2(n + 3) == 2 * Pow2(n + 2);
    assert Pow2(n + 4) == 2 * Pow2(n + 3) && Pow2(n + 5) == 2 * Pow2(n + 4) && Pow2(n + 6) == 2 * Pow2(n + 5);
    assert Pow2(n + 7) == 2 * Pow2(n + 6) && Pow2(n + 8) == 2 * Pow2(n + 7);
  }

  lemma {:induction false} Pow2IsPow256(n: nat)
    ensures Pow2(8 * n) == Pow256(n)
  {
    if n > 0 {
      Pow2IsPow256(n - 1);
      Pow2Step(8 * (n - 1));
    }
  }

  /** The little-endian value of the octets between the first and the last. */
  function Middle(b: Bytes): nat
    requires |b| >= 2
  {
    LittleEndian(b[1..|b| - 1])
  }

  lemma {:induction false} LittleEndianBound(b: Bytes)
    ensures LittleEndian(b) < Pow256(|b|)
  {
    if b != [] {
      LittleEndianBound(b[1..]);
      ByteRoundTrip(b[0]);
    }
  }

  lemma {:induction false} LittleEndianSnoc(b: Bytes, x: Byte)
    ensures LittleEndian(b + [x]) == LittleEndian(b) + Pow256(|b|) * x as int
  {
    if b == [] {
      assert [x][1..] == [];
    } else {
      assert (b + [x])[1..] == b[1..] + [x];
      LittleEndianSnoc(b[1..], x);
      Scale(LittleEndian(b[1..]), Pow256(|b| - 1), x as int);
    }
  }

  lemma LittleEndianSplit(b: Bytes)
    requires |b| >= 2
    ensures LittleEndian(b) == b[0] as int + 256 * Middle(b) + Pow256(|b| - 1) * b[|b| - 1] as int
    ensures Middle(b) < Pow256(|b| - 2)
  {
    var front, last := b[..|b| - 1], b[|b| - 1];
    assert front + [last] == b;
    assert front[1..] == b[1..|b| - 1];
    LittleEndianSnoc(front, last);
    LittleEndianBound(b[1..|b| - 1]);
    assert LittleEndian(front) == front[0] as int + 256 * LittleEndian(front[1..]);
  }

  lemma AddFours(x: nat, z: nat)
    ensures (x + 4 * z) % 4 == x % 4
  {
  }

  lemma AddEights(x: nat, z: nat)
    ensures (x + 8 * z) % 8 == x % 8
  {
  }

  lemma AddMultiple(x: nat, y: nat, m: nat)
    requires m in {4, 8}
    ensures (x + 256 * y) % m == x % m
  {
    if m == 4 {
      AddFours(x, 64 * y);
    } else {
      AddEights(x, 32 * y);
    }
  }

  lemma MulMonotone(r: nat, a: nat, b: nat)
    requires a <= b
    ensures r * a <= r * b
  {
  }

  lemma Window(w: nat, r: nat, t: nat, h: nat)
    requires w < 256 * r && h in {64, 128}
    ensures h <= t < 2 * h <==> h * (256 * r) <= w + 256 * (r * t) < 2 * h * (256 * r)
  {
    if t < h {
      MulMonotone(r, t, h - 1);
    } else if t >= 2 * h {
      MulMonotone(r, 2 * h, t);
    } else {
      MulMonotone(r, h, t);
      MulMonotone(r, t, 2 * h - 1);
    }
  }

  lemma WindowNumber(v: nat, b0: nat, mid: nat, r: nat, t: nat, m: nat, h: nat)
    requires m in {4, 8} && h in {64, 128} && b0 < 256 && mid < r
    requires v == b0 + 256 * mid + (256 * r) * t
    ensures (b0 % m == 0 && h <= t < 2 * h) <==> (v % m == 0 && h * (256 * r) <= v < 2 * h * (256 * r))
  {
    Scale(mid, r, t);
    AddMultiple(b0, mid + r * t, m);
    Window(b0 + 256 * mid, r, t, h);
  }

  /**
   The value of a string whose first octet is a multiple of `m` and whose last lies in [h, 2h): exactly the multiples
   of `m` from h 256^(n-1) up to 2 h 256^(n-1).
   */
  lemma WindowValue(b: Bytes, m: nat, h: nat)
    requires |b| >= 2 && m in {4, 8} && h in {64, 128}
    ensures (b[0] as int % m == 0 && h <= b[|b| - 1] as int < 2 * h) <==>
            (LittleEndian(b) % m == 0 && h * Pow256(|b| - 1) <= LittleEndian(b) < 2 * h * Pow256(|b| - 1))
  {
    LittleEndianSplit(b);
    ByteRoundTrip(b[0]);
    WindowNumber(LittleEndian(b), b[0] as int, Middle(b), Pow256(|b| - 2), b[|b| - 1] as int, m, h);
  }

  lemma ClampedOctets25519(x: Byte)
    ensures (x & 0xF8 == x) <==> x as int % 8 == 0
    ensures ((x & 0x7F) | 0x40 == x) <==> 64 <= x as int < 128
    ensures (x & 0xF8) & 0xF8 == x & 0xF8
    ensures (((x & 0x7F) | 0x40) & 0x7F) | 0x40 == (x & 0x7F) | 0x40
  {
  }

  lemma ClampedOctets448(x: Byte)
    ensures (x & 0xFC == x) <==> x as int % 4 == 0
    ensures ((x & 0xFF) | 0x80 == x) <==> 128 <= x as int < 256
    ensures (x & 0xFC) & 0xFC == x & 0xFC
    ensures (((x & 0xFF) | 0x80) & 0xFF) | 0x80 == (x & 0xFF) | 0x80
  {
  }

  /** Clamping twice is clamping once. */
  lemma ClampIdempotent(masks: ClampMasks, b: Bytes)
    requires masks in {X25519_MASKS, X448_MASKS} && |b| >= 2
    ensures Clamped(masks, Clamped(masks, b)) == Clamped(masks, b)
  {
    ClampedOctets25519(b[0]);
    ClampedOctets25519(b[|b| - 1]);
    ClampedOctets448(b[0]);
    ClampedOctets448(b[|b| - 1]);
  }

  /** A string is unchanged by clamping exactly when its two outer octets are. */
  lemma ClampFixpoint(masks: ClampMasks, b: Bytes)
    requires |b| >= 2
    ensures Clamped(masks, b) == b <==>
            b[0] & masks.low == b[0] && (b[|b| - 1] & masks.top) | masks.bits == b[|b| - 1]
  {
    var r := Clamped(masks, b);
    assert r[0] == b[0] & masks.low;
    assert r[|b| - 1] == (b[|b| - 1] & masks.top) | masks.bits;
  }

  lemma ClampedIffWindow(masks: ClampMasks, b: Bytes)
    requires |b| >= 2 && masks in {X25519_MASKS, X448_MASKS}
    ensures Clamped(masks, b) == b <==>
            if masks == X25519_MASKS then b[0] as int % 8 == 0 && 64 <= b[|b| - 1] as int < 128
            else b[0] as int % 4 == 0 && 128 <= b[|b| - 1] as int < 256
  {
    ClampFixpoint(masks, b);
    if masks == X25519_MASKS {
      ClampedOctets25519(b[0]);
      ClampedOctets25519(b[|b| - 1]);
    } else {
      ClampedOctets448(b[0]);
      ClampedOctets448(b[|b| - 1]);
    }
  }

  lemma RoundDown(x: nat, m: nat)
    requires m in {4, 8}
    ensures m * (x / m) == x - x % m
  {
  }

  lemma Multiples(v: nat, base: nat, m: nat, bound: nat)
    requires m in {4, 8} && base == m * bound
    ensures (v % m == 0 && base <= v < 2 * base) <==> exists k: nat :: k < bound && v == base + m * k
  {
    if v % m == 0 && base <= v < 2 * base {
      var k := v / m - bound;
      RoundDown(v, m);
      assert k < bound && v == base + m * k;
    }
    if m == 4 {
      assert forall k: nat :: (base + 4 * k) % 4 == 0;
    } else {
      assert forall k: nat :: (base + 8 * k) % 8 == 0;
    }
  }

  lemma WindowIsRange(b: Bytes, m: nat, h: nat, base: nat, bound: nat)
    requires |b| >= 2 && m in {4, 8} && h in {64, 128}
    requires base == h * Pow256(|b| - 1) == m * bound
    ensures (b[0] as int % m == 0 && h <= b[|b| - 1] as int < 2 * h) <==>
            exists k: nat :: k < bound && LittleEndian(b) == base + m * k
  {
    WindowValue(b, m, h);
    Multiples(LittleEndian(b), base, m, bound);
  }

  lemma PowersAtLength(n: nat)
    requires n >= 1
    ensures Pow2(8 * n - 5) == 8 * Pow256(n - 1) && Pow2(8 * n - 3) == 32 * Pow256(n - 1)
    ensures Pow2(8 * n - 2) == 64 * Pow256(n - 1) && Pow2(8 * n - 1) == 128 * Pow256(n - 1)
  {
    Pow2IsPow256(n - 1);
    Pow2Step(8 * (n - 1));
  }

  /**
   The strings X25519's clamping fixes are exactly the numbers 2^(8n-2) + 8 k with k < 2^(8n-5); for the curve's 32
   octets, 2^254 + 8 k with k < 2^251.
   */
  lemma X25519ScalarsExactly(b: Bytes)
    requires |b| >= 2
    ensures Clamped(X25519_MASKS, b) == b <==>
            exists k: nat :: k < Pow2(8 * |b| - 5) && LittleEndian(b) == Pow2(8 * |b| - 2) + 8 * k
  {
    ClampedIffWindow(X25519_MASKS, b);
    PowersAtLength(|b|);
    WindowIsRange(b, 8, 64, Pow2(8 * |b| - 2), Pow2(8 * |b| - 5));
  }

  /**
   The strings X448's clamping fixes are exactly the numbers 2^(8n-1) + 4 k with k < 2^(8n-3); for the curve's 56
   octets, 2^447 + 4 k with k < 2^445.
   */
  lemma X448ScalarsExactly(b: Bytes)
    requires |b| >= 2
    ensures Clamped(X448_MASKS, b) == b <==>
            exists k: nat :: k < Pow2(8 * |b| - 3) && LittleEndian(b) == Pow2(8 * |b| - 1) + 4 * k
  {
    ClampedIffWindow(X448_MASKS, b);
    PowersAtLength(|b|);
    WindowIsRange(b, 4, 128, Pow2(8 * |b| - 1), Pow2(8 * |b| - 3));
  }

  // ---- The scalar a clamped string stands for ----

  /** Decoding a scalar as section 5 of RFC 7748 does: below `base`, rounded down to a multiple of `m`, plus `base`. */
  function DecodedScalar(v: nat, base: nat, m: nat): nat
    requires base > 0 && m > 0
  {
    base + m * (v % base / m)
  }

  lemma RoundedDigits(b0: nat, mid: nat, r: nat, u: nat, m: nat, x: nat)
    requires m in {4, 8} && x == b0 + 256 * mid + (256 * r) * u
    ensures m * (x / m) == x - b0 % m
  {
    Scale(mid, r, u);
    AddMultiple(b0, mid + r * u, m);
    RoundDown(x, m);
  }

  lemma Distribute(p: nat, h: nat, u: nat)
    ensures p * (h + u) == h * p + p * u
  {
  }

  lemma DecodedNumber(v: nat, b0: nat, mid: nat, r: nat, p: nat, t: nat, m: nat, h: nat, base: nat)
    requires m in {4, 8} && h in {64, 128} && b0 < 256 && mid < r && p == 256 * r && base == h * p
    requires v == b0 + 256 * mid + p * t
    ensures base > 0
    ensures DecodedScalar(v, base, m) == (b0 - b0 % m) + 256 * mid + p * (h + t % h)
  {
    var u := t % h;
    var x := b0 + 256 * mid + p * u;
    LowPart(b0 + 256 * mid, p, t, u, h, base, v, x);
    RoundedDigits(b0, mid, r, u, m, x);
    Distribute(p, h, u);
  }

  /** The first octet is rounded down to a multiple of `m` and the last put in [h, 2h). */
  predicate Rounded(b: Bytes, c: Bytes, m: nat, h: nat) {
    && |c| == |b| >= 2 && m in {4, 8} && h in {64, 128}
    && c[0] as int == b[0] as int - b[0] as int % m && c[1..|b| - 1] == b[1..|b| - 1]
    && c[|b| - 1] as int == h + b[|b| - 1] as int % h
  }

  lemma DecodedString(b: Bytes, c: Bytes, m: nat, h: nat, base: nat)
    requires Rounded(b, c, m, h) && base == h * Pow256(|b| - 1)
    ensures base > 0 && LittleEndian(c) == DecodedScalar(LittleEndian(b), base, m)
  {
    LittleEndianSplit(b);
    LittleEndianSplit(c);
    ByteRoundTrip(b[0]);
    var b0, t, p, v := b[0] as int, b[|b| - 1] as int, Pow256(|b| - 1), LittleEndian(b);
    DecodedNumber(v, b0, Middle(b), Pow256(|b| - 2), p, t, m, h, base);
  }

  lemma FirstOctetValues(x: Byte)
    ensures (x & 0xF8) as int == x as int - x as int % 8
    ensures (x & 0xFC) as int == x as int - x as int % 4
  {
  }

  lemma LastOctetValue25519(x: Byte)
    ensures ((x & 0x7F) | 0x40) as int == 64 + x as int % 64
  {
  }

  lemma LastOctetValue448(x: Byte)
    ensures ((x & 0xFF) | 0x80) as int == 128 + x as int % 128
  {
  }

  lemma ClampedParts(masks: ClampMasks, b: Bytes)
    requires |b| >= 2 && masks in {X25519_MASKS, X448_MASKS}
    ensures masks == X25519_MASKS ==> Rounded(b, Clamped(masks, b), 8, 64)
    ensures masks == X448_MASKS ==> Rounded(b, Clamped(masks, b), 4, 128)
  {
    FirstOctetValues(b[0]);
    LastOctetValue25519(b[|b| - 1]);
    LastOctetValue448(b[|b| - 1]);
  }

  lemma ClampDecodes(masks: ClampMasks, b: Bytes, m: nat, h: nat, base: nat)
    requires |b| >= 2 && (masks, m, h) in {(X25519_MASKS, 8, 64), (X448_MASKS, 4, 128)}
    requires base == h * Pow256(|b| - 1)
    ensures base > 0 && LittleEndian(Clamped(masks, b)) == DecodedScalar(LittleEndian(b), base, m)
  {
    ClampedParts(masks, b);
    DecodedString(b, Clamped(masks, b), m, h, base);
  }

  lemma X25519ClampTo(b: Bytes, base: nat)
    requires |b| >= 2 && base == Pow2(8 * |b| - 2)
    ensures LittleEndian(Clamped(X25519_MASKS, b)) == DecodedScalar(LittleEndian(b), base, 8)
  {
    PowersAtLength(|b|);
    ClampDecodes(X25519_MASKS, b, 8, 64, base);
  }

  lemma X448ClampTo(b: Bytes, base: nat)
    requires |b| >= 2 && base == Pow2(8 * |b| - 1)
    ensures LittleEndian(Clamped(X448_MASKS, b)) == DecodedScalar(LittleEndian(b), base, 4)
  {
    PowersAtLength(|b|);
    ClampDecodes(X448_MASKS, b, 4, 128, base);
  }

  /** Clamping any string, clamped or not, is decoding its value as RFC 7748 does: decodeScalar25519. */
  lemma X25519ClampDecodes(b: Bytes)
    requires |b| >= 2
    ensures LittleEndian(Clamped(X25519_MASKS, b)) == DecodedScalar(LittleEndian(b), Pow2(8 * |b| - 2), 8)
  {
    X25519ClampTo(b, Pow2(8 * |b| - 2));
  }

  /** The same for X448: decodeScalar448. */
  lemma X448ClampDecodes(b: Bytes)
    requires |b| >= 2
    ensures LittleEndian(Clamped(X448_MASKS, b)) == DecodedScalar(LittleEndian(b), Pow2(8 * |b| - 1), 4)
  {
    X448ClampTo(b, Pow2(8 * |b| - 1));
  }

  lemma LowBits(x: Byte)
    ensures (x & 0x7F) as int == x as int % 128 && x & 0xFF == x
  {
  }

  lemma MaskedParts(b: Bytes)
    requires |b| >= 1
    ensures var front, last := b[..|b| - 1], b[|b| - 1];
            MaskLast(b, 0x7F) == front + [last & 0x7F] && MaskLast(b, 0xFF) == b == front + [last]
  {
    LowBits(b[|b| - 1]);
  }

  lemma LastReduced(front: Bytes, last: Byte, kept: Byte, base: nat)
    requires base == 128 * Pow256(|front|) && kept as int == last as int % 128
    ensures base > 0 && LittleEndian(front + [kept]) == LittleEndian(front + [last]) % base
  {
    LittleEndianSnoc(front, last);
    LittleEndianSnoc(front, kept);
    LittleEndianBound(front);
    var v, w := LittleEndian(front + [last]), LittleEndian(front + [kept]);
    LowPart(LittleEndian(front), Pow256(|front|), last as int, kept as int, 128, base, v, w);
  }

  lemma MaskedTo(b: Bytes, base: nat)
    requires |b| >= 1 && base == 128 * Pow256(|b| - 1)
    ensures base > 0 && LittleEndian(MaskLast(b, 0x7F)) == LittleEndian(b) % base
  {
    var front, last := b[..|b| - 1], b[|b| - 1];
    MaskedParts(b);
    LowBits(last);
    LastReduced(front, last, last & 0x7F, base);
  }

  lemma MaskedBelow(b: Bytes, base: nat)
    requires |b| >= 1 && base == Pow2(8 * |b| - 1)
    ensures LittleEndian(MaskLast(b, 0x7F)) == LittleEndian(b) % base
  {
    PowersAtLength(|b|);
    MaskedTo(b, base);
  }

  /** Masking the last octet of a public key takes its value modulo a power of two: section 5 of RFC 7748. */
  lemma MaskedValue(b: Bytes)
    requires |b| >= 1
    ensures LittleEndian(MaskLast(b, 0x7F)) == LittleEndian(b) % Pow2(8 * |b| - 1)
    ensures MaskLast(b, 0xFF) == b
  {
    MaskedParts(b);
    MaskedBelow(b, Pow2(8 * |b| - 1));
  }

  // ---- The groups ----

  /** X25519 or X448 over uninterpreted ladders. */
  datatype Curve = Curve(
    id: u16,
    kdf: Kdf,
    n: nat,
    masks: ClampMasks,
    pkMask: Byte,           // applied to the last octet of a received public key
    clampsAtUse: bool,      // the ladder clamps its scalar itself
    mulBase: Bytes -> Bytes,
    mul: (Bytes, Bytes) -> Bytes)
  {
    predicate ClampedKey(sk: Bytes) {
      |sk| == n >= 2 && Clamped(masks, sk) == sk
    }

    /** The public key of the all-zero octets once clamped: that of the smallest scalar there is. */
    function SmallestPublicKey(): Bytes
      requires n >= 2
    {
      mulBase(Clamped(masks, Zeros(n)))
    }
  }

  predicate IsX25519(c: Curve) {
    && c.id == 0x0020 && c.kdf.id == 1
    && c.n == 32 && c.masks == X25519_MASKS && c.pkMask == 0x7F && c.clampsAtUse
  }

  predicate IsX448(c: Curve) {
    && c.id == 0x0021 && c.kdf.id == 3
    && c.n == 56 && c.masks == X448_MASKS && c.pkMask == 0xFF && !c.clampsAtUse
  }

  /** The second smallest X25519 scalar. */
  function NextScalar(c: Curve): Bytes
    requires c.n >= 2
  {
    Clamped(c.masks, Zeros(c.n)[0 := 0x08])
  }

  ghost predicate LawfulCurve(c: Curve) {
    && c.kdf.Lawful()
    && (IsX25519(c) || IsX448(c))
    && (forall sk :: |c.mulBase(sk)| == c.n && MaskLast(c.mulBase(sk), c.pkMask) == c.mulBase(sk))
    && (forall sk, pk :: |c.mul(sk, pk)| == c.n)
    && (forall a, b :: c.ClampedKey(a) && c.ClampedKey(b) ==> c.mul(a, c.mulBase(b)) == c.mul(b, c.mulBase(a)))
    // the X25519 crate clamps its scalar on use, and its two smallest scalars have different public keys
    && (c.clampsAtUse ==>
          && (forall sk {:trigger Clamped(c.masks, sk)} :: |sk| == c.n ==>
                c.mulBase(sk) == c.mulBase(Clamped(c.masks, sk)))
          && c.SmallestPublicKey() != c.mulBase(NextScalar(c)))
    // the X448 ladder takes its scalar as it is; zero gives the zero public key, the smallest scalar another
    && (!c.clampsAtUse ==> c.mulBase(Zeros(c.n)) == Zeros(c.n) && c.SmallestPublicKey() != Zeros(c.n))
  }

  /** An integer RFC 7748 names for the curve: 2^254 + 8 k with k < 2^251, or 2^447 + 4 k with k < 2^445. */
  ghost predicate ScalarInRange(c: Curve, sk: Bytes) {
    if IsX25519(c) then exists k: nat :: k < Pow2(251) && LittleEndian(sk) == Pow2(254) + 8 * k
    else exists k: nat :: k < Pow2(445) && LittleEndian(sk) == Pow2(447) + 4 * k
  }

  /** Of the strings of the curve's length, the clamped ones are exactly those. */
  lemma ClampedKeysExactly(c: Curve, sk: Bytes)
    requires (IsX25519(c) || IsX448(c)) && |sk| == c.n
    ensures c.ClampedKey(sk) <==> ScalarInRange(c, sk)
  {
    if IsX25519(c) {
      X25519ScalarsExactly(sk);
    } else {
      X448ScalarsExactly(sk);
    }
  }

  /** The scalar RFC 7748 decodes from the octets, clamped or not. */
  predicate DecodesTo(c: Curve, b: Bytes, sk: Bytes) {
    && |sk| == |b| == c.n
    && LittleEndian(sk) ==
       if IsX25519(c) then DecodedScalar(LittleEndian(b), Pow2(254), 8)
       else DecodedScalar(LittleEndian(b), Pow2(447), 4)
  }

  lemma ClampedDecodes(c: Curve, b: Bytes)
    requires (IsX25519(c) || IsX448(c)) && |b| == c.n
    ensures DecodesTo(c, b, Clamped(c.masks, b))
  {
    if IsX25519(c) {
      X25519ClampDecodes(b);
    } else {
      X448ClampDecodes(b);
    }
  }

  function SkFromBytesSpec(c: Curve, b: Bytes): Result<Bytes> {
    if |b| != c.n || c.n < 2 then Err(InvalidPrivateKey) else Ok(Clamped(c.masks, b))
  }

  function PkFromBytesSpec(c: Curve, b: Bytes): Result<Bytes> {
    if |b| != c.n || c.n == 0 then Err(InvalidPublicKey) else Ok(MaskLast(b, c.pkMask))
  }

  /** Octets parse to one public key exactly when they differ at most in the bits masked off. */
  lemma ReceivedKeysAlikeExactly(c: Curve, a: Bytes, b: Bytes)
    requires |a| == |b| == c.n > 0
    ensures PkFromBytesSpec(c, a) == PkFromBytesSpec(c, b) <==>
            a[..c.n - 1] == b[..c.n - 1] && a[c.n - 1] & c.pkMask == b[c.n - 1] & c.pkMask
  {
    MaskedAlike(a, b, c.pkMask);
  }

  /** DeriveKeyPair of section 7.1.3 of RFC 9180 for these groups, clamped. */
  function DeriveSpec(c: Curve, ikm: Bytes): Bytes
    requires 2 <= c.n < 0x1_0000
    requires c.kdf.Lawful() && c.n <= 255 * c.kdf.hashLen
  {
    var suiteId := KemCaller(c.id).SuiteId();
    var prk := LabeledExtract(c.kdf, [], suiteId, DkpPrk.Text(), ikm);
    Clamped(c.masks, LabeledExpand(c.kdf, prk, suiteId, Sk.Text(), [], c.n))
  }

  method SkFromBytes(c: Curve, b: Bytes) returns (r: Result<Bytes>)
    requires c.n >= 2
    ensures r == SkFromBytesSpec(c, b)
    ensures |b| != c.n ==> r == Err(InvalidPrivateKey)
    ensures |b| == c.n && (IsX25519(c) || IsX448(c)) ==>
              r.Ok? && DecodesTo(c, b, r.value) && c.ClampedKey(r.value) && ScalarInRange(c, r.value)
  {
    if |b| != c.n {
      return Err(InvalidPrivateKey);
    }
    var arr := new Byte[c.n](_ => 0);
    CopyInto(arr, 0, b);
    assert arr[..] == b;
    ClampInPlace(c.masks, arr);
    if IsX25519(c) || IsX448(c) {
      ClampIdempotent(c.masks, b);
      ClampedKeysExactly(c, arr[..]);
      ClampedDecodes(c, b);
    }
    r := Ok(arr[..]);
  }

  method PkFromBytes(c: Curve, b: Bytes) returns (r: Result<Bytes>)
    requires c.n >= 2
    ensures r == PkFromBytesSpec(c, b)
    ensures |b| != c.n ==> r == Err(InvalidPublicKey)
    ensures |b| == c.n && IsX25519(c) ==> r.Ok? && LittleEndian(r.value) == LittleEndian(b) % Pow2(255)
    ensures |b| == c.n && IsX448(c) ==> r == Ok(b)
  {
    if |b| != c.n {
      return Err(InvalidPublicKey);
    }
    var arr := new Byte[c.n](_ => 0);
    CopyInto(arr, 0, b);
    assert arr[..] == b;
    arr[c.n - 1] := arr[c.n - 1] & c.pkMask;
    MaskedValue(b);
    r := Ok(arr[..]);
  }

  /** The group the crate's `DiffieHellman` instance for the curve presents to DHKEM. */
  function GroupOf(c: Curve): Group<Bytes, Bytes>
    requires c.kdf.hashLen < 0x1_0000
  {
    Group(c.id, c.kdf, c.n, c.n, c.n, c.kdf.hashLen,
          c.mul, c.mulBase,
          pk => pk, b => PkFromBytesSpec(c, b),
          sk => sk, b => SkFromBytesSpec(c, b),
          sk => c.ClampedKey(sk),
          sk => Zeros(|sk|))
  }

  /** `generate`, with the octets the random generator filled in as its argument. */
  method Generate(c: Curve, random: Bytes) returns (k: PrivateKey<Bytes>, pk: Bytes)
    requires LawfulCurve(c) && |random| == c.n
    ensures k.sk == Clamped(c.masks, random) && DecodesTo(c, random, k.sk) && ScalarInRange(c, k.sk)
    ensures Paired(GroupOf(c), k, pk)
  {
    var arr := new Byte[c.n](_ => 0);
    CopyInto(arr, 0, random);
    assert arr[..] == random;
    ClampInPlace(c.masks, arr);
    ClampIdempotent(c.masks, random);
    ClampedKeysExactly(c, arr[..]);
    ClampedDecodes(c, random);
    pk := c.mulBase(arr[..]);
    k := FromPair(GroupOf(c), arr[..], pk);
  }

  /** `derive_key_pair`. */
  method DeriveKeyPair(c: Curve, ikm: Bytes) returns (r: Result<(PrivateKey<Bytes>, Bytes)>)
    requires LawfulCurve(c)
    ensures r.Ok? && r.value.0.sk == DeriveSpec(c, ikm) && ScalarInRange(c, r.value.0.sk)
    ensures var prk := c.kdf.extract([], LabeledIkm(KemSuiteId(c.id), DkpPrk.Text(), ikm));
            var raw := c.kdf.expand(prk, LabeledInfo(c.n, KemSuiteId(c.id), Sk.Text(), []), c.n);
            DecodesTo(c, raw, r.value.0.sk)
    ensures Paired(GroupOf(c), r.value.0, r.value.1)
  {
    var suite := KemSuite(c.id);
    var prk := LabeledExtractWhole(c.kdf, [], suite[..], DkpPrk.Text(), ikm);
    ExpandSucceedsExactly(c.kdf, prk, suite[..], Sk.Text(), [], c.n);
    var bytes := LabeledExpandWhole(c.kdf, prk, suite[..], Sk.Text(), [], c.n);
    var arr := new Byte[c.n](_ => 0);
    CopyInto(arr, 0, bytes.value);
    assert arr[..] == bytes.value;
    ClampInPlace(c.masks, arr);
    ClampIdempotent(c.masks, bytes.value);
    ClampedKeysExactly(c, arr[..]);
    ClampedDecodes(c, bytes.value);
    var pk := c.mulBase(arr[..]);
    r := Ok((FromPair(GroupOf(c), arr[..], pk), pk));
  }

  /** The clamping and masking code makes a lawful group of any lawful pair of ladders. */
  lemma MontgomeryGroupLawful(c: Curve)
    requires LawfulCurve(c)
    ensures LawfulGroup(GroupOf(c))
    ensures forall sk, p :: GroupOf(c).dhRaw(sk, p) == c.mul(sk, p) && GroupOf(c).skToPk(sk) == c.mulBase(sk)
  {
    var g := GroupOf(c);
    forall b | g.skFromBytes(b).Ok? ensures |b| == g.nsk && g.validSk(g.skFromBytes(b).value) {
      ClampIdempotent(c.masks, b);
    }
    forall sk | g.validSk(sk)
      ensures g.pkFromBytes(g.pkToBytes(g.skToPk(sk))) == Ok(g.skToPk(sk)) && g.skFromBytes(g.skToBytes(sk)) == Ok(sk)
    {
    }
  }

  /**
   How the group parses octets: of the right length, a public key is the value modulo 2^255 for X25519 and the octets as
   they are for X448, and a private key is the scalar RFC 7748 decodes; of another length, neither.
   */
  lemma GroupParsesExactly(c: Curve, b: Bytes)
    requires LawfulCurve(c)
    ensures var g := GroupOf(c);
            && g.id == c.id && g.kdf == c.kdf && g.npk == g.nsk == g.ndh == c.n
            && (|b| != c.n ==>
                  g.pkFromBytes(b) == Err(InvalidPublicKey) && g.skFromBytes(b) == Err(InvalidPrivateKey))
            && (|b| == c.n ==> g.skFromBytes(b).Ok? && DecodesTo(c, b, g.skFromBytes(b).value))
            && (|b| == c.n && IsX448(c) ==> g.pkFromBytes(b) == Ok(b))
            && (|b| == c.n && IsX25519(c) ==>
                  && g.pkFromBytes(b).Ok? && |g.pkFromBytes(b).value| == 32
                  && LittleEndian(g.pkFromBytes(b).value) == LittleEndian(b) % Pow2(255))
  {
    if |b| == c.n {
      ClampedDecodes(c, b);
      MaskedValue(b);
    }
  }

  /** Loading octets and writing them back is exactly clamping, and loading a written key gives the key back. */
  lemma ReloadIsClamp(c: Curve, b: Bytes, sk: Bytes)
    requires LawfulCurve(c) && |b| == c.n && c.ClampedKey(sk)
    ensures var g := GroupOf(c);
            && g.skFromBytes(b).Ok? && g.skToBytes(g.skFromBytes(b).value) == Clamped(c.masks, b)
            && g.skFromBytes(g.skToBytes(sk)) == Ok(sk)
            && (g.skToBytes(g.skFromBytes(b).value) == b <==> c.ClampedKey(b))
  {
  }

  // ---- Zeroizing ----

  /** After zeroizing, the scalar is one no construction path gives. */
  lemma ZeroScalarIsNotAKey(c: Curve, sk: Bytes)
    requires LawfulCurve(c) && c.ClampedKey(sk)
    ensures !c.ClampedKey(GroupOf(c).scrubbed(sk))
  {
    var z := Zeros(c.n);
    assert (z[c.n - 1] & c.masks.top) | c.masks.bits != 0;
    ClampFixpoint(c.masks, z);
  }

  /**
   The cached public key outlives the X25519 scalar: it is still what the zeroed scalar's public key recomputes to
   exactly when it was the public key of the key loaded from 32 zero octets.  The X25519 crate clamps at use, so the
   zeroed scalar acts as the smallest one.
   */
  lemma X25519CacheAfterZeroizeExactly(c: Curve, k: PrivateKey<Bytes>)
    requires LawfulCurve(c) && IsX25519(c) && CacheValid(GroupOf(c), k)
    ensures PrivateKeyFromBytes(GroupOf(c), Zeros(32)).Ok?
    ensures CacheRight(GroupOf(c), Zeroized(GroupOf(c), k)) <==>
            k.pkBytes == PrivateKeyFromBytes(GroupOf(c), Zeros(32)).value.pkBytes
  {
    assert |k.sk| == c.n;
    assert c.mulBase(Zeros(c.n)) == c.SmallestPublicKey();
  }

  /** The same for X448, whose ladder takes the zeroed scalar as it is: exactly when the public key was all zero. */
  lemma X448CacheAfterZeroizeExactly(c: Curve, k: PrivateKey<Bytes>)
    requires LawfulCurve(c) && IsX448(c) && CacheValid(GroupOf(c), k)
    ensures CacheRight(GroupOf(c), Zeroized(GroupOf(c), k)) <==> k.pkBytes == Zeros(56)
  {
  }

  /** Keys whose cache does go stale, one for each curve, and for X25519 one whose cache does not. */
  lemma StaleCacheExists(c: Curve)
    requires LawfulCurve(c)
    ensures var g := GroupOf(c);
            var smallest, next := FromSk(g, Clamped(c.masks, Zeros(c.n))), FromSk(g, NextScalar(c));
            && CacheValid(g, smallest) && CacheValid(g, next)
            && (IsX25519(c) ==> CacheRight(g, Zeroized(g, smallest)) && !CacheRight(g, Zeroized(g, next)))
            && (IsX448(c) ==> !CacheRight(g, Zeroized(g, smallest)))
  {
    var g := GroupOf(c);
    ClampIdempotent(c.masks, Zeros(c.n));
    ClampIdempotent(c.masks, Zeros(c.n)[0 := 0x08]);
    var smallest, next := FromSk(g, Clamped(c.masks, Zeros(c.n))), FromSk(g, NextScalar(c));
    if IsX25519(c) {
      X25519CacheAfterZeroizeExactly(c, smallest);
      X25519CacheAfterZeroizeExactly(c, next);
    } else {
      X448CacheAfterZeroizeExactly(c, smallest);
    }
  }
}
