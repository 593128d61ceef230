/** Octet strings: the integer encodings and concatenation facts the protocol rests on. */
module ByteStrings {
  type Byte = bv8
  type Bytes = seq<Byte>
  type u16 = n: int | 0 <= n < 0x1_0000
  type u64 = n: int | 0 <= n < 0x1_0000_0000_0000_0000

  const U64_MAX: u64 := 0xFFFF_FFFF_FFFF_FFFF

  // ---- Concatenation ----

  function Concat(pieces: seq<Bytes>): Bytes {
    if pieces == [] then [] else pieces[0] + Concat(pieces[1..])
  }

  lemma {:induction false} ConcatAppend(a: seq<Bytes>, b: seq<Bytes>)
    ensures Concat(a + b) == Concat(a) + Concat(b)
  {
    if a == [] {
      assert a + b == b;
    } else {
      assert (a + b)[1..] == a[1..] + b;
      ConcatAppend(a[1..], b);
    }
  }

  lemma ConcatSnoc(a: seq<Bytes>, p: Bytes)
    ensures Concat(a + [p]) == Concat(a) + p
  {
    ConcatAppend(a, [p]);
    assert Concat([p]) == p;
  }

  lemma ConcatTwo(a: Bytes, b: Bytes)
    ensures Concat([a, b]) == a + b
  {
    assert [a, b] == [a] + [b];
    ConcatSnoc([a], b);
  }

  lemma ConcatThree(a: Bytes, b: Bytes, c: Bytes)
    ensures Concat([a, b, c]) == a + b + c
  {
    ConcatTwo(a, b);
    assert [a, b, c] == [a, b] + [c];
    ConcatSnoc([a, b], c);
  }

  lemma ConcatFour(a: Bytes, b: Bytes, c: Bytes, d: Bytes)
    ensures Concat([a, b, c, d]) == a + b + c + d
  {
    ConcatThree(a, b, c);
    assert [a, b, c, d] == [a, b, c] + [d];
    ConcatSnoc([a, b, c], d);
  }

  /** Equal concatenations whose heads have equal length agree piece by piece. */
  lemma SplitHead(a: Bytes, x: Bytes, b: Bytes, y: Bytes)
    requires |a| == |b| && a + x == b + y
    ensures a == b && x == y
  {
    assert a == (a + x)[..|a|] == (b + y)[..|b|] == b;
    assert x == (a + x)[|a|..] == (b + y)[|b|..] == y;
  }

  lemma SplitTail(a: Bytes, x: Bytes, b: Bytes, y: Bytes)
    requires |x| == |y| && a + x == b + y
    ensures a == b && x == y
  {
    assert |a + x| == |b + y|;
    SplitHead(a, x, b, y);
  }

  /** The octets are the characters of a text. */
  predicate Spells(b: Bytes, text: string) {
    |b| == |text| && forall i :: 0 <= i < |text| ==> b[i] as int == text[i] as int
  }

  function Zeros(n: nat): (z: Bytes)
    ensures |z| == n && forall i :: 0 <= i < n ==> z[i] == 0
  {
    seq(n, i => 0)
  }

  // ---- Integers as octet strings ----

  function ByteOf(n: nat): Byte
    requires n < 256
  {
    n as Byte
  }

  lemma SuccessorByte(b: Byte)
    requires b != 255
    ensures (b + 1) as int == b as int + 1
  {
  }

  lemma ByteRoundTrip(b: Byte)
    ensures b as int < 256
    ensures ByteOf(b as int) == b
  {
  }

  lemma {:induction false} ByteOfIsExact(n: nat)
    requires n < 256
    ensures ByteOf(n) as int == n
  {
    if n > 0 {
      ByteOfIsExact(n - 1);
      var b := ByteOf(n - 1);
      assert b != 255;
      SuccessorByte(b);
      ByteRoundTrip(b + 1);
    }
  }

  function Pow256(n: nat): (p: nat)
    ensures p > 0
  {
    if n == 0 then 1 else 256 * Pow256(n - 1)
  }

  /** Big-endian encoding of `x` modulo 256^n on `n` octets. */
  function I2OSP(x: nat, n: nat): (r: Bytes)
    ensures |r| == n
  {
    if n == 0 then [] else I2OSP(x / 256, n - 1) + [ByteOf(x % 256)]
  }

  /** Big-endian value. */
  function OS2IP(s: Bytes): nat {
    if s == [] then 0 else 256 * OS2IP(s[..|s| - 1]) + s[|s| - 1] as int
  }

  /** Little-endian value. */
  function LittleEndian(s: Bytes): nat {
    if s == [] then 0 else s[0] as int + 256 * LittleEndian(s[1..])
  }

  lemma {:induction false} I2OSPRoundTrip(x: nat, n: nat)
    requires x < Pow256(n)
    ensures OS2IP(I2OSP(x, n)) == x
  {
    if n > 0 {
      I2OSPRoundTrip(x / 256, n - 1);
      ByteOfIsExact(x % 256);
      var r := I2OSP(x, n);
      assert r[..|r| - 1] == I2OSP(x / 256, n - 1);
    }
  }

  lemma DivMod256(q: nat, r: nat)
    requires r < 256
    ensures (256 * q + r) / 256 == q && (256 * q + r) % 256 == r
  {
  }

  lemma {:induction false} OS2IPRoundTrip(s: Bytes)
    ensures OS2IP(s) < Pow256(|s|)
    ensures I2OSP(OS2IP(s), |s|) == s
  {
    if s != [] {
      var front, last := s[..|s| - 1], s[|s| - 1];
      OS2IPRoundTrip(front);
      ByteRoundTrip(last);
      DivMod256(OS2IP(front), last as int);
      assert s == front + [last];
    }
  }

  lemma {:induction false} NextMultiple(d: nat, a: nat, b: nat)
    requires a < b
    ensures d * a + d <= d * b
  {
    if a + 1 < b {
      NextMultiple(d, a, b - 1);
    }
    assert d * b == d * (b - 1) + d;
  }

  lemma QuotientUnique(v: nat, d: nat, q: nat, r: nat)
    requires r < d && v == d * q + r
    ensures v / d == q && v % d == r
  {
    var x, y := v / d, v % d;
    assert v == d * x + y;
    if x < q {
      NextMultiple(d, x, q);
    } else if x > q {
      NextMultiple(d, q, x);
    }
  }

  /** Reducing the digits above a part reduces the whole. */
  lemma LowPart(low: nat, p: nat, t: nat, u: nat, h: nat, base: nat, v: nat, w: nat)
    requires low < p && h > 0 && base == h * p && u == t % h
    requires v == low + p * t && w == low + p * u
    ensures base > 0 && v % base == w
  {
    var q := t / h;
    NextMultiple(p, u, h);
    assert p * t == base * q + p * u by {
      assert t == h * q + u;
      assert p * (h * q) == (h * p) * q;
    }
    QuotientUnique(v, base, q, w);
  }

  lemma DivideTwice(x: nat, p: nat)
    requires p > 0
    ensures x / 256 / p == x / (256 * p)
  {
    var q := x / 256;
    var s, t := q / p, q % p;
    assert 256 * q == (256 * p) * s + 256 * t by {
      assert q == p * s + t;
      assert 256 * (p * s) == (256 * p) * s;
    }
    QuotientUnique(x, 256 * p, s, 256 * t + x % 256);
  }

  /** Octet `j` of the encoding on `n` octets is the digit of weight 256^(n - 1 - j). */
  lemma {:induction false} I2OSPOctet(x: nat, n: nat, j: nat)
    requires j < n
    ensures I2OSP(x, n)[j] as int == x / Pow256(n - 1 - j) % 256
  {
    ByteOfIsExact(x % 256);
    if j < n - 1 {
      I2OSPOctet(x / 256, n - 1, j);
      DivideTwice(x, Pow256(n - 2 - j));
    }
  }

  /** The base-256 digit of weight 256^w. */
  function Digit(x: nat, w: nat): Byte {
    ByteOf(x / Pow256(w) % 256)
  }

  lemma I2OSPDigit(x: nat, n: nat, j: nat)
    requires j < n
    ensures I2OSP(x, n)[j] == Digit(x, n - 1 - j)
  {
    I2OSPOctet(x, n, j);
    ByteRoundTrip(I2OSP(x, n)[j]);
  }

  /** Two octets read as a big-endian integer. */
  function Pair(b: Bytes): nat
    requires |b| == 2
  {
    256 * b[0] as int + b[1] as int
  }

  lemma PairOfU16(x: u16)
    ensures Pair(I2OSP(x, 2)) == x
  {
    var b := I2OSP(x, 2);
    U16Range(x);
    I2OSPRoundTrip(x, 2);
    assert OS2IP(b[..1][..0]) == 0 && OS2IP(b[..1]) == b[0] as int;
  }

  lemma Scale(v: nat, p: nat, x: nat)
    ensures 256 * (v + p * x) == 256 * v + (256 * p) * x
  {
  }

  /** The leading octet is the digit of the highest weight. */
  lemma {:induction false} OS2IPHead(s: Bytes)
    requires s != []
    ensures OS2IP(s) == OS2IP(s[1..]) + Pow256(|s| - 1) * s[0] as int
  {
    if |s| == 1 {
      assert s[..0] == [] && s[1..] == [];
    } else {
      var front, tail := s[..|s| - 1], s[1..];
      OS2IPHead(front);
      assert tail[..|tail| - 1] == front[1..];
      Scale(OS2IP(front[1..]), Pow256(|front| - 1), s[0] as int);
    }
  }

  /** Distinct integers in range have distinct encodings. */
  lemma I2OSPInjective(x: nat, y: nat, n: nat)
    requires x < Pow256(n) && y < Pow256(n)
    requires I2OSP(x, n) == I2OSP(y, n)
    ensures x == y
  {
    I2OSPRoundTrip(x, n);
    I2OSPRoundTrip(y, n);
  }

  lemma U16Range(x: u16)
    ensures x < Pow256(2)
  {
    assert Pow256(2) == 256 * Pow256(1) == 256 * (256 * Pow256(0));
  }

  lemma U64Range(x: u64)
    ensures x < Pow256(8)
  {
    assert Pow256(8) == 256 * Pow256(7) && Pow256(7) == 256 * Pow256(6) && Pow256(6) == 256 * Pow256(5);
    assert Pow256(5) == 256 * Pow256(4) && Pow256(4) == 256 * Pow256(3) && Pow256(3) == 256 * Pow256(2);
    U16Range(0);
    assert Pow256(2) == 0x1_0000;
  }

  lemma {:induction false} I2OSPZero(m: nat)
    ensures I2OSP(0, m) == Zeros(m)
  {
    if m > 0 {
      I2OSPZero(m - 1);
      assert ByteOf(0) == 0;
    }
  }

  /** Encoding a small integer on more octets only adds leading zeros. */
  lemma {:induction false} I2OSPWiden(x: nat, n: nat, m: nat)
    requires n <= m && x < Pow256(n)
    ensures I2OSP(x, m) == Zeros(m - n) + I2OSP(x, n)
  {
    if n == 0 {
      I2OSPZero(m);
    } else {
      I2OSPWiden(x / 256, n - 1, m - 1);
    }
  }

  // ---- Exclusive or ----

  function XorByte(a: Byte, b: Byte): Byte { a ^ b }

  function Xor(a: Bytes, b: Bytes): (r: Bytes)
    requires |a| == |b|
    ensures |r| == |a| && forall i :: 0 <= i < |a| ==> r[i] == XorByte(a[i], b[i])
  {
    seq(|a|, i requires 0 <= i < |a| => XorByte(a[i], b[i]))
  }

  /** A bit is set in the result when it is set in one of the two octets and not in both. */
  lemma XorByteBits(a: Byte, b: Byte)
    ensures XorByte(a, b) == (a | b) & !(a & b)
  {
  }

  lemma XorByteCancels(a: Byte, b: Byte)
    ensures XorByte(a, XorByte(a, b)) == b
    ensures XorByte(a, 0) == a
  {
  }

  lemma XorCancels(a: Bytes, b: Bytes, c: Bytes)
    requires |a| == |b| == |c|
    requires Xor(a, b) == Xor(a, c)
    ensures b == c
  {
    var x := Xor(a, b);
    forall i | 0 <= i < |a| ensures b[i] == c[i] {
      XorByteCancels(a[i], b[i]);
      XorByteCancels(a[i], c[i]);
      assert x[i] == XorByte(a[i], b[i]) && x[i] == XorByte(a[i], c[i]);
    }
  }

  // ---- In-place copies ----

  /** Copies a whole string into the buffer at a given position. */
  method CopyInto(dst: array<Byte>, at: nat, src: Bytes)
    requires at + |src| <= dst.Length
    modifies dst
    ensures dst[..] == old(dst[..at]) + src + old(dst[at + |src|..])
  {
    forall i | 0 <= i < |src| {
      dst[at + i] := src[i];
    }
  }
}
