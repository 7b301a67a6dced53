/** The encodings of ByteArray's typed accessors, as functions on byte strings: fixed-width
    integers in either byte order, base-128 varints and zigzag. */
module Codec {
  import opened Blocks
  import opened Words

  // ---------- fixed width ----------

  function Pow256(w: nat): (r: nat)
    ensures r >= 1
  {
    if w == 0 then 1 else 256 * Pow256(w - 1)
  }

  /** The `w` bytes of `v`, least significant first. */
  function ToLE(v: nat, w: nat): (s: seq<byte>)
    ensures |s| == w
  {
    if w == 0 then [] else [v % 256] + ToLE(v / 256, w - 1)
  }

  function FromLE(s: seq<byte>): (v: nat)
    ensures v < Pow256(|s|)
  {
    if s == [] then 0 else s[0] + 256 * FromLE(s[1..])
  }

  lemma {:induction false} FromToLE(v: nat, w: nat)
    requires v < Pow256(w)
    ensures FromLE(ToLE(v, w)) == v
  {
    if w > 0 { FromToLE(v / 256, w - 1); }
  }

  lemma {:induction false} ToFromLE(s: seq<byte>)
    ensures ToLE(FromLE(s), |s|) == s
  {
    if s != [] {
      hide Pow256;
      ToFromLE(s[1..]);
      LowByte(s[0], FromLE(s[1..]));
      assert ToLE(FromLE(s), |s|) == [s[0]] + s[1..];
    }
  }

  lemma LowByte(b: byte, n: nat)
    ensures (b + 256 * n) % 256 == b && (b + 256 * n) / 256 == n
  {
  }

  function Reverse(s: seq<byte>): (r: seq<byte>)
    ensures |r| == |s| && forall i :: 0 <= i < |s| ==> r[i] == s[|s| - 1 - i]
  {
    if s == [] then [] else Reverse(s[1..]) + [s[0]]
  }

  lemma ReverseTwice(s: seq<byte>)
    ensures Reverse(Reverse(s)) == s
  {
  }

  /** The bytes of `v` in memory on a host of the given byte order, and back. */
  function HostBytes(v: nat, w: nat, hostLE: bool): (s: seq<byte>)
    ensures |s| == w
  {
    if hostLE then ToLE(v, w) else Reverse(ToLE(v, w))
  }

  function HostValue(s: seq<byte>, hostLE: bool): (v: nat)
    ensures v < Pow256(|s|)
  {
    if hostLE then FromLE(s) else FromLE(Reverse(s))
  }

  /** bswap_16, bswap_32 and bswap_64. */
  function Byteswap(v: nat, w: nat): (r: nat)
    ensures r < Pow256(w)
  {
    FromLE(Reverse(ToLE(v, w)))
  }

  /** What a fixed-width write puts on the wire: the bytes `v` has on a host of the array's byte
      order. */
  function Wire(v: nat, w: nat, little: bool): (s: seq<byte>)
    ensures |s| == w
  {
    HostBytes(v, w, little)
  }

  /** Swapping when the orders differ and then copying the host's bytes gives the same wire
      bytes on every host, and reading back gives the value on every host. */
  lemma FixedPortable(v: nat, w: nat, little: bool, writer: bool, reader: bool)
    requires v < Pow256(w)
    ensures HostBytes(if little != writer then Byteswap(v, w) else v, w, writer) == Wire(v, w, little)
    ensures var u := HostValue(Wire(v, w, little), reader);
            (if little == reader then u else Byteswap(u, w)) == v
  {
    var le := ToLE(v, w);
    FromToLE(v, w);
    ToFromLE(Reverse(le));
    ReverseTwice(le);
  }

  /** Two's complement of a `w`-byte signed value, and back. */
  function Unsigned(v: int, w: nat): int {
    if v < 0 then v + Pow256(w) else v
  }

  function Signed(u: nat, w: nat): int {
    if 2 * u >= Pow256(w) then u - Pow256(w) else u
  }

  // ---------- which byte is where ----------

  lemma SmallMultiple(k: int, d: int, e: int)
    requires k * d == e && -d < e < d
    ensures k == 0
  {
    assert k >= 1 ==> (k - 1) * d >= 0;
    assert k <= -1 ==> (-k - 1) * d >= 0;
  }

  /** The quotient is determined by the remainder's range. */
  lemma QuotientIs(x: nat, d: nat, q: nat, r: nat, p: nat, m: nat)
    requires x == q * d + r && r < d && x == p * d + m && m < d
    ensures p == q
  {
    assert (p - q) * d == p * d - q * d;
    SmallMultiple(p - q, d, r - m);
  }

  lemma DivMod(x: nat, d: nat)
    requires 0 < d
    ensures x == x / d * d + x % d && x % d < d
  {
  }

  lemma DivDiv(v: nat, a: nat, b: nat, c: nat)
    requires 0 < a && 0 < b && c == a * b
    ensures 0 < c && v / a / b == v / c
  {
    var q, r := v / a, v % a;
    var t, u := q / b, q % b;
    DivMod(v, a);
    DivMod(q, b);
    assert c > 0;
    DivMod(v, c);
    assert q * a == t * c + u * a by { Regrouped(t, b, u, a, c); }
    assert u * a + r < c by { BelowProduct(u, b, a, c); }
    QuotientIs(v, c, t, u * a + r, v / c, v % c);
  }

  lemma Regrouped(t: nat, b: nat, u: nat, a: nat, c: nat)
    requires c == a * b
    ensures (t * b + u) * a == t * c + u * a
  {
    assert (t * b + u) * a == (t * b) * a + u * a;
    assert (t * b) * a == t * (a * b);
  }

  lemma BelowProduct(u: nat, b: nat, a: nat, c: nat)
    requires u < b && c == a * b
    ensures u * a + a <= c
  {
    assert (b - 1 - u) * a >= 0;
    assert a * b == u * a + (b - 1 - u) * a + a;
  }

  /** Digit `i` of a number in base 256 and in base 128. */
  function Octet(v: nat, i: nat): byte {
    v / Pow256(i) % 256
  }

  function Septet(v: nat, i: nat): byte {
    v / Pow128(i) % 128
  }

  lemma DigitStart(v: nat)
    ensures Octet(v, 0) == v % 256 && Septet(v, 0) == v % 128
  {
  }

  lemma DigitNext(v: nat, i: nat)
    ensures Octet(v, i + 1) == Octet(v / 256, i) && Septet(v, i + 1) == Septet(v / 128, i)
  {
    hide Pow256, Pow128;
    PowNext(i);
    DivDiv(v, 256, Pow256(i), Pow256(i + 1));
    DivDiv(v, 128, Pow128(i), Pow128(i + 1));
  }

  lemma PowNext(i: nat)
    ensures Pow256(i + 1) == 256 * Pow256(i) && Pow128(i + 1) == 128 * Pow128(i)
  {
  }

  lemma {:induction false} ToLEAt(v: nat, w: nat, i: nat)
    requires i < w
    ensures ToLE(v, w)[i] == Octet(v, i)
  {
    hide Octet;
    DigitStart(v);
    if i > 0 {
      ToLEAt(v / 256, w - 1, i - 1);
      DigitNext(v, i - 1);
    }
  }

  /** `b` is the number `v` in `w` bytes: byte `i` holds the bits from `8 i` on in little-endian
      order, and those from `8 (w - 1 - i)` on in big-endian order. */
  ghost predicate BytesOf(b: seq<byte>, v: nat, w: nat, little: bool) {
    |b| == w && forall i :: 0 <= i < w ==> b[i] == Octet(v, if little then i else w - 1 - i)
  }

  lemma WireAt(v: nat, w: nat, little: bool)
    ensures BytesOf(Wire(v, w, little), v, w, little)
  {
    hide Octet, ToLE;
    forall i | 0 <= i < w ensures ToLE(v, w)[i] == Octet(v, i) { ToLEAt(v, w, i); }
  }

  /** For instance 0x0102 in a big-endian array is 01 02. */
  lemma BigEndianWord()
    ensures Wire(0x0102, 2, false) == [1, 2] && Wire(0x0102, 2, true) == [2, 1]
  {
    assert Pow256(1) == 256 && Pow256(0) == 1;
    WireAt(0x0102, 2, false);
    WireAt(0x0102, 2, true);
  }

  /** A signed value and its unsigned form are congruent modulo the width's size. */
  lemma TwosComplement(v: int, w: nat)
    requires 0 <= 2 * v + Pow256(w) && 2 * v < Pow256(w)
    ensures 0 <= Unsigned(v, w) < Pow256(w)
    ensures Unsigned(v, w) - v == 0 || Unsigned(v, w) - v == Pow256(w)
    ensures Signed(Unsigned(v, w), w) == v
  {
  }

  // ---------- varint ----------

  function Pow128(k: nat): (r: nat)
    ensures r >= 1
  {
    if k == 0 then 1 else 128 * Pow128(k - 1)
  }

  /** Seven bits per byte, least significant first, high bit set on all but the last. */
  function Varint(n: nat): (s: seq<byte>)
    ensures |s| >= 1
  {
    if n < 128 then [n] else [n % 128 + 128] + Varint(n / 128)
  }

  datatype VarResult = Var(value: nat, used: nat) | Short

  /** What a reader that stops after `max` bytes at the latest makes of `s`. */
  function ReadVar(s: seq<byte>, max: nat): (r: VarResult)
    ensures r.Var? ==> r.used <= max && r.used <= |s| && r.value < Pow128(r.used)
    ensures r.Var? && max > 0 ==> r.used > 0
    ensures r.Short? ==> |s| < max
    decreases max
  {
    if max == 0 then Var(0, 0)
    else if s == [] then Short
    else if s[0] < 128 then Var(s[0], 1)
    else match ReadVar(s[1..], max - 1)
      case Short => Short
      case Var(v, u) => Var(s[0] - 128 + 128 * v, u + 1)
  }

  /** A value below 128^k takes at most `k` bytes. */
  lemma {:induction false} VarintLength(n: nat, k: nat)
    requires n < Pow128(k) && 1 <= k
    ensures |Varint(n)| <= k
  {
    if n >= 128 {
      assert Pow128(1) == 128;
      VarintLength(n / 128, k - 1);
    }
  }

  /** The reader takes exactly the bytes the writer emitted, whatever follows them. */
  lemma {:induction false} VarintRead(n: nat, max: nat, rest: seq<byte>)
    requires |Varint(n)| <= max
    ensures ReadVar(Varint(n) + rest, max) == Var(n, |Varint(n)|)
  {
    if n >= 128 {
      VarintRead(n / 128, max - 1, rest);
      assert (Varint(n) + rest)[1..] == Varint(n / 128) + rest;
    }
  }

  /** The two widths: the modulus of the arithmetic and the longest encoding. */
  predicate VarWidth(m: nat, max: nat) {
    (m == TWO_32 && max == 5) || (m == TWO_64 && max == 10)
  }

  lemma Pow128Values()
    ensures Pow128(4) <= TWO_32 <= Pow128(5) && Pow128(9) <= TWO_64 <= Pow128(10)
  {
    assert Pow128(1) == 0x80;
    assert Pow128(2) == 0x4000;
    assert Pow128(3) == 0x20_0000;
    assert Pow128(4) == 0x1000_0000;
    assert Pow128(5) == 0x8_0000_0000;
    assert Pow128(6) == 0x400_0000_0000;
    assert Pow128(7) == 0x2_0000_0000_0000;
    assert Pow128(8) == 0x100_0000_0000_0000;
    assert Pow128(9) == 0x8000_0000_0000_0000;
    assert Pow128(10) == 0x40_0000_0000_0000_0000;
  }

  lemma {:induction false} Pow128Mono(j: nat, k: nat)
    requires j <= k
    ensures Pow128(j) <= Pow128(k)
  {
    if j < k { Pow128Mono(j, k - 1); }
  }

  /** Both widths: at most 5 or 10 bytes; reading takes exactly them and gives the value. */
  lemma VarintRoundTrip(n: nat, m: nat, max: nat, rest: seq<byte>)
    requires VarWidth(m, max) && n < m
    ensures |Varint(n)| <= max
    ensures ReadVar(Varint(n) + rest, max) == Var(n, |Varint(n)|)
  {
    Pow128Values();
    VarintLength(n, max);
    VarintRead(n, max, rest);
  }

  /** No byte string that the reader takes for `n`, truncation to the width included, is
      shorter than what the writer emits. */
  lemma VarintShortest(s: seq<byte>, n: nat, m: nat, max: nat)
    requires VarWidth(m, max) && n < m
    requires ReadVar(s, max).Var? && ReadVar(s, max).value % m == n
    ensures |Varint(n)| <= ReadVar(s, max).used
  {
    var r := ReadVar(s, max);
    Pow128Values();
    if r.used == max {
      VarintLength(n, max);
    } else {
      Pow128Mono(r.used, max - 1);
      VarintLength(n, r.used);
    }
  }

  /** `b` is the number `v` in base 128, least significant digit first, with the high bit set on all
      bytes but the last and no digit more than it takes. */
  ghost predicate SeptetsOf(b: seq<byte>, v: nat) {
    && b != [] && v < Pow128(|b|) && (|b| > 1 ==> v >= Pow128(|b| - 1))
    && forall i :: 0 <= i < |b| ==> b[i] == Septet(v, i) + if i < |b| - 1 then 128 else 0
  }

  lemma {:induction false} VarintBounds(n: nat)
    ensures var b := Varint(n); n < Pow128(|b|) && (|b| > 1 ==> n >= Pow128(|b| - 1))
  {
    assert Pow128(0) == 1 && Pow128(1) == 128;
    if n >= 128 {
      hide Pow128;
      var k := |Varint(n / 128)|;
      VarintBounds(n / 128);
      PowNext(k);
      PowNext(k - 1);
    }
  }

  lemma {:induction false} VarintDigit(n: nat, i: nat)
    requires i < |Varint(n)|
    ensures Varint(n)[i] == Septet(n, i) + if i < |Varint(n)| - 1 then 128 else 0
  {
    hide Septet;
    DigitStart(n);
    if i > 0 {
      VarintDigit(n / 128, i - 1);
      DigitNext(n, i - 1);
    }
  }

  lemma VarintAt(n: nat)
    ensures SeptetsOf(Varint(n), n)
  {
    hide Septet, Pow128, Varint;
    VarintBounds(n);
    forall i | 0 <= i < |Varint(n)| ensures Varint(n)[i] == Septet(n, i) + if i < |Varint(n)| - 1 then 128 else 0 {
      VarintDigit(n, i);
    }
  }

  /** What the reader makes of any bytes: it stops at the first byte below 128, or after `max`; the
      value's digits are the low seven bits of the bytes it used; and it is short of bytes exactly
      when there are fewer than `max` and none is below 128. */
  lemma {:induction false} ReadVarExact(s: seq<byte>, max: nat)
    ensures var r := ReadVar(s, max);
            && (r.Short? <==> |s| < max && forall i :: 0 <= i < |s| ==> s[i] >= 128)
            && (r.Var? ==>
                  && r.value < Pow128(r.used)
                  && (forall i :: 0 <= i < r.used ==> Septet(r.value, i) == s[i] % 128)
                  && (forall i :: 0 <= i < r.used - 1 ==> s[i] >= 128)
                  && (r.used == max || (0 < r.used < max && s[r.used - 1] < 128)))
    decreases max
  {
    hide Pow128, Septet;
    var r := ReadVar(s, max);
    if r.Var? { DigitStart(r.value); }
    if max > 0 && s != [] && s[0] >= 128 {
      var t := s[1..];
      var q := ReadVar(t, max - 1);
      ReadVarExact(t, max - 1);
      assert forall i :: 0 < i < |s| ==> s[i] == t[i - 1];
      if q.Var? {
        assert r.value / 128 == q.value && r.value % 128 == s[0] % 128;
        forall i | 0 <= i < r.used ensures Septet(r.value, i) == s[i] % 128 {
          if i > 0 { DigitNext(r.value, i - 1); }
        }
      }
    }
  }

  // ---------- zigzag ----------

  /** The writer's arithmetic, wrapping modulo `m`: negation and doubling included. */
  function EncodeZigzag(v: int, m: nat): (u: nat)
    requires 0 < m
    ensures u < m
  {
    if v < 0 then (((-v) % m) * 2 - 1) % m else (v * 2) % m
  }

  /** `(u >> 1) ^ -(u & 1)` read as a signed number: exclusive or with an all-ones mask is
      the complement, with zero the identity. */
  function DecodeZigzag(u: nat): int {
    if u % 2 == 0 then u / 2 else -(u / 2) - 1
  }

  /** Zigzag is a bijection between the signed and the unsigned values of one width. */
  lemma ZigzagBijection(v: int, u: nat, m: nat)
    requires 0 < m && m % 2 == 0 && 0 <= 2 * v + m && 2 * v < m && u < m
    ensures DecodeZigzag(EncodeZigzag(v, m)) == v
    ensures 0 <= 2 * DecodeZigzag(u) + m && 2 * DecodeZigzag(u) < m && EncodeZigzag(DecodeZigzag(u), m) == u
  {
    if v < 0 {
      ModSmall(-v, m);
      ModSmall((-v) * 2 - 1, m);
    } else {
      ModSmall(v * 2, m);
    }
    var d := DecodeZigzag(u);
    if d < 0 {
      ModSmall(-d, m);
      ModSmall((-d) * 2 - 1, m);
    } else {
      ModSmall(d * 2, m);
    }
  }

  /** Zero and the positive values go to the even numbers, the negative ones to the odd. */
  lemma ZigzagValues(v: int, m: nat)
    requires 0 < m && m % 2 == 0 && 0 <= 2 * v + m && 2 * v < m
    ensures EncodeZigzag(v, m) == if v >= 0 then 2 * v else -2 * v - 1
  {
    if v < 0 {
      ModSmall(-v, m);
      ModSmall((-v) * 2 - 1, m);
    } else {
      ModSmall(v * 2, m);
    }
  }

  lemma ModSmall(x: nat, m: nat)
    requires x < m
    ensures x % m == x
  {
  }
}
