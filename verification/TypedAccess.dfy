/** ByteArray's typed writes and reads, and the round trip of any list of mixed values. */
module TypedAccess {
  import opened Options
  import opened Blocks
  import opened ByteArrays
  import opened Codec
  import opened Words

  /** A value together with the accessor that writes it. Widths are in bytes: fixed-width
      integers take 1, 2, 4 or 8, varints come in 4 and 8, string prefixes in 2, 4 and 8.
      Floats and doubles are written as the unsigned integers of the same bits. */
  datatype Item =
    | FixedU(w: nat, n: int)
    | FixedS(w: nat, n: int)
    | VarU(w: nat, n: int)
    | VarS(w: nat, n: int)
    | StrF(w: nat, s: seq<byte>)
    | StrV(s: seq<byte>)

  /** The read accessor that matches a value. */
  datatype Kind = KFixedU(w: nat) | KFixedS(w: nat) | KVarU(w: nat) | KVarS(w: nat) | KStrF(w: nat) | KStrV

  function KindOf(it: Item): Kind {
    match it
    case FixedU(w, _) => KFixedU(w)
    case FixedS(w, _) => KFixedS(w)
    case VarU(w, _) => KVarU(w)
    case VarS(w, _) => KVarS(w)
    case StrF(w, _) => KStrF(w)
    case StrV(_) => KStrV
  }

  predicate KindOk(k: Kind) {
    match k
    case KFixedU(w) => w in {1, 2, 4, 8}
    case KFixedS(w) => w in {1, 2, 4, 8}
    case KVarU(w) => w in {4, 8}
    case KVarS(w) => w in {4, 8}
    case KStrF(w) => w in {2, 4, 8}
    case KStrV => true
  }

  /** The modulus of `w`-byte arithmetic and the longest varint of that width. */
  function Modulus(w: nat): nat { if w == 4 then TWO_32 else TWO_64 }

  function MaxVar(w: nat): nat { if w == 4 then 5 else 10 }

  /** The value is in its accessor's range; a string's length fits its prefix. */
  predicate ItemOk(it: Item) {
    KindOk(KindOf(it)) &&
    match it
    case FixedU(w, n) => 0 <= n < Pow256(w)
    case FixedS(w, n) => 0 <= 2 * n + Pow256(w) && 2 * n < Pow256(w)
    case VarU(w, n) => 0 <= n < Modulus(w)
    case VarS(w, n) => 0 <= 2 * n + Modulus(w) && 2 * n < Modulus(w)
    case StrF(w, s) => |s| < Pow256(w)
    case StrV(s) => |s| < TWO_64
  }

  predicate EmptyString(it: Item) {
    (it.StrF? || it.StrV?) && it.s == []
  }

  /** The bytes of an item on the wire. */
  function Encode(it: Item, little: bool): (b: seq<byte>)
    requires ItemOk(it)
    ensures |b| >= 1
  {
    match it
    case FixedU(w, n) => Wire(n, w, little)
    case FixedS(w, n) => Wire(Unsigned(n, w), w, little)
    case VarU(w, n) => Varint(n)
    case VarS(w, n) => Varint(EncodeZigzag(n, Modulus(w)))
    case StrF(w, s) => Wire(|s|, w, little) + s
    case StrV(s) => Varint(|s|) + s
  }

  datatype Decoded = Got(it: Item, used: nat) | TooShort

  function UnWire(s: seq<byte>, little: bool): (v: nat)
    ensures v < Pow256(|s|)
  {
    FromLE(if little then s else Reverse(s))
  }

  /** The length prefix of a string: its value and how many bytes it takes. */
  function Prefix(k: Kind, s: seq<byte>, little: bool): (p: VarResult)
    requires k.KStrF? || k.KStrV?
    ensures p.Var? ==> p.used <= |s|
  {
    if k.KStrF? then (if |s| < k.w then Short else Var(UnWire(s[..k.w], little), k.w))
    else match ReadVar(s, 10)
      case Short => Short
      case Var(v, u) => Var(v % TWO_64, u)
  }

  function StringItem(k: Kind, t: seq<byte>): (it: Item)
    requires k.KStrF? || k.KStrV?
    ensures KindOf(it) == k && it.s == t
  {
    if k.KStrF? then StrF(k.w, t) else StrV(t)
  }

  /** What a read accessor makes of the readable bytes `s`. */
  function Decode(k: Kind, s: seq<byte>, little: bool): (d: Decoded)
    requires KindOk(k)
    ensures d.Got? ==> d.used <= |s| && KindOf(d.it) == k
  {
    match k
    case KFixedU(w) => if |s| < w then TooShort else Got(FixedU(w, UnWire(s[..w], little)), w)
    case KFixedS(w) => if |s| < w then TooShort else Got(FixedS(w, Signed(UnWire(s[..w], little), w)), w)
    case KVarU(w) =>
      (match ReadVar(s, MaxVar(w))
       case Short => TooShort
       case Var(v, u) => Got(VarU(w, v % Modulus(w)), u))
    case KVarS(w) =>
      (match ReadVar(s, MaxVar(w))
       case Short => TooShort
       case Var(v, u) => Got(VarS(w, DecodeZigzag(v % Modulus(w))), u))
    case _ => DecodeString(k, s, Prefix(k, s, little))
  }

  function DecodeString(k: Kind, s: seq<byte>, prefix: VarResult): (d: Decoded)
    requires k.KStrF? || k.KStrV?
    requires prefix.Var? ==> prefix.used <= |s|
    ensures d.Got? ==> d.used <= |s| && KindOf(d.it) == k
  {
    match prefix
    case Short => TooShort
    case Var(n, u) => if |s| - u < n then TooShort else Got(StringItem(k, s[u..u + n]), u + n)
  }

  /** What every accessor puts on the wire, byte by byte. */
  lemma EncodeAt(it: Item, little: bool)
    requires ItemOk(it)
    ensures var b := Encode(it, little);
            match it
            case FixedU(w, n) => BytesOf(b, n, w, little)
            case FixedS(w, n) => BytesOf(b, if n < 0 then n + Pow256(w) else n, w, little)
            case VarU(_, n) => SeptetsOf(b, n)
            case VarS(_, n) => SeptetsOf(b, if n >= 0 then 2 * n else -2 * n - 1)
            case StrF(w, s) => |b| == w + |s| && BytesOf(b[..w], |s|, w, little) && b[w..] == s
            case StrV(s) => exists p :: SeptetsOf(p, |s|) && b == p + s
  {
    hide Pow256, Pow128, Octet, Septet, Varint, EncodeZigzag, Wire, BytesOf, SeptetsOf;
    match it
    case FixedU(w, n) => WireAt(n, w, little);
    case FixedS(w, n) => WireAt(if n < 0 then n + Pow256(w) else n, w, little);
    case VarU(_, n) => VarintAt(n);
    case VarS(w, n) =>
      ZigzagValues(n, Modulus(w));
      VarintAt(if n >= 0 then 2 * n else -2 * n - 1);
    case StrF(w, s) =>
      WireAt(|s|, w, little);
      assert (Wire(|s|, w, little) + s)[..w] == Wire(|s|, w, little);
    case StrV(s) => VarintAt(|s|);
  }

  /** What the varint reads make of any bytes, non-canonical ones included: at most five or ten are
      used, and what their digits stand for is cut off at 32 or 64 bits; the signed reads then undo the
      zigzag. */
  lemma DecodeVarExact(w: nat, s: seq<byte>, little: bool)
    requires w == 4 || w == 8
    ensures var r := ReadVar(s, if w == 4 then 5 else 10);
            var cut := if w == 4 then 0x1_0000_0000 else 0x1_0000_0000_0000_0000;
            var u, v := Decode(KVarU(w), s, little), Decode(KVarS(w), s, little);
            && (u.TooShort? <==> r.Short?) && (v.TooShort? <==> r.Short?)
            && (r.Var? ==> && u == Got(VarU(w, r.value % cut), r.used)
                           && exists n :: && v == Got(VarS(w, n), r.used)
                                          && (if n >= 0 then 2 * n else -2 * n - 1) == r.value % cut)
  {
    var r := ReadVar(s, MaxVar(w));
    if r.Var? {
      var x := r.value % Modulus(w);
      var n := DecodeZigzag(x);
      assert (if n >= 0 then 2 * n else -2 * n - 1) == x;
    }
  }

  lemma WireUnWire(s: seq<byte>, little: bool)
    ensures BytesOf(s, UnWire(s, little), |s|, little)
  {
    hide FromLE, ToLE, BytesOf;
    WireAt(UnWire(s, little), |s|, little);
    ToFromLE(if little then s else Reverse(s));
    ReverseTwice(s);
  }

  /** What the fixed-width reads make of any bytes: they fail exactly when there are too few, and the
      value has the first `w` bytes as its digits, in two's complement for the signed ones. */
  lemma DecodeFixedExact(w: nat, s: seq<byte>, little: bool)
    requires w in {1, 2, 4, 8}
    ensures var u, v := Decode(KFixedU(w), s, little), Decode(KFixedS(w), s, little);
            && (u.TooShort? <==> |s| < w) && (v.TooShort? <==> |s| < w)
            && (|s| >= w ==>
                  exists m: nat, n: int :: && u == Got(FixedU(w, m), w) && v == Got(FixedS(w, n), w)
                                 && BytesOf(s[..w], m, w, little) && m < Pow256(w)
                                 && (if 2 * m < Pow256(w) then n == m else n == m - Pow256(w)))
  {
    hide Pow256, BytesOf, UnWire;
    if |s| >= w { WireUnWire(s[..w], little); }
  }

  /** What the reads of strings with a length of `w` bytes make of any bytes: they fail exactly when
      the length, or that many bytes after it, are not all there. */
  lemma DecodeStrFExact(w: nat, s: seq<byte>, little: bool)
    requires w in {2, 4, 8}
    ensures var d := Decode(KStrF(w), s, little);
            if |s| < w then d.TooShort?
            else exists m: nat :: && BytesOf(s[..w], m, w, little) && m < Pow256(w)
                                  && d == if |s| < w + m then TooShort else Got(StrF(w, s[w..w + m]), w + m)
  {
    hide Pow256, BytesOf, UnWire, Decode;
    if |s| >= w { WireUnWire(s[..w], little); }
    DecodePrefixed(KStrF(w), s, little);
  }

  /** The same for a varint length of at most ten bytes, cut off at 64 bits. */
  lemma DecodeStrVExact(s: seq<byte>, little: bool)
    ensures var d, r := Decode(KStrV, s, little), ReadVar(s, 10);
            if r.Short? then d.TooShort?
            else var m := r.value % 0x1_0000_0000_0000_0000;
                 d == if |s| < r.used + m then TooShort else Got(StrV(s[r.used..r.used + m]), r.used + m)
  {
    hide ReadVar, Decode;
    DecodePrefixed(KStrV, s, little);
  }

  lemma DecodePrefixed(k: Kind, s: seq<byte>, little: bool)
    requires KindOk(k) && (k.KStrF? || k.KStrV?)
    ensures Decode(k, s, little) == DecodeString(k, s, Prefix(k, s, little))
  {
    hide DecodeString, Prefix;
  }

  /** The accessors' ranges in plain numbers: all values of the C++ types, and strings whose length fits
      the prefix. */
  lemma Ranges(n: int, s: seq<byte>)
    ensures (ItemOk(FixedU(1, n)) <==> 0 <= n <= 0xFF) && (ItemOk(FixedS(1, n)) <==> -0x80 <= n <= 0x7F)
    ensures (ItemOk(FixedU(2, n)) <==> 0 <= n <= 0xFFFF) && (ItemOk(FixedS(2, n)) <==> -0x8000 <= n <= 0x7FFF)
    ensures ItemOk(FixedU(4, n)) <==> 0 <= n <= 0xFFFF_FFFF
    ensures ItemOk(FixedS(4, n)) <==> -0x8000_0000 <= n <= 0x7FFF_FFFF
    ensures ItemOk(FixedU(8, n)) <==> 0 <= n <= 0xFFFF_FFFF_FFFF_FFFF
    ensures ItemOk(FixedS(8, n)) <==> -0x8000_0000_0000_0000 <= n <= 0x7FFF_FFFF_FFFF_FFFF
    ensures (ItemOk(VarU(4, n)) <==> ItemOk(FixedU(4, n))) && (ItemOk(VarS(4, n)) <==> ItemOk(FixedS(4, n)))
    ensures (ItemOk(VarU(8, n)) <==> ItemOk(FixedU(8, n))) && (ItemOk(VarS(8, n)) <==> ItemOk(FixedS(8, n)))
    ensures (ItemOk(StrF(2, s)) <==> |s| <= 0xFFFF) && (ItemOk(StrF(4, s)) <==> |s| <= 0xFFFF_FFFF)
    ensures (ItemOk(StrF(8, s)) <==> |s| <= 0xFFFF_FFFF_FFFF_FFFF) && (ItemOk(StrV(s)) <==> ItemOk(StrF(8, s)))
  {
    hide Pow256;
    Widths();
  }

  lemma Widths()
    ensures Pow256(1) == 0x100 && Pow256(2) == 0x1_0000 && Pow256(4) == 0x1_0000_0000
    ensures Pow256(8) == 0x1_0000_0000_0000_0000
  {
    assert Pow256(1) == 256 && Pow256(2) == 256 * Pow256(1) && Pow256(3) == 256 * Pow256(2);
    assert Pow256(5) == 256 * Pow256(4) && Pow256(6) == 256 * Pow256(5) && Pow256(7) == 256 * Pow256(6);
  }

  lemma UnWireWire(v: nat, w: nat, little: bool)
    requires v < Pow256(w)
    ensures UnWire(Wire(v, w, little), little) == v
  {
    FromToLE(v, w);
    ReverseTwice(ToLE(v, w));
  }

  /** The round trip of one item, whatever bytes follow it. */
  ghost predicate RoundTrips(it: Item, little: bool, rest: seq<byte>)
    requires ItemOk(it)
  {
    Decode(KindOf(it), Encode(it, little) + rest, little) == Got(it, |Encode(it, little)|)
  }

  lemma {:induction false} FixedRoundTrips(it: Item, little: bool, rest: seq<byte>)
    requires ItemOk(it) && (it.FixedU? || it.FixedS?)
    ensures RoundTrips(it, little, rest)
  {
    var u: nat := if it.FixedU? then it.n else Unsigned(it.n, it.w);
    UnWireWire(u, it.w, little);
    assert (Encode(it, little) + rest)[..it.w] == Wire(u, it.w, little);
  }

  lemma {:induction false} VarRoundTrips(it: Item, little: bool, rest: seq<byte>)
    requires ItemOk(it) && (it.VarU? || it.VarS?)
    ensures RoundTrips(it, little, rest)
  {
    var u: nat := if it.VarU? then it.n else EncodeZigzag(it.n, Modulus(it.w));
    if it.VarS? { ZigzagBijection(it.n, 0, Modulus(it.w)); }
    VarintRoundTrip(u, Modulus(it.w), MaxVar(it.w), rest);
    ModSmall(u, Modulus(it.w));
  }

  lemma {:induction false} StrFRoundTrips(w: nat, t: seq<byte>, little: bool, rest: seq<byte>)
    requires ItemOk(StrF(w, t))
    ensures RoundTrips(StrF(w, t), little, rest)
  {
    var s := Encode(StrF(w, t), little) + rest;
    UnWireWire(|t|, w, little);
    assert s[..w] == Wire(|t|, w, little) && s[w..w + |t|] == t;
  }

  lemma {:induction false} StrVRoundTrips(t: seq<byte>, little: bool, rest: seq<byte>)
    requires ItemOk(StrV(t))
    ensures RoundTrips(StrV(t), little, rest)
  {
    hide Decode, Varint, Prefix;
    var v := Varint(|t|);
    BodyAt(v, t, rest);
    DecodePrefixed(KStrV, v + t + rest, little);
    VarPrefix(|t|, t + rest, little);
  }

  lemma BodyAt(v: seq<byte>, t: seq<byte>, rest: seq<byte>)
    ensures v + t + rest == v + (t + rest) && (v + t + rest)[|v|..|v| + |t|] == t
  {
  }

  lemma VarPrefix(n: nat, tail: seq<byte>, little: bool)
    requires n < TWO_64
    ensures Prefix(KStrV, Varint(n) + tail, little) == Var(n, |Varint(n)|)
  {
    hide Varint, ReadVar;
    VarintRoundTrip(n, TWO_64, 10, tail);
    ModSmall(n, TWO_64);
  }

  /** Every accessor pair is a round trip, whatever bytes follow. */
  lemma {:induction false} DecodeEncode(it: Item, little: bool, rest: seq<byte>)
    requires ItemOk(it)
    ensures Decode(KindOf(it), Encode(it, little) + rest, little) == Got(it, |Encode(it, little)|)
  {
    assert RoundTrips(it, little, rest) by {
      match it
      case FixedU(_, _) => FixedRoundTrips(it, little, rest);
      case FixedS(_, _) => FixedRoundTrips(it, little, rest);
      case VarU(_, _) => VarRoundTrips(it, little, rest);
      case VarS(_, _) => VarRoundTrips(it, little, rest);
      case StrF(w, t) => StrFRoundTrips(w, t, little, rest);
      case StrV(t) => StrVRoundTrips(t, little, rest);
    }
  }

  // ---------- the accessors ----------

  /** What `write` of `b` leaves behind: the shared contract of every typed write. */
  twostate predicate Wrote(ba: ByteArray, b: seq<byte>)
    reads ba, ba.Repr
  {
    && ba.Valid() && old(ba.Valid())
    && fresh(ba.Repr - old(ba.Repr))
    && ba.position == old(ba.position) + |b|
    && ba.size == (if ba.position > old(ba.size) then ba.position else old(ba.size))
    && ba.capacity == GrownCapacity(old(ba.capacity), old(ba.position), |b|, ba.baseSize)
    && Stored(old(ba.flat), ba.flat, old(ba.position), b)
    && ba.littleEndian == old(ba.littleEndian)
  }

  /** writeFuint16 and its kin, on a host of either byte order. */
  method WriteFixed(ba: ByteArray, v: nat, w: nat, hostLE: bool)
    requires ba.Valid() && v < Pow256(w)
    modifies ba, ba.Repr
    ensures Wrote(ba, Wire(v, w, ba.littleEndian))
  {
    FixedPortable(v, w, ba.littleEndian, hostLE, hostLE);
    var x := if ba.littleEndian != hostLE then Byteswap(v, w) else v;
    ba.Write(HostBytes(x, w, hostLE));
  }

  /** writeUint32 and writeUint64: the shifting loop into a small buffer. */
  method WriteVarint(ba: ByteArray, v: nat)
    requires ba.Valid()
    modifies ba, ba.Repr
    ensures Wrote(ba, Varint(v))
  {
    var value, tmp := v, [];
    while value >= 0x80
      invariant value >= 0 && tmp + Varint(value) == Varint(v)
    {
      tmp := tmp + [value % 0x80 + 0x80];
      value := value / 0x80;
    }
    tmp := tmp + [value];
    ba.Write(tmp);
  }

  /** The body of a string, after its prefix `x`: both writes together are one write. */
  method WriteBody(ba: ByteArray, t: seq<byte>, ghost x: seq<byte>,
                   ghost flat0: seq<byte>, ghost cap0: nat, ghost pos0: nat)
    requires ba.Valid() && pos0 <= cap0
    requires Stored(flat0, ba.flat, pos0, x) && ba.position == pos0 + |x|
    requires ba.capacity == GrownCapacity(cap0, pos0, |x|, ba.baseSize)
    modifies ba, ba.Repr
    ensures Wrote(ba, t)
    ensures Stored(flat0, ba.flat, pos0, x + t)
    ensures ba.capacity == GrownCapacity(cap0, pos0, |x + t|, ba.baseSize)
  {
    ghost var flat1 := ba.flat;
    ba.Write(t);
    StoredAgain(flat0, flat1, ba.flat, pos0, x, t);
    GrownTwice(cap0, pos0, |x|, |t|, ba.baseSize);
  }

  /** writeStringF16, writeStringF32 and writeStringF64. */
  method WriteStringF(ba: ByteArray, t: seq<byte>, w: nat, hostLE: bool)
    requires ba.Valid() && |t| < Pow256(w)
    modifies ba, ba.Repr
    ensures Wrote(ba, Wire(|t|, w, ba.littleEndian) + t)
  {
    WriteFixed(ba, |t|, w, hostLE);
    WriteBody(ba, t, Wire(|t|, w, ba.littleEndian), old(ba.flat), old(ba.capacity), old(ba.position));
  }

  method WriteStringV(ba: ByteArray, t: seq<byte>)
    requires ba.Valid()
    modifies ba, ba.Repr
    ensures Wrote(ba, Varint(|t|) + t)
  {
    WriteVarint(ba, |t|);
    WriteBody(ba, t, Varint(|t|), old(ba.flat), old(ba.capacity), old(ba.position));
  }

  /** Dispatch to the typed write. */
  method WriteItem(ba: ByteArray, it: Item, hostLE: bool)
    requires ba.Valid() && ItemOk(it)
    modifies ba, ba.Repr
    ensures Wrote(ba, Encode(it, ba.littleEndian))
  {
    match it {
      case FixedU(w, n) => WriteFixed(ba, n, w, hostLE);
      case FixedS(w, n) => WriteFixed(ba, Unsigned(n, w), w, hostLE);
      case VarU(w, n) => WriteVarint(ba, n);
      case VarS(w, n) => WriteVarint(ba, EncodeZigzag(n, Modulus(w)));
      case StrF(w, t) => WriteStringF(ba, t, w, hostLE);
      case StrV(t) => WriteStringV(ba, t);
    }
  }

  /** Growing for a prefix and then for a body is growing for both at once. */
  lemma GrownTwice(cap: nat, pos: nat, m: nat, n: nat, b: nat)
    requires 0 < b && pos <= cap
    ensures GrownCapacity(GrownCapacity(cap, pos, m, b), pos + m, n, b) == GrownCapacity(cap, pos, m + n, b)
  {
    if m + n > cap - pos {
      var need := m + n - (cap - pos);
      if m > cap - pos {
        var k := CeilDiv(m - (cap - pos), b);
        if Off(k, b) >= need {
          CeilUnique(need, k, b);
        } else {
          var j := CeilDiv(need - Off(k, b), b);
          OffAdd(k, j, b);
          CeilUnique(need, k + j, b);
        }
      }
    }
  }

  /** The ceiling is the only block count that covers `n` with less than a block to spare. */
  lemma CeilUnique(n: nat, k: nat, b: nat)
    requires 0 < b && 0 < n <= Off(k, b) < n + b
    ensures CeilDiv(n, b) == k
  {
    var c := CeilDiv(n, b);
    if c < k { OffMono(c, k, b); } else if k < c { OffMono(k, c, b); }
  }

  // ---------- reading ----------

  /** The bytes still to be read. */
  ghost function Readable(ba: ByteArray): seq<byte>
    requires ba.Valid()
    reads ba, ba.Repr
  {
    ba.flat[ba.position..ba.size]
  }

  /** readFuint16 and its kin; None stands for std::out_of_range. */
  method ReadFixed(ba: ByteArray, w: nat, hostLE: bool) returns (r: Option<nat>)
    requires ba.Valid() && 1 <= w
    modifies ba`position, ba`cur, ba`curIdx
    ensures ba.Valid()
    ensures r.None? <==> |old(Readable(ba))| < w
    ensures r.None? ==> ba.position == old(ba.position)
    ensures r.Some? ==> ba.position == old(ba.position) + w
    ensures r.Some? ==> r.value == UnWire(old(Readable(ba))[..w], ba.littleEndian)
  {
    ghost var s := Readable(ba);
    var bytes := ba.Read(w);
    if bytes.OutOfRange? { return None; }
    assert bytes.bytes == s[..w];
    HostOrder(bytes.bytes, ba.littleEndian, hostLE);
    var v := HostValue(bytes.bytes, hostLE);
    r := Some(if ba.littleEndian == hostLE then v else Byteswap(v, w));
  }

  /** Copying into a host integer and swapping when the orders differ reads the wire order. */
  lemma HostOrder(s: seq<byte>, little: bool, hostLE: bool)
    ensures var v := HostValue(s, hostLE);
            (if little == hostLE then v else Byteswap(v, |s|)) == UnWire(s, little)
  {
    ToFromLE(s);
    ToFromLE(Reverse(s));
    ReverseTwice(s);
  }

  /** readUint32 and readUint64: at most 5 or 10 single-byte reads, the sum truncated to the
      width. */
  method ReadVarint(ba: ByteArray, w: nat) returns (r: Option<nat>)
    requires ba.Valid() && w in {4, 8}
    modifies ba`position, ba`cur, ba`curIdx
    ensures ba.Valid()
    ensures var d := ReadVar(old(Readable(ba)), MaxVar(w));
            match d
            case Short => r == None && ba.position == ba.size
            case Var(v, u) => r == Some(v % Modulus(w)) && ba.position == old(ba.position) + u
  {
    hide ByteArray.Chain, ByteArray.CursorAt, ReadVar, Resume, WithPart;
    ghost var s, acc: nat, pos0 := Readable(ba), 0, ba.position;
    var result: nat, g: nat, max, done := 0, 0, MaxVar(w), false;
    assert s[0..] == s;
    ResumeEnds(0, 0, s, max);
    while g < max && !done
      invariant ba.Valid() && g <= max && g <= |s| && ba.position == pos0 + g
      invariant result == acc % Modulus(w)
      invariant !done ==> ReadVar(s, max) == Resume(acc, g, ReadVar(s[g..], max - g))
      invariant done ==> ReadVar(s, max) == Var(acc, g)
    {
      var b := ReadByte(ba);
      ResumeEnds(acc, g, s, max);
      if b.None? { return None; }
      assert b.value == s[g];
      ResumeStep(acc, g, s, max);
      AddPart(acc, b.value, g, w);
      result := WithPart(result, b.value, g) % Modulus(w);
      acc, g := WithPart(acc, b.value, g), g + 1;
      done := b.value < 128;
    }
    ResumeEnds(acc, g, s, max);
    return Some(result);
  }

  /** readFuint8. */
  method ReadByte(ba: ByteArray) returns (r: Option<byte>)
    requires ba.Valid()
    modifies ba`position, ba`cur, ba`curIdx
    ensures ba.Valid()
    ensures r.None? <==> old(ba.position) == ba.size
    ensures r.None? ==> ba.position == old(ba.position)
    ensures r.Some? ==> ba.position == old(ba.position) + 1 && r.value == ba.flat[old(ba.position)]
  {
    var v := ba.Read(1);
    r := if v.Bytes? then Some(v.bytes[0]) else None;
  }

  /** `acc` with the low seven bits of byte number `g` added in. */
  function WithPart(acc: nat, b: byte, g: nat): nat {
    acc + b % 128 * Pow128(g)
  }

  /** The outcome of a read that has already summed `acc` from `g` bytes. */
  ghost function Resume(acc: nat, g: nat, r: VarResult): VarResult {
    match r
    case Short => Short
    case Var(v, u) => Var(acc + Pow128(g) * v, g + u)
  }

  /** Where a read starts, runs out of bytes, and stops at its limit. */
  lemma {:induction false} ResumeEnds(acc: nat, g: nat, s: seq<byte>, max: nat)
    requires g <= max && g <= |s|
    ensures acc == 0 && g == 0 ==> Resume(acc, g, ReadVar(s, max)) == ReadVar(s, max)
    ensures g == |s| && g < max ==> Resume(acc, g, ReadVar(s[g..], max - g)) == Short
    ensures g == max ==> Resume(acc, g, ReadVar(s[g..], max - g)) == Var(acc, g)
  {
  }

  lemma {:induction false} ResumeStep(acc: nat, g: nat, s: seq<byte>, max: nat)
    requires g < max && g < |s|
    ensures var r := Resume(acc, g, ReadVar(s[g..], max - g));
            var acc' := WithPart(acc, s[g], g);
            r == if s[g] < 128 then Var(acc', g + 1) else Resume(acc', g + 1, ReadVar(s[g + 1..], max - g - 1))
  {
    hide ReadVar, Pow128;
    assert s[g..][1..] == s[g + 1..];
    ReadVarStep(s[g..], max - g);
    PowNext(g);
    var rest := ReadVar(s[g + 1..], max - g - 1);
    if s[g] < 128 {
      assert Pow128(g) * s[g] == s[g] * Pow128(g);
    } else if rest.Var? {
      Regroup(Pow128(g), s[g] - 128, rest.value);
    }
  }

  lemma ReadVarStep(s: seq<byte>, max: nat)
    requires max > 0 && s != []
    ensures var rest := ReadVar(s[1..], max - 1);
            ReadVar(s, max) == if s[0] < 128 then Var(s[0], 1)
                               else if rest.Short? then Short else Var(s[0] - 128 + 128 * rest.value, rest.used + 1)
  {
  }

  lemma Regroup(p: nat, d: nat, v: nat)
    ensures p * (d + 128 * v) == d * p + (128 * p) * v
  {
    assert p * (d + 128 * v) == p * d + p * (128 * v);
    assert p * (128 * v) == (128 * p) * v;
  }

  lemma AddPart(acc: nat, b: byte, g: nat, w: nat)
    ensures WithPart(acc % Modulus(w), b, g) % Modulus(w) == WithPart(acc, b, g) % Modulus(w)
  {
  }

  // ---------- whole items ----------

  datatype Outcome = Read(it: Item) | Throws | NullDeref

  /** Dispatch to the typed read. It agrees with Decode on the readable bytes, except that the
      zero-length body of an empty string is read through a null cursor when the prefix ends
      exactly at the capacity. */
  method ReadItem(ba: ByteArray, k: Kind, hostLE: bool) returns (r: Outcome)
    requires ba.Valid() && KindOk(k)
    modifies ba`position, ba`cur, ba`curIdx
    ensures ba.Valid()
    ensures match Decode(k, old(Readable(ba)), ba.littleEndian)
            case TooShort => r == Throws
            case Got(it, u) =>
              && ba.position == old(ba.position) + u
              && r == if EmptyString(it) && ba.position == ba.capacity then NullDeref else Read(it)
  {
    if k.KStrF? || k.KStrV? {
      r := ReadString(ba, k, hostLE);
    } else {
      r := ReadNumber(ba, k, hostLE);
    }
  }

  method ReadNumber(ba: ByteArray, k: Kind, hostLE: bool) returns (r: Outcome)
    requires ba.Valid() && KindOk(k) && !k.KStrF? && !k.KStrV?
    modifies ba`position, ba`cur, ba`curIdx
    ensures ba.Valid()
    ensures match Decode(k, old(Readable(ba)), ba.littleEndian)
            case TooShort => r == Throws
            case Got(it, u) => r == Read(it) && ba.position == old(ba.position) + u
  {
    if k.KFixedU? || k.KFixedS? {
      var v := ReadFixed(ba, k.w, hostLE);
      if v.None? { return Throws; }
      r := Read(if k.KFixedU? then FixedU(k.w, v.value) else FixedS(k.w, Signed(v.value, k.w)));
    } else {
      var v := ReadVarint(ba, k.w);
      if v.None? { return Throws; }
      r := Read(if k.KVarU? then VarU(k.w, v.value) else VarS(k.w, DecodeZigzag(v.value)));
    }
  }

  /** readStringF16, readStringF32, readStringF64 and readStringVint. */
  method ReadString(ba: ByteArray, k: Kind, hostLE: bool) returns (r: Outcome)
    requires ba.Valid() && KindOk(k) && (k.KStrF? || k.KStrV?)
    modifies ba`position, ba`cur, ba`curIdx
    ensures ba.Valid()
    ensures match DecodeString(k, old(Readable(ba)), Prefix(k, old(Readable(ba)), old(ba.littleEndian)))
            case TooShort => r == Throws
            case Got(it, u) =>
              && ba.position == old(ba.position) + u
              && r == if EmptyString(it) && ba.position == ba.capacity then NullDeref else Read(it)
  {
    hide ByteArray.Chain, ByteArray.CursorAt, Prefix;
    ghost var s := Readable(ba);
    var n := ReadPrefix(ba, k, hostLE);
    if n.None? { return Throws; }
    ghost var used := ba.position - old(ba.position);
    assert Readable(ba) == s[used..];
    var body := ReadBody(ba, n.value);
    if body.OutOfRange? { return Throws; }
    if body.NullCursor? { return NullDeref; }
    SliceOfSlice(s, used, |s|, 0, n.value);
    r := Read(StringItem(k, body.bytes));
    assert body.bytes == s[used..used + n.value] && |body.bytes| == n.value;
    assert DecodeString(k, s, Prefix(k, s, ba.littleEndian)) == Got(r.it, used + n.value);
  }

  method ReadPrefix(ba: ByteArray, k: Kind, hostLE: bool) returns (n: Option<nat>)
    requires ba.Valid() && KindOk(k) && (k.KStrF? || k.KStrV?)
    modifies ba`position, ba`cur, ba`curIdx
    ensures ba.Valid()
    ensures match Prefix(k, old(Readable(ba)), ba.littleEndian)
            case Short => n == None
            case Var(v, u) => n == Some(v) && ba.position == old(ba.position) + u
  {
    if k.KStrF? {
      n := ReadFixed(ba, k.w, hostLE);
    } else {
      n := ReadVarint(ba, 8);
    }
  }

  /** The body of a string of known length. */
  method ReadBody(ba: ByteArray, n: nat) returns (r: ReadResult)
    requires ba.Valid()
    modifies ba`position, ba`cur, ba`curIdx
    ensures ba.Valid()
    ensures r.OutOfRange? <==> |old(Readable(ba))| < n
    ensures r.NullCursor? <==> n == 0 && old(ba.position) == ba.capacity
    ensures !r.OutOfRange? ==> ba.position == old(ba.position) + n
    ensures r.Bytes? ==> r.bytes == old(Readable(ba))[..n]
  {
    ghost var s := Readable(ba);
    r := ba.Read(n);
    if r.Bytes? { assert r.bytes == s[..n]; }
  }
}
