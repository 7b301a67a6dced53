/** Any list of mixed typed writes into a fresh array, read back from position 0 with the
    matching reads: the values come back and nothing is left over, for every block size, except
    in one situation that the writer can see coming. */
module RoundTrip {
  import opened Blocks
  import opened ByteArrays
  import opened Codec
  import opened TypedAccess

  ghost predicate AllOk(items: seq<Item>) {
    forall i :: 0 <= i < |items| ==> ItemOk(items[i])
  }

  /** The items on the wire, one after the other. */
  ghost function EncodeAll(items: seq<Item>, little: bool): (b: seq<byte>)
    requires AllOk(items)
    ensures |b| >= |items|
  {
    if items == [] then [] else EncodeAll(items[..|items| - 1], little) + Encode(items[|items| - 1], little)
  }

  /** Cut the wire bytes around item `i`; `rest` is what the items after it encode to. */
  lemma {:induction false} EncodeSplit(items: seq<Item>, i: nat, little: bool) returns (rest: seq<byte>)
    requires AllOk(items) && i < |items|
    ensures |rest| >= |items| - i - 1
    ensures EncodeAll(items, little) == EncodeAll(items[..i], little) + (Encode(items[i], little) + rest)
  {
    hide Encode, ItemOk;
    var n := |items| - 1;
    if i == n {
      rest := [];
    } else {
      rest := EncodeSplit(items[..n], i, little);
      assert items[..n][..i] == items[..i];
      rest := rest + Encode(items[n], little);
    }
  }

  /** The list of writes is one write of the concatenated encodings. */
  method WriteAll(ba: ByteArray, items: seq<Item>, hostLE: bool)
    requires ba.Valid() && AllOk(items)
    modifies ba, ba.Repr
    ensures Wrote(ba, EncodeAll(items, ba.littleEndian))
  {
    hide ByteArray.Chain, ByteArray.CursorAt, Stored, GrownCapacity, Encode, ItemOk, Wire, Varint;
    ghost var little := ba.littleEndian;
    StoredNothing(ba.flat, ba.position);
    for i := 0 to |items|
      invariant Wrote(ba, EncodeAll(items[..i], little))
    {
      ghost var flat1 := ba.flat;
      WriteItem(ba, items[i], hostLE);
      assert items[..i + 1][..i] == items[..i];
      ghost var x, y := EncodeAll(items[..i], little), Encode(items[i], little);
      StoredAgain(old(ba.flat), flat1, ba.flat, old(ba.position), x, y);
      GrownTwice(old(ba.capacity), old(ba.position), |x|, |y|, ba.baseSize);
    }
    assert items[..|items|] == items;
  }

  /** A list ending in an empty string whose encoding fills whole blocks. */
  ghost predicate EndsOnNull(items: seq<Item>, little: bool, base: nat)
    requires AllOk(items) && 0 < base
  {
    items != [] && EmptyString(items[|items| - 1]) && |EncodeAll(items, little)| % base == 0
  }

  /** Reading back what `WriteAll` stored. The read of an empty string's body goes through the
      null cursor exactly when `EndsOnNull`. */
  method ReadBack(ba: ByteArray, ghost items: seq<Item>, kinds: seq<Kind>, hostLE: bool)
    returns (ok: bool, out: seq<Item>)
    requires ba.Valid() && AllOk(items) && ba.position == 0
    requires |kinds| == |items| && forall i :: 0 <= i < |items| ==> kinds[i] == KindOf(items[i])
    requires Readable(ba) == EncodeAll(items, ba.littleEndian)
    requires ba.capacity == GrownCapacity(ba.baseSize, 0, |EncodeAll(items, ba.littleEndian)|, ba.baseSize)
    modifies ba`position, ba`cur, ba`curIdx
    ensures ba.Valid()
    ensures ok <==> !EndsOnNull(items, ba.littleEndian, ba.baseSize)
    ensures ok ==> out == items && ba.position == ba.size
  {
    hide ByteArray.Chain, ByteArray.CursorAt, GrownCapacity, Encode, ItemOk, Decode;
    out := [];
    ghost var all := EncodeAll(items, ba.littleEndian);
    for i := 0 to |kinds|
      invariant ba.Valid() && out == items[..i]
      invariant ba.position == |EncodeAll(items[..i], ba.littleEndian)|
      invariant i > 0 ==> !(EmptyString(items[i - 1]) && ba.position == ba.capacity)
    {
      ghost var used := ReadsNext(ba, items, i, all);
      NullAt(items, i, ba.littleEndian, ba.baseSize);
      var r := ReadItem(ba, kinds[i], hostLE);
      if !r.Read? { return false, out; }
      out := out + [r.it];
    }
    assert items[..|items|] == items;
    if items != [] {
      NullAt(items, |items| - 1, ba.littleEndian, ba.baseSize);
    }
    ok := true;
  }

  /** Item `i` decodes from what is left after the items before it. */
  lemma {:induction false} ReadsNext(ba: ByteArray, items: seq<Item>, i: nat, all: seq<byte>) returns (used: nat)
    requires ba.Valid() && AllOk(items) && i < |items| && all == EncodeAll(items, ba.littleEndian)
    requires ba.position == |EncodeAll(items[..i], ba.littleEndian)| && ba.size == |all|
    requires ba.flat[..ba.size] == all
    ensures KindOk(KindOf(items[i]))
    ensures used == |Encode(items[i], ba.littleEndian)|
    ensures Decode(KindOf(items[i]), Readable(ba), ba.littleEndian) == Got(items[i], used)
    ensures |EncodeAll(items[..i + 1], ba.littleEndian)| == ba.position + used
  {
    hide ByteArray.Chain, ByteArray.CursorAt, Encode, Decode;
    var little := ba.littleEndian;
    var rest := EncodeSplit(items, i, little);
    DecodeEncode(items[i], little, rest);
    assert Readable(ba) == ba.flat[..ba.size][ba.position..] == Encode(items[i], little) + rest;
    used := |Encode(items[i], little)|;
    assert items[..i + 1][..i] == items[..i];
  }

  /** The capacity of a fresh array after `total` bytes is a whole number of blocks, the least
      that holds them, and at least one. */
  lemma FreshCapacity(total: nat, base: nat) returns (k: nat)
    requires 0 < base
    ensures GrownCapacity(base, 0, total, base) == Off(k, base) >= total
    ensures 1 <= k && (k == 1 || Off(k - 1, base) < total)
  {
    k := if total <= base then 1 else 1 + CeilDiv(total - base, base);
    OffAdd(1, k - 1, base);
  }

  lemma MultipleIsOff(total: nat, base: nat)
    requires 0 < base
    ensures total % base == 0 <==> total == Off(total / base, base)
  {
    OffIsProduct(total / base, base);
    assert total == (total / base) * base + total % base;
  }

  /** After the bytes of a fresh array's only write, a position is the capacity exactly when it
      is the end of a nonempty encoding that fills whole blocks. */
  lemma CapacityReached(pos: nat, total: nat, base: nat)
    requires 0 < base && pos <= total
    ensures pos == GrownCapacity(base, 0, total, base) <==> pos == total && 0 < total && total % base == 0
  {
    hide GrownCapacity;
    var k := FreshCapacity(total, base);
    MultipleIsOff(total, base);
    LocateInv(k, 0, base);
    var q := total / base;
    if q < k { OffMono(q, k - 1, base); } else { OffMono(k, q, base); }
  }

  /** The null cursor is met at item `i` exactly when `i` is the last item and `EndsOnNull`. */
  lemma {:induction false} NullAt(items: seq<Item>, i: nat, little: bool, base: nat)
    requires AllOk(items) && i < |items| && 0 < base
    ensures EmptyString(items[i]) &&
            |EncodeAll(items[..i + 1], little)| == GrownCapacity(base, 0, |EncodeAll(items, little)|, base)
            <==> i == |items| - 1 && EndsOnNull(items, little, base)
  {
    hide GrownCapacity, Encode;
    var rest := EncodeSplit(items, i, little);
    assert items[..i + 1][..i] == items[..i];
    CapacityReached(|EncodeAll(items[..i + 1], little)|, |EncodeAll(items, little)|, base);
    if i == |items| - 1 { assert items[..i + 1] == items; }
  }

  function Kinds(items: seq<Item>): (k: seq<Kind>)
    ensures |k| == |items| && forall i :: 0 <= i < |items| ==> k[i] == KindOf(items[i])
  {
    seq(|items|, i requires 0 <= i < |items| => KindOf(items[i]))
  }

  /** The whole trip, with writer and reader on hosts of any byte order: write everything into a
      fresh array, setPosition(0), read everything. */
  method WriteThenRead(base: nat, items: seq<Item>, little: bool, writer: bool, reader: bool)
    returns (ok: bool, out: seq<Item>, readSize: nat)
    requires 0 < base && AllOk(items)
    ensures ok <==> !EndsOnNull(items, little, base)
    ensures ok ==> out == items && readSize == 0
  {
    hide ByteArray.Chain, ByteArray.CursorAt, GrownCapacity, Encode, ItemOk, EndsOnNull;
    var ba := new ByteArray(base);
    ba.SetIsLittleEndian(little);
    WriteAll(ba, items, writer);
    var moved := ba.SetPosition(0);
    assert Readable(ba) == EncodeAll(items, little);
    ok, out := ReadBack(ba, items, Kinds(items), reader);
    readSize := ba.size - ba.position;
  }

  /** The exception is real: one empty varint-prefixed string in an array of one-byte blocks. */
  lemma EmptyStringMeetsNull()
    ensures AllOk([StrV([])]) && EndsOnNull([StrV([])], false, 1)
  {
    var items := [StrV([])];
    assert EncodeAll(items[..0], false) == [];
  }
}
