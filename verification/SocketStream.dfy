/** SocketStream's transfers between a socket and a ByteArray, through the scatter and gather
    views. What the kernel delivers or accepts is a parameter. */
module SocketStreams {
  import opened Blocks
  import opened ByteArrays
  import opened Words

  /** The outcome of one recv on the fragments: bytes, or a code that is zero or negative. */
  datatype Received = Data(bytes: seq<byte>) | Failed(code: int)

  /** Receive into the array. Whatever the block size, the array ends up as if the received
      bytes had been written at the position. */
  method ReadInto(ba: ByteArray, connected: bool, length: nat, kernel: Received) returns (rt: int)
    requires ba.Valid()
    requires kernel.Data? ==> 0 < |kernel.bytes| <= length
    requires kernel.Failed? ==> kernel.code <= 0
    modifies ba, ba.Repr
    ensures ba.Valid() && fresh(ba.Repr - old(ba.Repr))
    ensures rt > 0 <==> connected && kernel.Data?
    ensures rt <= 0 ==> rt == if connected then kernel.code else -1
    ensures rt > 0 ==>
              && rt == |kernel.bytes|
              && Stored(old(ba.flat), ba.flat, old(ba.position), kernel.bytes)
              && ba.position == old(ba.position) + rt
              && ba.size == if ba.position > old(ba.size) then ba.position else old(ba.size)
    ensures rt <= 0 ==>
              && unchanged(ba`position) && unchanged(ba`size)
              && old(ba.capacity) <= ba.capacity && ba.flat[..old(ba.capacity)] == old(ba.flat)
  {
    hide ByteArray.Chain, Stored, Splice;
    if !connected { return -1; }
    var iovs := ba.GetWriteBuffers(length);
    if kernel.Failed? { return kernel.code; }
    ghost var grown := ba.flat;
    ba.Scatter(iovs, ba.curIdx, ba.position % ba.baseSize, length, kernel.bytes);
    SpliceStored(old(ba.flat), grown, old(ba.position), kernel.bytes);
    rt := |kernel.bytes|;
    var ok := ba.SetPosition(ba.position + rt);
  }

  /** Send from the array: the bytes accepted by the kernel are the next readable ones, and the
      position moves past exactly those. */
  method WriteFrom(ba: ByteArray, connected: bool, length: nat, accepted: int)
    returns (rt: int, ghost sent: seq<byte>)
    requires ba.Valid()
    requires accepted <= length && accepted <= ba.size - ba.position
    modifies ba`position, ba`size, ba`cur, ba`curIdx
    ensures ba.Valid() && unchanged(ba`size)
    ensures rt == if connected then accepted else -1
    ensures rt > 0 ==> ba.position == old(ba.position) + rt && sent == ba.flat[old(ba.position)..ba.position]
    ensures rt <= 0 ==> ba.position == old(ba.position)
  {
    if !connected { return -1, []; }
    var iovs, total := ba.GetReadBuffers(length);
    rt := accepted;
    sent := [];
    if rt > 0 {
      sent := Gather(iovs)[..rt];
      var ok := ba.SetPosition(ba.position + rt);
    }
  }

  ghost function Joined(pieces: seq<seq<byte>>): seq<byte> {
    if pieces == [] then [] else Joined(pieces[..|pieces| - 1]) + pieces[|pieces| - 1]
  }

  /** Stream::readFixSize on a ByteArray. The stream delivers the pieces one by one and then, if
      that is not enough, fails with `code`: however the bytes are cut, the array receives them as
      one contiguous write. The length comes back as an int, so a complete read is reported as one
      exactly when the low 32 bits of the length are a positive int; a length from 2^63 on is
      negative to the loop, which reads nothing. */
  method ReadFixSize(ba: ByteArray, length: u64, pieces: seq<seq<byte>>, code: int) returns (rt: int)
    requires ba.Valid() && code <= 0
    requires forall i :: 0 <= i < |pieces| ==> 0 < |pieces[i]|
    requires |Joined(pieces)| <= length
    modifies ba, ba.Repr
    ensures ba.Valid() && fresh(ba.Repr - old(ba.Repr))
    ensures length < 0x8000_0000_0000_0000 ==>
              && rt == (if |Joined(pieces)| == length then ToInt(length) else code)
              && (rt > 0 <==> |Joined(pieces)| == length && 0 < length % 0x1_0000_0000 < 0x8000_0000)
              && ba.position == old(ba.position) + |Joined(pieces)|
              && ba.size == (if ba.position > old(ba.size) then ba.position else old(ba.size))
              && Stored(old(ba.flat), ba.flat, old(ba.position), Joined(pieces))
    ensures length >= 0x8000_0000_0000_0000 ==>
              && rt == ToInt(length)
              && ba.position == old(ba.position) && ba.size == old(ba.size) && ba.flat == old(ba.flat)
  {
    hide ByteArray.Chain, ByteArray.CursorAt, Stored;
    var left, i := ToLong(length), 0;
    assert pieces[..0] == [];
    StoredNothing(ba.flat, ba.position);
    if left < 0 {
      return ToInt(length);
    }
    while left > 0
      invariant ba.Valid() && fresh(ba.Repr - old(ba.Repr))
      invariant 0 <= left && 0 <= i <= |pieces| && |Joined(pieces[..i])| + left == length
      invariant ba.position == old(ba.position) + |Joined(pieces[..i])|
      invariant ba.size == if ba.position > old(ba.size) then ba.position else old(ba.size)
      invariant Stored(old(ba.flat), ba.flat, old(ba.position), Joined(pieces[..i]))
    {
      PiecesLeft(pieces, i);
      ghost var before := ba.flat;
      if i == |pieces| {
        assert pieces[..i] == pieces;
        rt := ReadInto(ba, true, left, Failed(code));
        StoredGrown(old(ba.flat), before, ba.flat, old(ba.position), Joined(pieces));
        return;
      }
      assert pieces[..i + 1][..i] == pieces[..i];
      rt := ReadInto(ba, true, left, Data(pieces[i]));
      StoredAgain(old(ba.flat), before, ba.flat, old(ba.position), Joined(pieces[..i]), pieces[i]);
      left := left - rt;
      i := i + 1;
    }
    PiecesLeft(pieces, i);
    assert pieces[..i] == pieces;
    rt := ToInt(length);
  }

  lemma {:induction false} JoinedPrefix(pieces: seq<seq<byte>>, i: nat)
    requires i <= |pieces|
    ensures |Joined(pieces[..i])| <= |Joined(pieces)|
    decreases |pieces|
  {
    if i < |pieces| {
      JoinedPrefix(pieces[..|pieces| - 1], i);
      assert pieces[..|pieces| - 1][..i] == pieces[..i];
    } else {
      assert pieces[..i] == pieces;
    }
  }

  /** Pieces remain exactly as long as bytes do. */
  lemma PiecesLeft(pieces: seq<seq<byte>>, i: nat)
    requires i <= |pieces| && forall j :: 0 <= j < |pieces| ==> 0 < |pieces[j]|
    ensures i < |pieces| <==> |Joined(pieces[..i])| < |Joined(pieces)|
    ensures i < |pieces| ==> |Joined(pieces[..i])| + |pieces[i]| <= |Joined(pieces)|
  {
    if i < |pieces| {
      JoinedPrefix(pieces, i + 1);
      assert pieces[..i + 1][..i] == pieces[..i];
    } else {
      assert pieces[..i] == pieces;
    }
  }
}
