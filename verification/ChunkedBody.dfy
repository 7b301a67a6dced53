/** HttpConnection::recvResponse after the headers: reassembly of a chunked body (section 4.1 of
    RFC 7230) from a stream that arrives in pieces of any size, and the content-length branch. */
module ChunkedBody {

  import opened Options
  import opened Blocks
  import opened Words
  import opened ChunkLines

  // ---------- the functions ----------

  /** The connection after `left` bytes were read, at most `room` at a time; None when the peer sends
      fewer. */
  function ReadExact(net: Net, left: nat, room: nat): (r: Option<Net>)
    requires 0 < room
    ensures r.Some? <==> left <= |net.rest|
    ensures r.Some? ==> r.value.rest == net.rest[left..]
    decreases left
  {
    if left == 0 then Some(net) else
    var k := Got(net, Least(left, room));
    if k == 0 then None else
    DropDrop(net.rest, k, left);
    ReadExact(After(net, Least(left, room)), left - k, room)
  }

  lemma DropDrop(s: seq<byte>, k: nat, n: nat)
    requires k <= n && k <= |s|
    ensures n <= |s| ==> s[k..][n - k..] == s[n..]
  {
  }

  lemma InBuffer(buf: seq<byte>, rest: seq<byte>, size: nat)
    requires size + 2 <= |buf|
    ensures (buf + rest)[..size] == buf[..size] && (buf + rest)[size + 2..] == buf[size + 2..] + rest
  {
  }

  lemma BeyondBuffer(buf: seq<byte>, rest: seq<byte>, size: nat)
    requires |buf| < size + 2 <= |buf| + |rest|
    ensures [] + rest[size + 2 - |buf|..] == (buf + rest)[size + 2..]
  {
  }

  /** Payload and line end appended, then two bytes taken off. */
  lemma CutBack(body: seq<byte>, buf: seq<byte>, rest: seq<byte>, size: nat)
    requires |buf| < size + 2 <= |buf| + |rest|
    ensures var all := (body + buf) + rest[..size + 2 - |buf|];
            |all| == |body| + size + 2 && all[..|all| - 2] == body + (buf + rest)[..size]
  {
    var all := (body + buf) + rest[..size + 2 - |buf|];
    assert all[..|body| + size] == body + (buf + rest)[..size];
  }

  datatype Piece = Piece(data: seq<byte>, buf: seq<byte>, net: Net)

  /** The payload and the two bytes after it. */
  function ReadPayload(buf: seq<byte>, net: Net, size: nat, room: nat): (r: Option<Piece>)
    requires 0 < room
    ensures r.Some? <==> size + 2 <= |buf| + |net.rest|
    ensures r.Some? ==> && r.value.data == (buf + net.rest)[..size]
                        && r.value.buf + r.value.net.rest == (buf + net.rest)[size + 2..]
  {
    if size + 2 <= |buf| then
      InBuffer(buf, net.rest, size);
      Some(Piece(buf[..size], buf[size + 2..], net))
    else
      var r := ReadExact(net, size + 2 - |buf|, room);
      if r.None? then None else
      BeyondBuffer(buf, net.rest, size);
      Some(Piece((buf + net.rest)[..size], [], r.value))
  }

  /** content_len: strtol stops at the largest long, and the long becomes an int. It is the size that
      was written exactly when that is below 2^31. */
  function ContentLen(size: nat): (c: int)
    ensures -0x8000_0000 <= c < 0x8000_0000
    ensures c == size <==> size < 0x8000_0000
    ensures size < 0x8000_0000_0000_0000 ==> (size - c) % 0x1_0000_0000 == 0
    ensures size >= 0x8000_0000_0000_0000 ==> c == -1
  {
    ToInt(if size < TWO_63 then size else TWO_63 - 1)
  }

  /** The largest content_len to which 2 can be added. */
  const MAX_CHUNK := TWO_31 - 3

  /** A body, a closed connection, std::length_error, or an int overflow. */
  datatype Outcome = Body(data: seq<byte>) | Closed | Throws | Overflow

  /** The outer loop, with the body so far. A negative content_len is taken for a huge length and
      thrown, except that -1 with nothing in the buffer reads one byte and cuts two off. */
  function Receive(body: seq<byte>, buf: seq<byte>, net: Net, room: nat): Outcome
    requires 0 < room
    decreases |buf| + |net.rest|
  {
    var h := ReadHead(buf, net, room);
    if h.None? then Closed else
    var size := ContentLen(h.value.size);
    if size > MAX_CHUNK then Overflow
    else if size < 0 then ReceiveNegative(body, h.value, size) else
    var p := ReadPayload(h.value.buf, h.value.net, size, room);
    if p.None? then Closed else
    assert |p.value.buf + p.value.net.rest| < |buf| + |net.rest|;
    if size == 0 then Body(body + p.value.data) else Receive(body + p.value.data, p.value.buf, p.value.net, room)
  }

  function ReceiveNegative(body: seq<byte>, h: Head, size: int): Outcome {
    if size + 2 <= |h.buf| then Throws
    else if h.net.rest == [] then Closed
    else if body == [] then Throws
    else Body(body[..|body| - 1])
  }

  // ---------- the loops ----------

  /** The body is filled with payload and line end together and cut back by two. */
  method ReadPayloadLoop(body: seq<byte>, buf: seq<byte>, net: Net, size: nat, room: nat)
    returns (ok: bool, body': seq<byte>, buf': seq<byte>, net': Net)
    requires 0 < room
    ensures var p := ReadPayload(buf, net, size, room);
            ok == p.Some? && (ok ==> body' == body + p.value.data && buf' == p.value.buf && net' == p.value.net)
    ensures ok ==> |buf'| <= |buf|
  {
    hide ReadExact;
    body', buf', net' := body, buf, net;
    if size + 2 <= |buf| {
      body' := body + buf[..size];
      buf' := buf[size + 2..];
      return true, body', buf', net';
    }
    var left := size - |buf| + 2;
    ok, body', net' := ReadLeft(body + buf, net, left, room);
    if ok {
      CutBack(body, buf, net.rest, size);
      body' := body'[..|body'| - 2];
    }
    buf' := [];
  }

  method ReadLeft(body: seq<byte>, net: Net, n: nat, room: nat) returns (ok: bool, body': seq<byte>, net': Net)
    requires 0 < room
    ensures var r := ReadExact(net, n, room);
            ok == r.Some? && (ok ==> body' == body + net.rest[..n] && net' == r.value)
  {
    hide ReadExact;
    var left := n;
    body', net' := body, net;
    while left > 0
      invariant 0 <= left <= n && n - left <= |net.rest| && net'.rest == net.rest[n - left..]
      invariant body' == body + net.rest[..n - left]
      invariant ReadExact(net', left, room) == ReadExact(net, n, room)
    {
      var rt := Got(net', Least(left, room));
      ExactStep(net', left, room);
      if rt == 0 {
        return false, body', net';
      }
      Appending(body, net.rest, n - left, rt);
      body' := body' + net'.rest[..rt];
      net' := After(net', Least(left, room));
      left := left - rt;
    }
    ExactNone(net', room);
    return true, body', net';
  }

  lemma Appending(body: seq<byte>, s: seq<byte>, i: nat, k: nat)
    requires i + k <= |s|
    ensures (body + s[..i]) + s[i..][..k] == body + s[..i + k] && s[i..][k..] == s[i + k..]
  {
  }

  lemma ExactStep(net: Net, left: nat, room: nat)
    requires 0 < room && 0 < left
    ensures var n := Least(left, room);
            ReadExact(net, left, room) ==
            if Got(net, n) == 0 then None else ReadExact(After(net, n), left - Got(net, n), room)
  {
  }

  lemma ExactNone(net: Net, room: nat)
    requires 0 < room
    ensures ReadExact(net, 0, room) == Some(net)
  {
  }

  method RecvChunked(buf: seq<byte>, net: Net, room: nat) returns (r: Outcome)
    requires 0 < room && |buf| <= room
    ensures r == Receive([], buf, net, room)
  {
    hide ReadHead, ReadPayload, ContentLen, ReadExact;
    var body, data, conn, done := [], buf, net, false;
    while !done
      invariant |data| <= room
      invariant Receive([], buf, net, room) == if done then Body(body) else Receive(body, data, conn, room)
      decreases !done, |data| + |conn.rest|
    {
      var h := ReadHeadLoop(data, conn, room);
      if h.None? {
        return Closed;
      }
      ghost var had := |data| + |conn.rest|;
      var size := ContentLen(h.value.size);
      if size > MAX_CHUNK {
        return Overflow;
      }
      var ok;
      if size < 0 {
        if size + 2 <= |h.value.buf| {
          return Throws;
        }
        ok, body, conn := ReadLeft(body, h.value.net, size - |h.value.buf| + 2, room);
        if !ok {
          return Closed;
        }
        if |body| < 2 {
          return Throws;
        }
        return Body(body[..|body| - 2]);
      }
      ok, body, data, conn := ReadPayloadLoop(body, h.value.buf, h.value.net, size, room);
      if !ok {
        return Closed;
      }
      assert |data + conn.rest| < had;
      done := size == 0;
    }
    return Body(body);
  }

  /** When the content-length branch succeeds: the leftover is enough, or the rest comes and the count
      of its bytes, which readFixSize returns as an int, is positive. */
  predicate Served(length: int, have: nat, sent: nat) {
    length <= have || (length - have <= sent && 0 < (length - have) % 0x1_0000_0000 < 0x8000_0000)
  }

  /** Below 2^31 missing bytes that is just whether they come; at 2^31, and at every multiple of
      2^32, it fails although they do. */
  lemma ServedExact(length: int, have: nat, sent: nat)
    ensures length - have < 0x8000_0000 ==> (Served(length, have, sent) <==> length <= have + sent)
    ensures length - have == 0x8000_0000 ==> !Served(length, have, sent)
    ensures length > have && (length - have) % 0x1_0000_0000 == 0 ==> !Served(length, have, sent)
  {
  }

  /** The content-length branch: the leftover first, then whatever is missing. */
  method RecvFixed(contentLength: u64, buf: seq<byte>, net: Net) returns (r: Option<seq<byte>>)
    ensures var length := ToLong(contentLength);
            && (length <= 0 ==> r == Some([]))
            && (length > 0 ==> (r.Some? <==> Served(length, |buf|, |net.rest|)))
            && (length > 0 && r.Some? ==> length <= |buf| + |net.rest| && r.value == (buf + net.rest)[..length])
  {
    var body, length := [], ToLong(contentLength);
    if length > 0 {
      if length >= |buf| {
        body := buf;
      } else {
        body := buf[..length];
      }
      length := length - |buf|;
      if length > 0 {
        var rt, body', _ := ReadFixSize(body, net, length);
        if rt <= 0 {
          return None;
        }
        body := body';
      }
      assert ToLong(contentLength) <= |buf| + |net.rest| ==> body == (buf + net.rest)[..ToLong(contentLength)];
    }
    return Some(body);
  }

  /** Stream::readFixSize into a buffer: the int it returns, and the bytes. */
  method ReadFixSize(body: seq<byte>, net: Net, length: u64) returns (rt: int, body': seq<byte>, net': Net)
    requires 0 < length < TWO_63
    ensures rt == if length <= |net.rest| then ToInt(length) else 0
    ensures length <= |net.rest| ==> body' == body + net.rest[..length]
  {
    var ok;
    ok, body', net' := ReadLeft(body, net, length, length);
    rt := if ok then ToInt(length) else 0;
  }

  // ---------- any fragmentation ----------

  datatype Chunk = Chunk(line: seq<byte>, payload: seq<byte>)

  function Wire(chunks: seq<Chunk>): seq<byte> {
    if chunks == [] then [] else chunks[0].line + chunks[0].payload + [13, 10] + Wire(chunks[1..])
  }

  function Payloads(chunks: seq<Chunk>): seq<byte> {
    if chunks == [] then [] else chunks[0].payload + Payloads(chunks[1..])
  }

  /** Chunks with data and then one without. */
  predicate Message(chunks: seq<Chunk>) {
    && chunks != []
    && (forall i :: 0 <= i < |chunks| ==> IsLine(chunks[i].line, |chunks[i].payload|))
    && (forall i :: 0 <= i < |chunks| ==> (chunks[i].payload == [] <==> i == |chunks| - 1))
  }

  predicate Fits(chunks: seq<Chunk>) {
    forall i :: 0 <= i < |chunks| ==> |chunks[i].payload| <= 0x7FFF_FFFD
  }

  /** Every chunk-size line is in the buffer as a whole when it is first parsed. */
  predicate LinesWhole(chunks: seq<Chunk>, buf: seq<byte>, net: Net, room: nat)
    requires 0 < room
  {
    chunks == [] ||
    (&& |chunks[0].line| <= |FirstBuf(buf, net, room)|
     && var h := ReadHead(buf, net, room);
     h.Some? && 0 <= ContentLen(h.value.size) ==>
       var p := ReadPayload(h.value.buf, h.value.net, ContentLen(h.value.size), room);
       p.Some? ==> LinesWhole(chunks[1..], p.value.buf, p.value.net, room))
  }

  /** One chunk whose line comes whole is taken right, and leaves what follows it, if and only if it
      has at most 2^31 - 3 bytes. */
  lemma ChunkExact(line: seq<byte>, payload: seq<byte>, rest: seq<byte>, buf: seq<byte>, net: Net, room: nat)
    requires 0 < room && IsLine(line, |payload|) && |line| <= |FirstBuf(buf, net, room)|
    requires buf + net.rest == line + (payload + [13, 10] + rest)
    ensures var h := ReadHead(buf, net, room);
            && h.Some?
            && var c := ContentLen(h.value.size);
            && ((&& 0 <= c <= 0x7FFF_FFFD
                 && var p := ReadPayload(h.value.buf, h.value.net, c, room);
                 p.Some? && p.value.data == payload && p.value.buf + p.value.net.rest == rest)
                <==> |payload| <= 0x7FFF_FFFD)
  {
    hide ReadHead, ReadPayload, ContentLen;
    var all := payload + [13, 10] + rest;
    HeadWhole(line, |payload|, all, buf, net, room);
    assert all[..|payload|] == payload && all[|payload| + 2..] == rest;
  }

  /** The loop goes on with this body and these bytes to come, in some division. */
  ghost predicate GoesOn(r: Outcome, body: seq<byte>, rest: seq<byte>, room: nat)
    requires 0 < room
  {
    exists buf: seq<byte>, net: Net :: buf + net.rest == rest && r == Receive(body, buf, net, room)
  }

  /** What is taken for a chunk of any announced size whose line comes whole: content_len bytes and
      two more, of whatever follows the line. */
  lemma WhatIsTaken(body: seq<byte>, line: seq<byte>, size: nat, rest: seq<byte>, buf: seq<byte>, net: Net, room: nat)
    requires 0 < room && IsLine(line, size) && buf + net.rest == line + rest && |line| <= |FirstBuf(buf, net, room)|
    ensures var r, c := Receive(body, buf, net, room), ContentLen(size);
            && (c > 0x7FFF_FFFD ==> r == Overflow)
            && (c < -1 ==> r == Throws)
            && (c == -1 ==> r == if |FirstBuf(buf, net, room)| > |line| then Throws
                                 else if rest == [] then Closed
                                 else if body == [] then Throws else Body(body[..|body| - 1]))
            && (0 <= c <= 0x7FFF_FFFD && |rest| < c + 2 ==> r == Closed)
            && (c == 0 && |rest| >= 2 ==> r == Body(body))
            && (0 < c <= 0x7FFF_FFFD && |rest| >= c + 2 ==> GoesOn(r, body + rest[..c], rest[c + 2..], room))
  {
    hide ReadHead, ReadPayload, ContentLen;
    HeadWhole(line, size, rest, buf, net, room);
    var h, c := ReadHead(buf, net, room).value, ContentLen(size);
    assert |h.buf + h.net.rest| == |rest|;
    if 0 <= c <= 0x7FFF_FFFD && |rest| >= c + 2 {
      var p := ReadPayload(h.buf, h.net, c, room).value;
      assert p.buf + p.net.rest == rest[c + 2..] && p.data == rest[..c];
      assert body + p.data == body + rest[..c];
      if c == 0 { assert body + rest[..c] == body; }
    }
  }

  /** A chunk of a multiple of 2^32 bytes is taken for the last one: the body ends before it. */
  lemma WrappedSizeEnds(body: seq<byte>, line: seq<byte>, size: nat, rest: seq<byte>,
                        buf: seq<byte>, net: Net, room: nat)
    requires 0 < room && IsLine(line, size) && |rest| >= 2
    requires 0 < size < 0x8000_0000_0000_0000 && size % 0x1_0000_0000 == 0
    requires buf + net.rest == line + rest && |line| <= |FirstBuf(buf, net, room)|
    ensures Receive(body, buf, net, room) == Body(body)
  {
    WhatIsTaken(body, line, size, rest, buf, net, room);
  }

  /** However payloads and line ends are split across reads and leftovers, the body is the
      concatenation of the payloads. */
  lemma {:induction false} Reassembles(body: seq<byte>, chunks: seq<Chunk>, tail: seq<byte>,
                                       buf: seq<byte>, net: Net, room: nat)
    requires 0 < room && Message(chunks) && buf + net.rest == Wire(chunks) + tail
    requires LinesWhole(chunks, buf, net, room) && Fits(chunks)
    ensures Receive(body, buf, net, room) == Body(body + Payloads(chunks))
    decreases |chunks|
  {
    hide ReadHead, ReadPayload, FirstBuf, IsLine, ContentLen;
    var c := chunks[0];
    var rest := c.payload + [13, 10] + (Wire(chunks[1..]) + tail);
    assert Wire(chunks) + tail == c.line + rest;
    HeadWhole(c.line, |c.payload|, rest, buf, net, room);
    var h := ReadHead(buf, net, room);
    var p := ReadPayload(h.value.buf, h.value.net, |c.payload|, room);
    assert rest[..|c.payload|] == c.payload && rest[|c.payload| + 2..] == Wire(chunks[1..]) + tail;
    if |chunks| > 1 {
      Reassembles(body + c.payload, chunks[1..], tail, p.value.buf, p.value.net, room);
      assert (body + c.payload) + Payloads(chunks[1..]) == body + Payloads(chunks);
    } else {
      assert chunks[1..] == [] && Payloads(chunks) == c.payload + [];
    }
  }

  /** Two deliveries of the same message, split in any two ways, give the same body. */
  lemma SameBody(chunks: seq<Chunk>, tail: seq<byte>, b1: seq<byte>, n1: Net, b2: seq<byte>, n2: Net, room: nat)
    requires 0 < room && Message(chunks) && Fits(chunks)
    requires b1 + n1.rest == Wire(chunks) + tail && b2 + n2.rest == Wire(chunks) + tail
    requires LinesWhole(chunks, b1, n1, room) && LinesWhole(chunks, b2, n2, room)
    ensures Receive([], b1, n1, room) == Receive([], b2, n2, room) == Body(Payloads(chunks))
  {
    Reassembles([], chunks, tail, b1, n1, room);
    Reassembles([], chunks, tail, b2, n2, room);
    assert [] + Payloads(chunks) == Payloads(chunks);
  }
}
