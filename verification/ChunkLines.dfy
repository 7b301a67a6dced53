/** The chunk-size line of a chunked body, parsed from a stream that arrives in pieces of any size.

    The buffer holds the `len` bytes received and not yet used. The line machine, like the generated
    one, is started afresh by every call of execute and forgets what it read when a call ends in the
    middle of a line. */
module ChunkLines {

  import opened Options
  import opened Blocks
  import opened PercentCodec

  const CR: byte := 13
  const LF: byte := 10
  const SEMICOLON: byte := 59
  const CRLF: seq<byte> := [CR, LF]

  // ---------- the connection ----------

  /** What the peer still sends, and how much each read brings at most. */
  datatype Net = Net(rest: seq<byte>, cuts: seq<nat>)

  function Least(a: nat, b: nat): nat {
    if a < b then a else b
  }

  /** How much a read of up to `n` bytes brings: something while the peer sends, nothing after. */
  function Got(net: Net, n: nat): (k: nat)
    requires n > 0
    ensures k <= n && k <= |net.rest| && (k == 0 <==> net.rest == [])
  {
    var most := Least(n, |net.rest|);
    if net.cuts == [] then most else Least(most, if net.cuts[0] == 0 then 1 else net.cuts[0])
  }

  function After(net: Net, n: nat): (r: Net)
    requires n > 0
    ensures net.rest == net.rest[..Got(net, n)] + r.rest
  {
    Net(net.rest[Got(net, n)..], if net.cuts == [] then [] else net.cuts[1..])
  }

  // ---------- the chunk-size line ----------

  datatype Line = Done(used: nat, size: nat) | More | Error

  /** Where the machine is in a line: a size, then extensions of a name and perhaps a value. */
  datatype LineState = Start | Digits | NameStart | Name | ValueStart | InValue | Return

  /** A token byte: visible ASCII without the separators. */
  predicate Token(c: byte) {
    33 <= c <= 126 && c !in {34, 40, 41, 44, 47, 58, 59, 60, 61, 62, 63, 64, 91, 92, 93, 123, 125}
  }

  /** The machine from byte `i` on. */
  function Scan(s: seq<byte>, i: nat, st: LineState, size: nat): Line
    requires i <= |s|
    decreases |s| - i, 1
  {
    if i == |s| then More else
    var c := s[i];
    match st
    case Start => if HexDigit(c) then Scan(s, i + 1, Digits, HexValue(c)) else Error
    case Digits =>
      if HexDigit(c) then Scan(s, i + 1, Digits, size * 16 + HexValue(c)) else ScanEnd(s, i, size)
    case NameStart => if Token(c) then Scan(s, i + 1, Name, size) else Error
    case Name =>
      if Token(c) then Scan(s, i + 1, Name, size)
      else if c == EQUALS then Scan(s, i + 1, ValueStart, size) else ScanEnd(s, i, size)
    case ValueStart => if Token(c) then Scan(s, i + 1, InValue, size) else Error
    case InValue => if Token(c) then Scan(s, i + 1, InValue, size) else ScanEnd(s, i, size)
    case Return => if c == LF then Done(i + 1, size) else Error
  }

  /** Where a size or an extension can end: another extension or the end of the line. */
  function ScanEnd(s: seq<byte>, i: nat, size: nat): Line
    requires i < |s|
    decreases |s| - i, 0
  {
    if s[i] == SEMICOLON then Scan(s, i + 1, NameStart, size)
    else if s[i] == CR then Scan(s, i + 1, Return, size)
    else if s[i] == LF then Done(i + 1, size) else Error
  }

  /** One call of execute. */
  function Parse(s: seq<byte>): Line {
    Scan(s, 0, Start, 0)
  }

  /** A line that is decided, by its end or an error, is decided the same whatever follows; a finished
      one was used up to its end. */
  lemma {:induction false} ScanPrefix(s: seq<byte>, more: seq<byte>, i: nat, st: LineState, size: nat)
    requires i <= |s|
    ensures !Scan(s, i, st, size).More? ==> Scan(s + more, i, st, size) == Scan(s, i, st, size)
    ensures Scan(s, i, st, size).Done? ==> i < Scan(s, i, st, size).used <= |s|
    decreases |s| - i
  {
    if i < |s| {
      var c := s[i];
      assert (s + more)[i] == c;
      ScanPrefix(s, more, i + 1, Digits, if st.Start? then HexValue(c) else size * 16 + HexValue(c));
      ScanPrefix(s, more, i + 1, NameStart, size);
      ScanPrefix(s, more, i + 1, Name, size);
      ScanPrefix(s, more, i + 1, ValueStart, size);
      ScanPrefix(s, more, i + 1, InValue, size);
      ScanPrefix(s, more, i + 1, Return, size);
    }
  }

  /** A part of a line leaves the machine in the middle. */
  lemma {:induction false} ScanPart(s: seq<byte>, k: nat, i: nat, st: LineState, size: nat)
    requires i <= k <= |s|
    ensures Scan(s, i, st, size).Done? && k < Scan(s, i, st, size).used ==> Scan(s[..k], i, st, size) == More
    decreases k - i
  {
    if i < k {
      var c := s[i];
      assert s[..k][i] == c;
      ScanPart(s, k, i + 1, Digits, if st.Start? then HexValue(c) else size * 16 + HexValue(c));
      ScanPart(s, k, i + 1, NameStart, size);
      ScanPart(s, k, i + 1, Name, size);
      ScanPart(s, k, i + 1, ValueStart, size);
      ScanPart(s, k, i + 1, InValue, size);
      ScanPart(s, k, i + 1, Return, size);
      var e := ScanEnd(s, i, size);
      assert e.Done? && k < e.used ==> ScanEnd(s[..k], i, size) == More;
    }
  }

  /** A line feed always decides, and nothing but a line feed finishes a line. */
  lemma {:induction false} ScanFeed(s: seq<byte>, i: nat, st: LineState, size: nat)
    requires i <= |s| && forall j :: i <= j < |s| - 1 ==> s[j] != LF
    ensures Scan(s, i, st, size).Done? ==> Scan(s, i, st, size).used == |s| && i < |s| && s[|s| - 1] == LF
    ensures i < |s| && s[|s| - 1] == LF ==> !Scan(s, i, st, size).More?
    decreases |s| - i
  {
    if i < |s| {
      var c := s[i];
      ScanFeed(s, i + 1, Digits, if st.Start? then HexValue(c) else size * 16 + HexValue(c));
      ScanFeed(s, i + 1, NameStart, size);
      ScanFeed(s, i + 1, Name, size);
      ScanFeed(s, i + 1, ValueStart, size);
      ScanFeed(s, i + 1, InValue, size);
      ScanFeed(s, i + 1, Return, size);
    }
  }

  // ---------- the loop ----------

  datatype Head = Head(size: nat, buf: seq<byte>, net: Net)

  /** The inner loop: read when there is nothing to parse, parse, and start again on an unfinished
      line. */
  function ReadHead(buf: seq<byte>, net: Net, room: nat): (r: Option<Head>)
    requires 0 < room
    ensures r.Some? ==> |r.value.buf| + |r.value.net.rest| < |buf| + |net.rest|
    decreases |net.rest|, |buf|
  {
    if buf == [] && net.rest == [] then None else
    var buf1 := if buf == [] then net.rest[..Got(net, room)] else buf;
    var net1 := if buf == [] then After(net, room) else net;
    var line := Parse(buf1);
    ScanPrefix(buf1, [], 0, Start, 0);
    match line
    case Error => None
    case More => ReadHead([], net1, room)
    case Done(used, size) => Some(Head(size, buf1[used..], net1))
  }

  /** The first read of the inner loop depends on `len`, the later ones happen always. The test for
      a full buffer after the parse never holds, because a parse always uses something. */
  method ReadHeadLoop(buf: seq<byte>, net: Net, room: nat) returns (r: Option<Head>)
    requires 0 < room && |buf| <= room
    ensures r == ReadHead(buf, net, room)
    ensures r.Some? ==> |r.value.buf| < room
  {
    var data, conn, begin, finished := buf, net, true, false;
    var size := 0;
    while !finished
      invariant |data| <= room && (!begin ==> |data| < room) && (finished ==> !begin)
      invariant !finished ==> ReadHead(data, conn, room) == ReadHead(buf, net, room)
      invariant !begin && !finished ==> data == []
      invariant finished ==> Some(Head(size, data, conn)) == ReadHead(buf, net, room)
      decreases !finished, |conn.rest|, |data|
    {
      if !begin || data == [] {
        var rt := Got(conn, room);
        if rt == 0 {
          return None;
        }
        data, conn := conn.rest[..rt], After(conn, room);
      }
      var line := Parse(data);
      ScanPrefix(data, [], 0, Start, 0);
      if line.Error? {
        return None;
      }
      if line.Done? {
        size, finished := line.size, true;
        data := data[line.used..];
      } else {
        data := [];
      }
      if |data| == room {
        assert false;
      }
      begin := false;
    }
    return Some(Head(size, data, conn));
  }

  // ---------- a line that comes whole ----------

  predicate IsLine(line: seq<byte>, size: nat) {
    Parse(line) == Done(|line|, size)
  }

  /** What the parser is first given at the start of a chunk. */
  function FirstBuf(buf: seq<byte>, net: Net, room: nat): seq<byte>
    requires 0 < room
  {
    if buf == [] then net.rest[..Got(net, room)] else buf
  }

  /** A line that is there as a whole gives the size and leaves the rest. */
  lemma HeadWhole(line: seq<byte>, size: nat, rest: seq<byte>, buf: seq<byte>, net: Net, room: nat)
    requires 0 < room && IsLine(line, size) && buf + net.rest == line + rest
    requires |line| <= |FirstBuf(buf, net, room)|
    ensures var h := ReadHead(buf, net, room);
            && h.Some? && h.value.size == size && h.value.buf + h.value.net.rest == rest
            && h.value.buf == FirstBuf(buf, net, room)[|line|..]
  {
    ScanPrefix(line, [], 0, Start, 0);
    var buf1 := FirstBuf(buf, net, room);
    var net1 := if buf == [] then After(net, room) else net;
    assert buf1 + net1.rest == line + rest;
    assert buf1 == line + buf1[|line|..] by { assert (buf1 + net1.rest)[..|line|] == line; }
    ScanPrefix(line, buf1[|line|..], 0, Start, 0);
    assert buf1[|line|..] + net1.rest == (line + rest)[|line|..];
  }

  // ---------- a line that comes in pieces ----------

  /** The bytes of a line: the last is its only line feed. */
  predicate OneLine(line: seq<byte>) {
    line != [] && line[|line| - 1] == 10 && forall i :: 0 <= i < |line| - 1 ==> line[i] != 10
  }

  /** A call that sees only a part of a line, extensions or not, uses it up without an answer. */
  lemma PrefixForgotten(line: seq<byte>, size: nat, k: nat)
    requires IsLine(line, size) && 0 < k < |line|
    ensures Parse(line[..k]) == More
  {
    ScanPart(line, k, 0, Start, 0);
  }

  /** How many of the next `n` bytes are used up by parses that do not see the rest of them. */
  function Cut(n: nat, buf: seq<byte>, net: Net, room: nat): (k: nat)
    requires 0 < room && 0 < n <= |buf| + |net.rest|
    ensures k < n
    decreases |net.rest|, |buf|
  {
    var first := FirstBuf(buf, net, room);
    if n <= |first| then 0
    else |first| + Cut(n - |first|, [], if buf == [] then After(net, room) else net, room)
  }

  /** Every parse that does not see the rest of the next `n` bytes ends in the middle of a line. */
  predicate Forgotten(n: nat, buf: seq<byte>, net: Net, room: nat)
    requires 0 < room && 0 < n <= |buf| + |net.rest|
    decreases |net.rest|, |buf|
  {
    var first := FirstBuf(buf, net, room);
    n <= |first| ||
    (&& Parse(first).More?
     && Forgotten(n - |first|, [], if buf == [] then After(net, room) else net, room))
  }

  /** What the loop makes of the bytes up to a line feed, whatever they are and in whatever pieces
      they come: it finishes exactly when every piece before the last is an unfinished line and the
      last piece is a line by itself, and then it gives that line's size. */
  lemma {:induction false} LineReads(line: seq<byte>, more: seq<byte>, buf: seq<byte>, net: Net, room: nat)
    requires 0 < room && OneLine(line) && buf + net.rest == line + more
    ensures |line| <= |buf| + |net.rest|
    ensures var h, k := ReadHead(buf, net, room), Cut(|line|, buf, net, room);
            && k < |line|
            && (h.Some? <==> Forgotten(|line|, buf, net, room) && Parse(line[k..]).Done?)
            && (h.Some? ==> IsLine(line[k..], h.value.size) && h.value.buf + h.value.net.rest == more)
    decreases |net.rest|, |buf|
  {
    hide ReadHead, Parse, FirstBuf, Cut, Forgotten;
    var first := FirstBuf(buf, net, room);
    assert |buf + net.rest| == |line + more|;
    if |line| <= |first| {
      LastPiece(line, more, buf, net, room);
      assert line[0..] == line;
    } else {
      var n, net1 := |first|, if buf == [] then After(net, room) else net;
      FirstPiece(line, more, buf, net, room);
      PieceStep(|line|, buf, net, room);
      PartParses(line, n);
      if Parse(first).More? {
        Restarts(buf, net, room);
        assert [] + net1.rest == net1.rest;
        LineReads(line[n..], more, [], net1, room);
        var j := Cut(|line| - n, [], net1, room);
        assert line[n..][j..] == line[n + j..];
      } else {
        Stops(buf, net, room);
      }
    }
  }

  /** The whole line is there: it is decided without what follows. */
  lemma LastPiece(line: seq<byte>, more: seq<byte>, buf: seq<byte>, net: Net, room: nat)
    requires 0 < room && OneLine(line) && buf + net.rest == line + more && |line| <= |FirstBuf(buf, net, room)|
    ensures |line| <= |buf| + |net.rest| && Cut(|line|, buf, net, room) == 0 && Forgotten(|line|, buf, net, room)
    ensures var h := ReadHead(buf, net, room);
            && (h.Some? <==> Parse(line).Done?)
            && (h.Some? ==> IsLine(line, h.value.size) && h.value.buf + h.value.net.rest == more)
  {
    hide ReadHead;
    assert |buf + net.rest| == |line + more|;
    ScanFeed(line, 0, Start, 0);
    if Parse(line).Done? {
      HeadWhole(line, Parse(line).size, more, buf, net, room);
    } else {
      WholeBytes(line, more, buf, net, room);
      var first := FirstBuf(buf, net, room);
      ScanPrefix(line, first[|line|..], 0, Start, 0);
      Stops(buf, net, room);
    }
  }

  /** The buffer begins with the line when it is large enough. */
  lemma WholeBytes(line: seq<byte>, more: seq<byte>, buf: seq<byte>, net: Net, room: nat)
    requires 0 < room && buf + net.rest == line + more && |line| <= |FirstBuf(buf, net, room)|
    ensures var first := FirstBuf(buf, net, room); first == line + first[|line|..]
  {
    var first, net1 := FirstBuf(buf, net, room), if buf == [] then After(net, room) else net;
    assert first + net1.rest == line + more;
    assert (first + net1.rest)[..|line|] == (line + more)[..|line|];
  }

  lemma CutStep(n: nat, buf: seq<byte>, net: Net, room: nat)
    requires 0 < room && 0 < n <= |buf| + |net.rest| && n > |FirstBuf(buf, net, room)|
    ensures var first, net1 := FirstBuf(buf, net, room), if buf == [] then After(net, room) else net;
            n - |first| <= |net1.rest| && Cut(n, buf, net, room) == |first| + Cut(n - |first|, [], net1, room)
  {
  }

  lemma PieceStep(n: nat, buf: seq<byte>, net: Net, room: nat)
    requires 0 < room && 0 < n <= |buf| + |net.rest| && n > |FirstBuf(buf, net, room)|
    ensures var first, net1 := FirstBuf(buf, net, room), if buf == [] then After(net, room) else net;
            && n - |first| <= |net1.rest|
            && Cut(n, buf, net, room) == |first| + Cut(n - |first|, [], net1, room)
            && (Forgotten(n, buf, net, room) <==> Parse(first).More? && Forgotten(n - |first|, [], net1, room))
  {
    hide Parse, Cut, FirstBuf, After;
    CutStep(n, buf, net, room);
  }

  lemma PartParses(line: seq<byte>, n: nat)
    requires OneLine(line) && 0 < n < |line|
    ensures !Parse(line[..n]).Done? && OneLine(line[n..])
  {
    ScanFeed(line[..n], 0, Start, 0);
  }

  lemma Restarts(buf: seq<byte>, net: Net, room: nat)
    requires 0 < room && (buf != [] || net.rest != []) && Parse(FirstBuf(buf, net, room)) == More
    ensures ReadHead(buf, net, room) == ReadHead([], if buf == [] then After(net, room) else net, room)
  {
    hide Parse;
  }

  lemma Stops(buf: seq<byte>, net: Net, room: nat)
    requires 0 < room && (buf != [] || net.rest != []) && Parse(FirstBuf(buf, net, room)) == Error
    ensures ReadHead(buf, net, room) == None
  {
    hide Parse;
  }

  /** The first piece of a line that does not come whole, and what is still to come. */
  lemma FirstPiece(line: seq<byte>, more: seq<byte>, buf: seq<byte>, net: Net, room: nat)
    requires 0 < room && buf + net.rest == line + more && |FirstBuf(buf, net, room)| < |line|
    ensures var first, net1 := FirstBuf(buf, net, room), if buf == [] then After(net, room) else net;
            && 0 < |first| && first == line[..|first|] && net1.rest == line[|first|..] + more
            && (buf != [] || |net1.rest| < |net.rest|)
  {
    var first, net1 := FirstBuf(buf, net, room), if buf == [] then After(net, room) else net;
    var k := |first|;
    assert first + net1.rest == line + more;
    assert first == (first + net1.rest)[..k] == (line + more)[..k] == line[..k];
    assert net1.rest == (first + net1.rest)[k..] == (line + more)[k..] == line[k..] + more;
  }

  /** A line is read right if and only if every piece before the last is an unfinished line and what
      is left at the last is by itself a line of the same size. */
  lemma LineExact(line: seq<byte>, size: nat, more: seq<byte>, buf: seq<byte>, net: Net, room: nat)
    requires 0 < room && OneLine(line) && buf + net.rest == line + more
    ensures |line| <= |buf| + |net.rest|
    ensures var h, k := ReadHead(buf, net, room), Cut(|line|, buf, net, room);
            && k < |line|
            && ((h.Some? && h.value.size == size && h.value.buf + h.value.net.rest == more)
                <==> Forgotten(|line|, buf, net, room) && IsLine(line[k..], size))
  {
    hide ReadHead, Cut, Forgotten, Scan;
    LineReads(line, more, buf, net, room);
    var k := Cut(|line|, buf, net, room);
    ScanFeed(line[k..], 0, Start, 0);
  }

  // ---------- lines without extensions ----------

  /** The number a row of hexadecimal digits stands for. */
  function Value(acc: nat, d: seq<byte>): nat
    decreases |d|
  {
    if d == [] then acc else Value(acc * 16 + HexValue(d[0]), d[1..])
  }

  predicate AllHex(d: seq<byte>) {
    forall i :: 0 <= i < |d| ==> HexDigit(d[i])
  }

  predicate LineEnd(eol: seq<byte>) {
    eol == [13, 10] || eol == [10]
  }

  lemma {:induction false} ScanDigits(d: seq<byte>, eol: seq<byte>, i: nat, size: nat)
    requires AllHex(d) && LineEnd(eol) && i <= |d|
    ensures Scan(d + eol, i, Digits, size) == Done(|d| + |eol|, Value(size, d[i..]))
    decreases |d| - i
  {
    var s := d + eol;
    if i < |d| {
      assert s[i] == d[i] && d[i..][1..] == d[i + 1..];
      ScanDigits(d, eol, i + 1, size * 16 + HexValue(d[i]));
    } else {
      assert s[i] == eol[0] && s[|s| - 1] == LF && d[i..] == [];
      if eol == CRLF { assert Scan(s, i + 1, Return, size) == Done(i + 2, size); }
      assert ScanEnd(s, i, size) == Done(|s|, size);
    }
  }

  /** Any row of digits, of either case and with any number of leading zeros, is a line. */
  lemma DigitsAreLine(d: seq<byte>, eol: seq<byte>)
    requires AllHex(d) && d != [] && LineEnd(eol)
    ensures IsLine(d + eol, Value(0, d))
  {
    assert (d + eol)[0] == d[0] && d[1..] == d[1..];
    ScanDigits(d, eol, 1, HexValue(d[0]));
  }

  lemma {:induction false} ValueGrows(acc: nat, d: seq<byte>)
    ensures Value(acc, d) >= Value(0, d) + acc
    decreases |d|
  {
    if d != [] {
      ValueGrows(acc * 16 + HexValue(d[0]), d[1..]);
      ValueGrows(HexValue(d[0]), d[1..]);
      ValueMono(HexValue(d[0]), acc, d[1..]);
    }
  }

  lemma {:induction false} ValueMono(a: nat, b: nat, d: seq<byte>)
    ensures Value(b * 16 + a, d) >= Value(a, d) + b
    decreases |d|
  {
    if d != [] {
      var v := HexValue(d[0]);
      assert (b * 16 + a) * 16 + v == (b * 16) * 16 + (a * 16 + v);
      ValueMono(a * 16 + v, b * 16, d[1..]);
    }
  }

  predicate Zeros(d: seq<byte>) {
    forall i :: 0 <= i < |d| ==> HexValue(d[i]) == 0
  }

  /** Cutting digits off the front keeps the number exactly when they are zeros. */
  lemma {:induction false} SuffixValue(d: seq<byte>, k: nat)
    requires k <= |d|
    ensures Value(0, d[k..]) <= Value(0, d)
    ensures Value(0, d[k..]) == Value(0, d) <==> Zeros(d[..k])
    decreases |d|
  {
    if k == 0 {
      assert d[0..] == d;
    } else {
      ValueGrows(HexValue(d[0]), d[1..]);
      SuffixValue(d[1..], k - 1);
      assert d[1..][k - 1..] == d[k..];
      ZerosCons(d, k);
    }
  }

  lemma ZerosCons(d: seq<byte>, k: nat)
    requires 0 < k <= |d|
    ensures Zeros(d[..k]) <==> HexValue(d[0]) == 0 && Zeros(d[1..][..k - 1])
  {
    var t := d[1..][..k - 1];
    assert d[..k] == [d[0]] + t;
    if HexValue(d[0]) == 0 && Zeros(t) {
      forall i | 0 <= i < k ensures HexValue(d[..k][i]) == 0 {
        if i > 0 { assert t[i - 1] == d[..k][i]; }
      }
    } else if Zeros(d[..k]) {
      assert d[..k][0] == d[0];
      forall i | 0 <= i < |t| ensures HexValue(t[i]) == 0 { assert d[..k][i + 1] == t[i]; }
    }
  }

  /** While the last piece begins within the digits, every piece before it is an unfinished line. */
  lemma {:induction false} DigitsForgotten(d: seq<byte>, eol: seq<byte>, more: seq<byte>,
                                           buf: seq<byte>, net: Net, room: nat)
    requires 0 < room && AllHex(d) && LineEnd(eol) && buf + net.rest == (d + eol) + more
    requires |d + eol| <= |buf| + |net.rest| && Cut(|d + eol|, buf, net, room) < |d|
    ensures Forgotten(|d + eol|, buf, net, room)
    decreases |net.rest|, |buf|
  {
    hide Parse, FirstBuf, Cut;
    var line, first := d + eol, FirstBuf(buf, net, room);
    if |line| > |first| {
      var n, net1 := |first|, if buf == [] then After(net, room) else net;
      FirstPiece(line, more, buf, net, room);
      PieceStep(|line|, buf, net, room);
      DigitsAreLine(d, eol);
      PrefixForgotten(line, Value(0, d), n);
      assert line[n..] == d[n..] + eol && [] + net1.rest == net1.rest;
      DigitsForgotten(d[n..], eol, more, [], net1, room);
    }
  }

  /** The loop on a line of digits in any pieces: when the last piece begins within the digits, it
      gives the number of the digits that were left, and otherwise an error. */
  lemma HeadReads(d: seq<byte>, eol: seq<byte>, more: seq<byte>, buf: seq<byte>, net: Net, room: nat)
    requires 0 < room && AllHex(d) && LineEnd(eol) && buf + net.rest == (d + eol) + more
    ensures |d + eol| <= |buf| + |net.rest|
    ensures var h, k := ReadHead(buf, net, room), Cut(|d + eol|, buf, net, room);
            if k < |d| then h.Some? && h.value.size == Value(0, d[k..]) && h.value.buf + h.value.net.rest == more
            else h.None?
  {
    hide ReadHead, Cut, Forgotten, Value;
    var line := d + eol;
    DigitsOneLine(d, eol);
    LineReads(line, more, buf, net, room);
    var k := Cut(|line|, buf, net, room);
    if k < |d| {
      DigitsForgotten(d, eol, more, buf, net, room);
      assert line[k..] == d[k..] + eol;
      DigitsAreLine(d[k..], eol);
    } else {
      assert line[k..][0] == line[k] == eol[k - |d|];
    }
  }

  lemma DigitsOneLine(d: seq<byte>, eol: seq<byte>)
    requires AllHex(d) && LineEnd(eol)
    ensures OneLine(d + eol)
  {
  }

  /** A size is read right if and only if nothing but leading zeros was used up before the rest of
      its line came whole; without leading zeros, if and only if the line was whole at the first
      parse. */
  lemma HeadExact(d: seq<byte>, eol: seq<byte>, more: seq<byte>, buf: seq<byte>, net: Net, room: nat)
    requires 0 < room && AllHex(d) && d != [] && LineEnd(eol) && buf + net.rest == (d + eol) + more
    ensures |d + eol| <= |buf| + |net.rest|
    ensures var h, k := ReadHead(buf, net, room), Cut(|d + eol|, buf, net, room);
            && ((h.Some? && h.value.size == Value(0, d) && h.value.buf + h.value.net.rest == more)
                <==> k < |d| && Zeros(d[..k]))
            && (HexValue(d[0]) > 0 || |d| == 1 ==>
                  (k < |d| && Zeros(d[..k]) <==> |d + eol| <= |FirstBuf(buf, net, room)|))
  {
    hide ReadHead, Value;
    HeadReads(d, eol, more, buf, net, room);
    var k := Cut(|d + eol|, buf, net, room);
    if k < |d| { SuffixValue(d, k); }
    if 0 < k < |d| { assert d[..k][0] == d[0]; }
    if |d + eol| > |FirstBuf(buf, net, room)| { FirstPiece(d + eol, more, buf, net, room); }
  }

  /** For instance "10" and a line end, split after the 1, is read as 0. */
  lemma TenReadsAsZero(more: seq<byte>, room: nat)
    requires room >= 3
    ensures var h := ReadHead([], Net([49, 48, 13, 10] + more, [1]), room); h.Some? && h.value.size == 0
  {
    var d: seq<byte>, net := [49, 48], Net([49, 48, 13, 10] + more, [1]);
    assert [] + net.rest == (d + CRLF) + more;
    HeadReads(d, CRLF, more, [], net, room);
    var net1 := After(net, room);
    assert net1.cuts == [] && |net1.rest| == 3 + |more|;
    assert Cut(3, [], net1, room) == 0;
    assert Cut(4, [], net, room) == 1 && d[1..] == [48];
  }

  /** With an extension more can go right: "5;a=5" and a line end, split after the '=', is read as 5
      although more than leading zeros was used up. */
  lemma ExtensionReadsRight(more: seq<byte>, room: nat)
    requires room >= 4
    ensures var line: seq<byte> := [53, 59, 97, 61, 53, 13, 10];
            var h := ReadHead([], Net(line + more, [4]), room);
            IsLine(line, 5) && h.Some? && h.value.size == 5 && h.value.buf + h.value.net.rest == more
  {
    hide Parse, Scan, ReadHead, Cut, Forgotten;
    var line: seq<byte> := [53, 59, 97, 61, 53, 13, 10];
    ExtensionParses();
    assert [] + (line + more) == line + more;
    assert OneLine(line) && line[4..] == [53] + CRLF && line[..4] == [53, 59, 97, 61];
    LineExact(line, 5, more, [], Net(line + more, [4]), room);
    SplitAfter(line, 4, more, room);
    DigitsAreLine([53], CRLF);
    assert Value(0, [53]) == 5;
  }

  /** A line that comes in two pieces, the first of `k` bytes. */
  lemma SplitAfter(line: seq<byte>, k: nat, more: seq<byte>, room: nat)
    requires 0 < k < |line| && k <= room && |line| - k <= room && Parse(line[..k]).More?
    ensures var net := Net(line + more, [k]);
            Cut(|line|, [], net, room) == k && Forgotten(|line|, [], net, room)
  {
    hide Parse;
    var net := Net(line + more, [k]);
    var net1 := After(net, room);
    assert FirstBuf([], net, room) == line[..k];
    assert net1.cuts == [] && |net1.rest| == |line| - k + |more|;
    assert Cut(|line| - k, [], net1, room) == 0 && Forgotten(|line| - k, [], net1, room);
  }

  lemma ExtensionParses()
    ensures Parse([53, 59, 97, 61]) == More
    ensures IsLine([53, 59, 97, 61, 53, 13, 10], 5)
  {
    var part: seq<byte> := [53, 59, 97, 61];
    var line: seq<byte> := part + [53] + CRLF;
    assert line == [53, 59, 97, 61, 53, 13, 10];
    assert Scan(line, 6, Return, 5) == Done(7, 5);
    assert Scan(line, 5, InValue, 5) == Done(7, 5);
    assert Scan(line, 4, ValueStart, 5) == Done(7, 5);
    assert Scan(line, 3, Name, 5) == Done(7, 5);
    assert Scan(line, 2, NameStart, 5) == Done(7, 5);
    assert Scan(line, 1, Digits, 5) == Done(7, 5);
    PrefixForgotten(line, 5, 4);
    assert line[..4] == part;
  }
}
