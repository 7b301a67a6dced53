/** The language of the chunk-size line machine is the grammar it was generated from: digits, then
    extensions that each have a name and perhaps a value, then a line end. */
module ChunkGrammar {

  import opened Options
  import opened Blocks
  import opened PercentCodec
  import opened ChunkLines

  /** A visible character that is not one of the separators. */
  predicate TokenChar(c: char) {
    '!' <= c <= '~' && c !in {'(', ')', '<', '>', '@', ',', ';', ':', '\\', '"', '/', '[', ']', '?', '=', '{', '}'}
  }

  predicate IsToken(t: seq<byte>) {
    t != [] && forall i :: 0 <= i < |t| ==> TokenChar(t[i] as char)
  }

  datatype Ext = Ext(name: seq<byte>, value: Option<seq<byte>>)

  predicate ExtOk(x: Ext) {
    IsToken(x.name) && (x.value.Some? ==> IsToken(x.value.value))
  }

  predicate ExtsOk(xs: seq<Ext>) {
    forall i :: 0 <= i < |xs| ==> ExtOk(xs[i])
  }

  function ExtText(x: Ext): seq<byte> {
    [';' as byte] + x.name + if x.value.Some? then ['=' as byte] + x.value.value else []
  }

  function ExtsText(xs: seq<Ext>): seq<byte> {
    if xs == [] then [] else ExtText(xs[0]) + ExtsText(xs[1..])
  }

  lemma TokenExact(c: byte)
    ensures Token(c) <==> TokenChar(c as char)
  {
  }

  // ---------- every line of the grammar is a line of the machine ----------

  predicate At(s: seq<byte>, i: nat, t: seq<byte>) {
    i + |t| <= |s| && s[i..i + |t|] == t
  }

  lemma AtSplit(s: seq<byte>, i: nat, t: seq<byte>, u: seq<byte>)
    requires At(s, i, t + u)
    ensures At(s, i, t) && At(s, i + |t|, u)
  {
    assert s[i..i + |t|] == s[i..i + |t + u|][..|t|];
    assert s[i + |t|..i + |t| + |u|] == s[i..i + |t + u|][|t|..];
  }

  lemma {:induction false} DigitsThen(s: seq<byte>, i: nat, d: seq<byte>, size: nat)
    requires At(s, i, d) && AllHex(d) && i + |d| < |s| && !HexDigit(s[i + |d|])
    ensures Scan(s, i, Digits, size) == ScanEnd(s, i + |d|, Value(size, d))
    decreases |d|
  {
    if d != [] {
      AtSplit(s, i, [d[0]], d[1..]);
      assert [d[0]] + d[1..] == d && s[i] == s[i..i + |d|][0] == d[0];
      DigitsThen(s, i + 1, d[1..], size * 16 + HexValue(d[0]));
    }
  }

  lemma {:induction false} TokensThen(s: seq<byte>, i: nat, t: seq<byte>, st: LineState, size: nat)
    requires At(s, i, t) && (forall j :: 0 <= j < |t| ==> TokenChar(t[j] as char)) && (st.Name? || st.InValue?)
    ensures Scan(s, i, st, size) == Scan(s, i + |t|, st, size)
    decreases |t|
  {
    if t != [] {
      AtSplit(s, i, [t[0]], t[1..]);
      assert [t[0]] + t[1..] == t && s[i] == s[i..i + |t|][0] == t[0];
      TokenExact(t[0]);
      TokensThen(s, i + 1, t[1..], st, size);
    }
  }

  /** A name or a value, its first byte in the state that demands one. */
  lemma WordThen(s: seq<byte>, i: nat, t: seq<byte>, first: LineState, st: LineState, size: nat)
    requires At(s, i, t) && IsToken(t)
    requires (first == NameStart && st == Name) || (first == ValueStart && st == InValue)
    ensures Scan(s, i, first, size) == Scan(s, i + |t|, st, size)
  {
    AtSplit(s, i, [t[0]], t[1..]);
    assert [t[0]] + t[1..] == t && s[i] == s[i..i + |t|][0] == t[0];
    TokenExact(t[0]);
    TokensThen(s, i + 1, t[1..], st, size);
  }

  function ValueText(x: Ext): seq<byte> {
    if x.value.Some? then ['=' as byte] + x.value.value else []
  }

  lemma ExtParts(x: Ext)
    ensures ExtText(x) == [';' as byte] + (x.name + ValueText(x))
  {
  }

  /** After one extension the machine is where another one, or the line end, can follow. */
  lemma ExtThen(s: seq<byte>, i: nat, x: Ext, size: nat)
    requires At(s, i, ExtText(x)) && ExtOk(x) && i + |ExtText(x)| < |s|
    requires s[i + |ExtText(x)|] in {13, 10, 59}
    ensures ScanEnd(s, i, size) == ScanEnd(s, i + |ExtText(x)|, size)
  {
    hide Scan, ScanEnd, IsToken, ExtText, ValueText;
    ExtParts(x);
    AtSplit(s, i, [';' as byte], x.name + ValueText(x));
    assert s[i] == s[i..i + 1][0];
    ToName(s, i, size);
    AtSplit(s, i + 1, x.name, ValueText(x));
    WordThen(s, i + 1, x.name, NameStart, Name, size);
    ValueThen(s, i + 1 + |x.name|, x, size);
  }

  lemma ValueThen(s: seq<byte>, j: nat, x: Ext, size: nat)
    requires At(s, j, ValueText(x)) && ExtOk(x) && j + |ValueText(x)| < |s|
    requires s[j + |ValueText(x)|] in {13, 10, 59}
    ensures Scan(s, j, Name, size) == ScanEnd(s, j + |ValueText(x)|, size)
  {
    hide Scan, ScanEnd, IsToken;
    if x.value.Some? {
      AtSplit(s, j, ['=' as byte], x.value.value);
      assert s[j] == s[j..j + 1][0];
      ToValue(s, j, size);
      WordThen(s, j + 1, x.value.value, ValueStart, InValue, size);
      Ends(s, j + 1 + |x.value.value|, InValue, size);
    } else {
      Ends(s, j, Name, size);
    }
  }

  lemma ToName(s: seq<byte>, i: nat, size: nat)
    requires i < |s| && s[i] == 59
    ensures ScanEnd(s, i, size) == Scan(s, i + 1, NameStart, size)
  {
  }

  lemma ToValue(s: seq<byte>, i: nat, size: nat)
    requires i < |s| && s[i] == 61
    ensures Scan(s, i, Name, size) == Scan(s, i + 1, ValueStart, size)
  {
  }

  lemma Ends(s: seq<byte>, i: nat, st: LineState, size: nat)
    requires i < |s| && s[i] in {13, 10, 59} && (st.Name? || st.InValue?)
    ensures Scan(s, i, st, size) == ScanEnd(s, i, size)
  {
  }

  lemma {:induction false} ExtsThen(s: seq<byte>, i: nat, xs: seq<Ext>, eol: seq<byte>, size: nat)
    requires At(s, i, ExtsText(xs) + eol) && i + |ExtsText(xs)| + |eol| == |s| && ExtsOk(xs) && LineEnd(eol)
    ensures i < |s| && s[i] in {13, 10, 59} && ScanEnd(s, i, size) == Done(|s|, size)
    decreases |xs|
  {
    hide Scan, ScanEnd, ExtText, ExtOk, LineEnd;
    if xs == [] {
      assert ExtsText(xs) + eol == eol;
      EolThen(s, i, eol, size);
    } else {
      var rest := ExtsText(xs[1..]) + eol;
      assert ExtsText(xs) + eol == ExtText(xs[0]) + rest;
      AtSplit(s, i, ExtText(xs[0]), rest);
      ExtsThen(s, i + |ExtText(xs[0])|, xs[1..], eol, size);
      ExtThen(s, i, xs[0], size);
      ExtStarts(xs[0]);
      assert s[i] == s[i..i + |ExtText(xs[0])|][0] == ExtText(xs[0])[0];
    }
  }

  lemma EolThen(s: seq<byte>, i: nat, eol: seq<byte>, size: nat)
    requires At(s, i, eol) && i + |eol| == |s| && LineEnd(eol)
    ensures i < |s| && s[i] in {13, 10, 59} && ScanEnd(s, i, size) == Done(|s|, size)
  {
    assert s[i] == s[i..i + |eol|][0];
    if |eol| == 2 { assert s[i + 1] == s[i..i + |eol|][1]; }
  }

  lemma ExtStarts(x: Ext)
    ensures ExtText(x) != [] && ExtText(x)[0] == 59
  {
  }

  /** Digits, any extensions and a line end are a line, and its size is what the digits stand for. */
  lemma GrammarLine(d: seq<byte>, xs: seq<Ext>, eol: seq<byte>)
    requires AllHex(d) && d != [] && ExtsOk(xs) && LineEnd(eol)
    ensures IsLine(d + (ExtsText(xs) + eol), Value(0, d))
  {
    hide ScanEnd;
    var s := d + (ExtsText(xs) + eol);
    assert s[0..|s|] == s;
    AtSplit(s, 0, d, ExtsText(xs) + eol);
    ExtsThen(s, |d|, xs, eol, Value(0, d));
    AtSplit(s, 0, [d[0]], d[1..]);
    assert [d[0]] + d[1..] == d && s[0] == d[0];
    DigitsThen(s, 1, d[1..], HexValue(d[0]));
  }

  // ---------- and every line of the machine is one of the grammar ----------

  /** What the machine has read of the extension it is in. */
  function Read(st: LineState, name: seq<byte>, value: seq<byte>): seq<byte> {
    if st.NameStart? then [';' as byte]
    else if st.Name? then [';' as byte] + name
    else if st.ValueStart? then [';' as byte] + name + ['=' as byte]
    else [';' as byte] + name + ['=' as byte] + value
  }

  predicate InExt(st: LineState, name: seq<byte>, value: seq<byte>) {
    || st.NameStart?
    || ((st.Name? || st.ValueStart?) && IsToken(name))
    || (st.InValue? && IsToken(name) && IsToken(value))
  }

  /** The rest of a finished line, from within an extension. */
  lemma {:induction false} ExtTail(s: seq<byte>, i: nat, st: LineState, size: nat, name: seq<byte>, value: seq<byte>)
    returns (xs: seq<Ext>, eol: seq<byte>)
    requires i <= |s| && InExt(st, name, value) && (!st.InValue? ==> value == [])
    requires Scan(s, i, st, size).Done? && Scan(s, i, st, size).used == |s|
    ensures Scan(s, i, st, size).size == size
    ensures ExtsOk(xs) && LineEnd(eol) && Read(st, name, value) + s[i..] == ExtsText(xs) + eol
    decreases |s| - i, 2
  {
    hide ExtsText, LineEnd, ExtsOk, Read, Token, TokenChar;
    var c := s[i];
    TokenExact(c);
    assert s[i..] == [c] + s[i + 1..];
    if st.NameStart? || st.ValueStart? {
      xs, eol := ExtWord(s, i, st, size, name);
    } else if Token(c) {
      var n, v := if st.Name? then name + [c] else name, if st.Name? then [] else value + [c];
      xs, eol := ExtTail(s, i + 1, st, size, n, v);
      ReadMore(st, name, value, c, s[i + 1..]);
    } else if st.Name? && c == EQUALS {
      xs, eol := ExtTail(s, i + 1, ValueStart, size, name, []);
      ReadEquals(name, s[i + 1..]);
    } else {
      xs, eol := EndTail(s, i, size);
      var x := Ext(name, if st.Name? then None else Some(value));
      Prepend(x, xs, eol, s[i..]);
      ReadDone(st, name, value, s[i..]);
      xs := [x] + xs;
    }
  }

  /** The first byte of a name or a value. */
  lemma {:induction false} ExtWord(s: seq<byte>, i: nat, st: LineState, size: nat, name: seq<byte>)
    returns (xs: seq<Ext>, eol: seq<byte>)
    requires i <= |s| && (st.NameStart? || (st.ValueStart? && IsToken(name)))
    requires Scan(s, i, st, size).Done? && Scan(s, i, st, size).used == |s|
    ensures Scan(s, i, st, size).size == size
    ensures ExtsOk(xs) && LineEnd(eol) && Read(st, name, []) + s[i..] == ExtsText(xs) + eol
    decreases |s| - i, 0
  {
    hide ExtsText, LineEnd, ExtsOk, Token, TokenChar;
    var c := s[i];
    TokenExact(c);
    assert s[i..] == [c] + s[i + 1..];
    if st.NameStart? {
      xs, eol := ExtTail(s, i + 1, Name, size, [c], []);
      assert [';' as byte] + ([c] + s[i + 1..]) == ([';' as byte] + [c]) + s[i + 1..];
    } else {
      xs, eol := ExtTail(s, i + 1, InValue, size, name, [c]);
      var p := [';' as byte] + name + ['=' as byte];
      assert p + ([c] + s[i + 1..]) == (p + [c]) + s[i + 1..];
    }
  }

  lemma ReadMore(st: LineState, name: seq<byte>, value: seq<byte>, c: byte, t: seq<byte>)
    requires st.Name? || st.InValue?
    ensures Read(st, name, value) + ([c] + t) ==
            Read(st, if st.Name? then name + [c] else name, if st.Name? then [] else value + [c]) + t
  {
    hide Read;
    ReadByte(st, name, value, c);
    MoveByte(Read(st, name, value), c, t);
  }

  lemma MoveByte(p: seq<byte>, c: byte, t: seq<byte>)
    ensures p + ([c] + t) == p + [c] + t
  {
  }

  lemma ReadByte(st: LineState, name: seq<byte>, value: seq<byte>, c: byte)
    requires st.Name? || st.InValue?
    ensures Read(st, if st.Name? then name + [c] else name, if st.Name? then [] else value + [c]) ==
            Read(st, name, value) + [c]
  {
    if st.Name? {
      assert [';' as byte] + (name + [c]) == [';' as byte] + name + [c];
    } else {
      var p := [';' as byte] + name + ['=' as byte];
      assert p + (value + [c]) == p + value + [c];
    }
  }

  lemma ReadEquals(name: seq<byte>, t: seq<byte>)
    ensures Read(Name, name, []) + (['=' as byte] + t) == Read(ValueStart, name, []) + t
  {
  }

  lemma ReadDone(st: LineState, name: seq<byte>, value: seq<byte>, t: seq<byte>)
    requires st.Name? || st.InValue?
    ensures Read(st, name, value) + t == ExtText(Ext(name, if st.Name? then None else Some(value))) + t
  {
    assert [';' as byte] + name + ['=' as byte] + value == [';' as byte] + name + (['=' as byte] + value);
  }

  lemma Prepend(x: Ext, xs: seq<Ext>, eol: seq<byte>, tail: seq<byte>)
    requires ExtOk(x) && ExtsOk(xs) && tail == ExtsText(xs) + eol
    ensures ExtsOk([x] + xs) && ExtText(x) + tail == ExtsText([x] + xs) + eol
  {
    assert ([x] + xs)[1..] == xs;
  }

  /** The rest of a finished line, from where an extension or the line end can follow. */
  lemma {:induction false} EndTail(s: seq<byte>, i: nat, size: nat) returns (xs: seq<Ext>, eol: seq<byte>)
    requires i < |s| && ScanEnd(s, i, size).Done? && ScanEnd(s, i, size).used == |s|
    ensures ScanEnd(s, i, size).size == size
    ensures ExtsOk(xs) && LineEnd(eol) && s[i..] == ExtsText(xs) + eol
    decreases |s| - i, 0
  {
    var c := s[i];
    assert s[i..] == [c] + s[i + 1..];
    if c == SEMICOLON {
      xs, eol := ExtTail(s, i + 1, NameStart, size, [], []);
    } else if c == CR {
      assert s[i + 1..] == [10];
      xs, eol := [], [13, 10];
    } else {
      xs, eol := [], [10];
    }
  }

  lemma {:induction false} DigitsTail(s: seq<byte>, i: nat, size: nat)
    returns (d: seq<byte>, xs: seq<Ext>, eol: seq<byte>)
    requires i <= |s| && Scan(s, i, Digits, size).Done? && Scan(s, i, Digits, size).used == |s|
    ensures AllHex(d) && Scan(s, i, Digits, size).size == Value(size, d)
    ensures ExtsOk(xs) && LineEnd(eol) && s[i..] == d + (ExtsText(xs) + eol)
    decreases |s| - i
  {
    hide ExtsText, LineEnd, ExtsOk;
    var c := s[i];
    assert s[i..] == [c] + s[i + 1..];
    if HexDigit(c) {
      var d1;
      d1, xs, eol := DigitsTail(s, i + 1, size * 16 + HexValue(c));
      d := [c] + d1;
      assert d[1..] == d1;
    } else {
      d := [];
      xs, eol := EndTail(s, i, size);
      assert [] + (ExtsText(xs) + eol) == ExtsText(xs) + eol;
    }
  }

  predicate Consists(line: seq<byte>, size: nat, d: seq<byte>, xs: seq<Ext>, eol: seq<byte>) {
    && AllHex(d) && d != [] && ExtsOk(xs) && LineEnd(eol)
    && line == d + (ExtsText(xs) + eol) && size == Value(0, d)
  }

  ghost predicate InGrammar(line: seq<byte>, size: nat) {
    exists d: seq<byte>, xs: seq<Ext>, eol: seq<byte> :: Consists(line, size, d, xs, eol)
  }

  /** The machine accepts exactly the lines of the grammar, with the size their digits stand for. */
  lemma GrammarExact(line: seq<byte>, size: nat)
    ensures IsLine(line, size) <==> InGrammar(line, size)
  {
    if IsLine(line, size) {
      FromLine(line, size);
    }
    if InGrammar(line, size) {
      var d, xs, eol :| Consists(line, size, d, xs, eol);
      GrammarLine(d, xs, eol);
    }
  }

  lemma FromLine(line: seq<byte>, size: nat)
    requires IsLine(line, size)
    ensures InGrammar(line, size)
  {
    hide ExtsText, ExtsOk, LineEnd, ScanEnd;
    var c := line[0];
    var d1, xs, eol := DigitsTail(line, 1, HexValue(c));
    var d := [c] + d1;
    assert line == [c] + line[1..] == d + (ExtsText(xs) + eol) && d[1..] == d1;
    assert Value(0, d) == Value(HexValue(c), d1);
    assert Consists(line, size, d, xs, eol);
  }
}
