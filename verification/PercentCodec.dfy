/** StringUtil::UrlEncode and UrlDecode: percent-encoding as in section 2.1 of RFC 3986, on byte
    strings. */
module PercentCodec {

  import opened Options
  import opened Blocks

  const PERCENT: byte := 37
  const PLUS: byte := 43
  const SPACE: byte := 32
  const EQUALS: byte := 61
  const AMPERSAND: byte := 38

  predicate Digit(c: byte) {
    48 <= c <= 57
  }

  /** The bytes the table uri_chars lets through: letters, digits, '-', '.', '_', '~' and '='. */
  predicate Unreserved(c: byte) {
    Digit(c) || 65 <= c <= 90 || 97 <= c <= 122 || c in {45, 46, 95, 126, EQUALS}
  }

  predicate HexDigit(c: byte) {
    Digit(c) || 65 <= c <= 70 || 97 <= c <= 102
  }

  function HexValue(c: byte): (v: nat)
    ensures v < 16
  {
    if Digit(c) then c - 48 else if 65 <= c <= 70 then c - 55 else if 97 <= c <= 102 then c - 87 else 0
  }

  function HexOf(v: nat): (c: byte)
    requires v < 16
    ensures HexDigit(c) && HexValue(c) == v
  {
    if v < 10 then 48 + v else 55 + v
  }

  // ---------- the per-byte definition ----------

  function EncodeByte(c: byte, plus: bool): seq<byte> {
    if Unreserved(c) then [c]
    else if c == SPACE && plus then [PLUS]
    else [PERCENT, HexOf(c / 16), HexOf(c % 16)]
  }

  function Encode(s: seq<byte>, plus: bool): seq<byte> {
    if s == [] then [] else EncodeByte(s[0], plus) + Encode(s[1..], plus)
  }

  /** A percent sign counts only with two hexadecimal digits after it. */
  predicate Escape(s: seq<byte>) {
    |s| > 2 && s[0] == PERCENT && HexDigit(s[1]) && HexDigit(s[2])
  }

  function Decode(s: seq<byte>, plus: bool): seq<byte> {
    if s == [] then []
    else if s[0] == PLUS && plus then [SPACE] + Decode(s[1..], plus)
    else if Escape(s) then [HexValue(s[1]) * 16 + HexValue(s[2])] + Decode(s[3..], plus)
    else [s[0]] + Decode(s[1..], plus)
  }

  // ---------- the loops ----------

  /** The string is copied only from the first byte that changes; until then the result is the
      argument itself. */
  method UrlEncode(str: seq<byte>, plus: bool) returns (r: seq<byte>)
    ensures r == Encode(str, plus)
  {
    hide Encode, EncodeByte;
    var ss: Option<seq<byte>> := None;
    var c := 0;
    assert str[0..] == str;
    while c < |str|
      invariant c <= |str|
      invariant (if ss.Some? then ss.value else str[..c]) + Encode(str[c..], plus) == Encode(str, plus)
    {
      EncodeFrom(if ss.Some? then ss.value else str[..c], str, c, plus);
      if !Unreserved(str[c]) {
        if ss.None? {
          ss := Some(str[..c]);
        }
        var more := AppendEscaped(ss.value, str[c], plus);
        ss := Some(more);
      } else if ss.Some? {
        ss := Some(ss.value + [str[c]]);
      } else {
        assert str[..c + 1] == str[..c] + [str[c]];
      }
      c := c + 1;
    }
    EncodeNothing(str, plus);
    r := if ss.None? then str else ss.value;
  }

  method AppendEscaped(ss: seq<byte>, c: byte, plus: bool) returns (r: seq<byte>)
    requires !Unreserved(c)
    ensures r == ss + EncodeByte(c, plus)
  {
    if c == SPACE && plus {
      r := ss + [PLUS];
    } else {
      r := ss + [PERCENT];
      r := r + [HexOf(c / 16)];
      r := r + [HexOf(c % 16)];
    }
  }

  lemma EncodeFrom(done: seq<byte>, str: seq<byte>, c: nat, plus: bool)
    requires c < |str|
    ensures done + Encode(str[c..], plus) == (done + EncodeByte(str[c], plus)) + Encode(str[c + 1..], plus)
    ensures Unreserved(str[c]) ==> EncodeByte(str[c], plus) == [str[c]]
  {
    assert str[c..][1..] == str[c + 1..];
    Appended(done, EncodeByte(str[c], plus), Encode(str[c + 1..], plus));
  }

  lemma EncodeNothing(str: seq<byte>, plus: bool)
    ensures str[..|str|] == str && forall x :: x + Encode(str[|str|..], plus) == x
  {
  }

  lemma Appended(a: seq<byte>, b: seq<byte>, c: seq<byte>)
    ensures (a + b) + c == a + (b + c)
  {
  }

  method UrlDecode(str: seq<byte>, plus: bool) returns (r: seq<byte>)
    ensures r == Decode(str, plus)
  {
    hide Decode, HexValue;
    var ss: Option<seq<byte>> := None;
    var c := 0;
    assert str[0..] == str;
    while c < |str|
      invariant c <= |str|
      invariant (if ss.Some? then ss.value else str[..c]) + Decode(str[c..], plus) == Decode(str, plus)
    {
      DecodeFrom(if ss.Some? then ss.value else str[..c], str, c, plus);
      if str[c] == PLUS && plus {
        if ss.None? {
          ss := Some(str[..c]);
        }
        ss := Some(ss.value + [SPACE]);
      } else if str[c] == PERCENT && c + 2 < |str| && HexDigit(str[c + 1]) && HexDigit(str[c + 2]) {
        if ss.None? {
          ss := Some(str[..c]);
        }
        var b: byte := HexValue(str[c + 1]) * 16 + HexValue(str[c + 2]);
        ss := Some(ss.value + [b]);
        c := c + 2;
      } else if ss.Some? {
        ss := Some(ss.value + [str[c]]);
      } else {
        assert str[..c + 1] == str[..c] + [str[c]];
      }
      c := c + 1;
    }
    DecodeNothing(str, plus);
    r := if ss.None? then str else ss.value;
  }

  lemma DecodeFrom(done: seq<byte>, str: seq<byte>, c: nat, plus: bool)
    requires c < |str|
    ensures done + Decode(str[c..], plus) ==
            if str[c] == PLUS && plus then (done + [SPACE]) + Decode(str[c + 1..], plus)
            else if str[c] == PERCENT && c + 2 < |str| && HexDigit(str[c + 1]) && HexDigit(str[c + 2])
            then (done + [HexValue(str[c + 1]) * 16 + HexValue(str[c + 2])]) + Decode(str[c + 3..], plus)
            else (done + [str[c]]) + Decode(str[c + 1..], plus)
  {
    assert str[c..][1..] == str[c + 1..];
    if Escape(str[c..]) { assert str[c..][3..] == str[c + 3..]; }
    hide HexValue;
  }

  lemma DecodeNothing(str: seq<byte>, plus: bool)
    ensures str[..|str|] == str && forall x :: x + Decode(str[|str|..], plus) == x
  {
  }

  // ---------- the tables, character by character ----------

  /** The characters that are left alone: letters, digits and five more. */
  predicate LeftAlone(c: char) {
    'a' <= c <= 'z' || 'A' <= c <= 'Z' || '0' <= c <= '9' || c in {'-', '.', '_', '~', '='}
  }

  const LOWER_HEX := "0123456789abcdef"
  const UPPER_HEX := "0123456789ABCDEF"

  /** A hexadecimal digit of either case stands for its place among the sixteen. */
  lemma HexExact(c: byte)
    ensures HexDigit(c) <==> c as char in LOWER_HEX || c as char in UPPER_HEX
    ensures HexDigit(c) ==>
              c as char == LOWER_HEX[HexValue(c)] || c as char == UPPER_HEX[HexValue(c)]
  {
    if HexDigit(c) {
      var v := HexValue(c);
      assert LOWER_HEX[v] == c as char || UPPER_HEX[v] == c as char;
    }
  }

  /** What is written for one byte, in characters: itself, a plus sign for a space, or a percent sign
      and its two upper-case digits. */
  lemma EncodeExact(c: byte, rest: seq<byte>, plus: bool)
    ensures Encode([c] + rest, plus) ==
            (if LeftAlone(c as char) then [c]
             else if c as char == ' ' && plus then ['+' as byte]
             else ['%' as byte, UPPER_HEX[c / 16] as byte, UPPER_HEX[c % 16] as byte]) + Encode(rest, plus)
  {
    HexOfExact(c / 16);
    HexOfExact(c % 16);
    assert ([c] + rest)[1..] == rest;
  }

  lemma HexOfExact(v: nat)
    requires v < 16
    ensures HexOf(v) as char == UPPER_HEX[v]
  {
  }

  /** What is read at one place, in characters: a space for a plus sign, the byte that two digits of
      either case after a percent sign stand for, or the byte itself. */
  lemma DecodeExact(s: seq<byte>, plus: bool)
    requires s != []
    ensures Decode(s, plus) ==
            if s[0] as char == '+' && plus then [' ' as byte] + Decode(s[1..], plus)
            else if s[0] as char == '%' && |s| > 2 && HexDigit(s[1]) && HexDigit(s[2])
            then [16 * HexValue(s[1]) + HexValue(s[2])] + Decode(s[3..], plus)
            else [s[0]] + Decode(s[1..], plus)
  {
  }

  // ---------- properties ----------

  /** What decoding makes of one encoded byte, whatever follows. */
  lemma DecodeByte(c: byte, e: bool, d: bool, rest: seq<byte>)
    ensures Decode(EncodeByte(c, e) + rest, d) == [if c == SPACE && e && !d then PLUS else c] + Decode(rest, d)
  {
    var x := EncodeByte(c, e) + rest;
    if |EncodeByte(c, e)| == 1 {
      assert x[1..] == rest;
    } else {
      assert Escape(x) && x[3..] == rest;
      assert c / 16 * 16 + c % 16 == c;
    }
  }

  /** Decoding without the plus rule what was encoded with it. */
  function Spaced(s: seq<byte>, e: bool, d: bool): (r: seq<byte>)
    ensures |r| == |s| && forall i :: 0 <= i < |s| ==> r[i] == if s[i] == SPACE && e && !d then PLUS else s[i]
  {
    seq(|s|, i requires 0 <= i < |s| => if s[i] == SPACE && e && !d then PLUS else s[i])
  }

  lemma {:induction false} DecodeEncode(s: seq<byte>, e: bool, d: bool)
    ensures Decode(Encode(s, e), d) == Spaced(s, e, d)
    decreases |s|
  {
    hide EncodeByte, Unreserved, Escape, HexValue;
    if s == [] {
    } else {
      DecodeByte(s[0], e, d, Encode(s[1..], e));
      DecodeEncode(s[1..], e, d);
      assert Spaced(s, e, d) == [Spaced(s, e, d)[0]] + Spaced(s[1..], e, d);
    }
  }

  /** Decoding undoes encoding exactly when the decoder turns plus signs back, or the encoder did not
      write any. With the same flag on both sides it always does. */
  lemma RoundTrip(s: seq<byte>, e: bool, d: bool)
    ensures Decode(Encode(s, e), d) == s <==> ((e ==> d) || 32 !in s)
  {
    DecodeEncode(s, e, d);
    if SPACE in s && e && !d {
      var i :| 0 <= i < |s| && s[i] == SPACE;
      assert Spaced(s, e, d)[i] == PLUS;
    } else {
      assert Spaced(s, e, d) == s;
    }
  }

  /** Only characters that are left alone, percent and plus signs are written; in particular no
      ampersand. */
  lemma {:induction false} EncodeAlphabet(s: seq<byte>, plus: bool)
    ensures forall c :: c in Encode(s, plus) ==>
                          LeftAlone(c as char) || c as char == '%' || (c as char == '+' && plus)
    decreases |s|
  {
    if s != [] {
      EncodeAlphabet(s[1..], plus);
      assert forall v :: 0 <= v < 16 ==> Unreserved(HexOf(v));
    }
  }
}
