/** HttpRequest's parameters: the parser of query strings and form bodies, and the map it fills. */
module QueryParams {

  import opened Options
  import opened Blocks
  import opened PercentCodec

  datatype Pair = Pair(key: seq<byte>, value: seq<byte>)

  /** A map in the order of CaseInsensitiveLess: two keys are the same entry when they agree up to
      the first NUL, letters of either case alike. */
  type Params = map<seq<byte>, Pair>

  function Lower(c: byte): byte {
    if 65 <= c <= 90 then c + 32 else c
  }

  function Fold(key: seq<byte>): seq<byte> {
    if key == [] || key[0] == 0 then [] else [Lower(key[0])] + Fold(key[1..])
  }

  /** strcasecmp on the C strings of two keys: bytes with letters lowered, up to the first
      difference or the terminating NUL. */
  function Strcasecmp(a: seq<byte>, b: seq<byte>): int
    decreases |a|
  {
    var x := if a == [] then 0 else Lower(a[0]);
    var y := if b == [] then 0 else Lower(b[0]);
    if x != y || x == 0 then x - y else Strcasecmp(a[1..], b[1..])
  }

  /** Two keys are one entry, neither less than the other, exactly when they fold alike. */
  lemma {:induction false} SameEntry(a: seq<byte>, b: seq<byte>)
    ensures Strcasecmp(a, b) == 0 <==> Fold(a) == Fold(b)
    ensures Strcasecmp(a, b) == -Strcasecmp(b, a)
    decreases |a|
  {
    if a != [] && b != [] && Lower(a[0]) == Lower(b[0]) && a[0] != 0 {
      SameEntry(a[1..], b[1..]);
      assert Fold(a)[1..] == Fold(a[1..]) && Fold(b)[1..] == Fold(b[1..]);
    } else {
      assert Fold(a) != [] ==> Fold(a)[0] == Lower(a[0]) != 0;
      assert Fold(b) != [] ==> Fold(b)[0] == Lower(b[0]) != 0;
    }
  }

  /** Two bytes are the same or the two cases of one letter. */
  predicate SameLetter(x: byte, y: byte) {
    || x == y
    || ('A' <= x as char <= 'Z' && y == x + 32)
    || ('A' <= y as char <= 'Z' && x == y + 32)
  }

  /** Where the C string in a byte string ends. */
  function CLength(key: seq<byte>): (n: nat)
    ensures n <= |key| && (forall i :: 0 <= i < n ==> key[i] != 0) && (n < |key| ==> key[n] == 0)
  {
    if key == [] || key[0] == 0 then 0 else 1 + CLength(key[1..])
  }

  /** Two keys are one entry exactly when they have the same number of bytes before the first NUL and
      each pair of these is the same byte or the two cases of one letter. */
  lemma {:induction false} FoldExact(a: seq<byte>, b: seq<byte>)
    ensures Fold(a) == Fold(b) <==>
            CLength(a) == CLength(b) && forall i :: 0 <= i < CLength(a) && i < CLength(b) ==> SameLetter(a[i], b[i])
    decreases |a|
  {
    if CLength(a) > 0 && CLength(b) > 0 {
      var x, y := a[1..], b[1..];
      FoldExact(x, y);
      assert Fold(a) == [Lower(a[0])] + Fold(x) && Fold(b) == [Lower(b[0])] + Fold(y);
      assert Fold(a)[1..] == Fold(x) && Fold(b)[1..] == Fold(y);
      assert Lower(a[0]) == Lower(b[0]) <==> SameLetter(a[0], b[0]);
      if CLength(a) == CLength(b) && SameLetter(a[0], b[0]) {
        if forall i :: 0 <= i < CLength(x) && i < CLength(y) ==> SameLetter(x[i], y[i]) {
          forall i | 0 <= i < CLength(a) ensures SameLetter(a[i], b[i]) {
            if i > 0 { assert a[i] == x[i - 1] && b[i] == y[i - 1]; }
          }
        } else {
          var i :| 0 <= i < CLength(x) && i < CLength(y) && !SameLetter(x[i], y[i]);
          assert a[i + 1] == x[i] && b[i + 1] == y[i];
        }
      }
    }
  }

  /** CaseInsensitiveLess orders keys strictly: what the map relies on. */
  lemma {:induction false} LessTransitive(a: seq<byte>, b: seq<byte>, c: seq<byte>)
    requires Strcasecmp(a, b) <= 0 && Strcasecmp(b, c) <= 0
    ensures Strcasecmp(a, c) <= 0
    ensures Strcasecmp(a, b) < 0 || Strcasecmp(b, c) < 0 ==> Strcasecmp(a, c) < 0
    decreases |a|
  {
    if a != [] && b != [] && c != [] && a[0] != 0 && Lower(a[0]) == Lower(b[0]) == Lower(c[0]) {
      LessTransitive(a[1..], b[1..], c[1..]);
    }
  }

  /** map::insert: an entry that exists stays. */
  function Insert(m: Params, p: Pair): Params {
    if Fold(p.key) in m then m else m[Fold(p.key) := p]
  }

  function InsertAll(m: Params, ps: seq<Pair>): Params
    decreases |ps|
  {
    if ps == [] then m else InsertAll(Insert(m, ps[0]), ps[1..])
  }

  function Lookup(m: Params, key: seq<byte>, def: seq<byte>): seq<byte> {
    if Fold(key) in m then m[Fold(key)].value else def
  }

  // ---------- finding ----------

  /** string::find from a position; None is npos. */
  function Find(s: seq<byte>, c: byte, from: nat): (r: Option<nat>)
    requires from <= |s|
    ensures r.Some? ==> from <= r.value < |s| && s[r.value] == c && forall i :: from <= i < r.value ==> s[i] != c
    ensures r.None? ==> forall i :: from <= i < |s| ==> s[i] != c
    decreases |s| - from
  {
    if from == |s| then None else if s[from] == c then Some(from) else Find(s, c, from + 1)
  }

  /** The first place of a byte is where find says. */
  lemma FindAt(s: seq<byte>, c: byte, from: nat, at: nat)
    requires from <= at < |s| && s[at] == c && forall i :: from <= i < at ==> s[i] != c
    ensures Find(s, c, from) == Some(at)
  {
    hide Find;
    var r := Find(s, c, from);
    if r.Some? { assert s[r.value] == c; }
  }

  lemma FindNone(s: seq<byte>, c: byte, from: nat)
    requires from <= |s| && forall i :: from <= i < |s| ==> s[i] != c
    ensures Find(s, c, from) == None
  {
    hide Find;
  }

  // ---------- the pairs of a string ----------

  /** One pair and where the next begins. */
  datatype Turn = NoPair | Found(pair: Pair, next: Option<nat>)

  /** A key runs up to the next '=', a value from there to the next '&' or the end; what is left
      without '=' is not a pair. */
  function TurnAt(s: seq<byte>, last: nat): (t: Turn)
    requires last <= |s|
    ensures t.Found? && t.next.Some? ==> last < t.next.value <= |s|
  {
    var key := Find(s, EQUALS, last);
    if key.None? then NoPair else
    var end := Find(s, AMPERSAND, key.value);
    if end.None? then Found(Pair(s[last..key.value], Decode(s[key.value + 1..], true)), None)
    else Found(Pair(s[last..key.value], Decode(s[key.value + 1..end.value], true)), Some(end.value + 1))
  }

  /** The pairs written in a string from a position on. */
  function PairsFrom(s: seq<byte>, last: nat): seq<Pair>
    requires last <= |s|
    decreases |s| - last, 1
  {
    var t := TurnAt(s, last);
    if t.NoPair? then [] else [t.pair] + PairsAfter(s, last, t)
  }

  function PairsAfter(s: seq<byte>, last: nat, t: Turn): seq<Pair>
    requires last <= |s| && t.Found? && (t.next.Some? ==> last < t.next.value <= |s|)
    decreases |s| - last, 0
  {
    if t.next.None? then [] else PairsFrom(s, t.next.value)
  }

  function Pairs(s: seq<byte>): seq<Pair> {
    PairsFrom(s, 0)
  }

  /** Finding in the rest of a string. */
  lemma {:induction false} FindShift(s: seq<byte>, c: byte, last: nat, from: nat)
    requires last <= from <= |s|
    ensures var r, q := Find(s, c, from), Find(s[last..], c, from - last);
            if r.Some? then q == Some(r.value - last) else q == None
    decreases |s| - from
  {
    if from < |s| && s[from] != c { FindShift(s, c, last, from + 1); }
  }

  /** The pairs from a position on are the pairs of the rest of the string. */
  lemma {:induction false} PairsShift(s: seq<byte>, cut: nat, last: nat)
    requires cut <= last <= |s|
    ensures PairsFrom(s, last) == PairsFrom(s[cut..], last - cut)
    decreases |s| - last
  {
    hide TurnAt;
    TurnShift(s, cut, last);
    var t := TurnAt(s, last);
    if t.Found? && t.next.Some? { PairsShift(s, cut, t.next.value); }
  }

  lemma TurnShift(s: seq<byte>, cut: nat, last: nat)
    requires cut <= last <= |s|
    ensures var t, u := TurnAt(s, last), TurnAt(s[cut..], last - cut);
            if t.NoPair? then u.NoPair? else
            u == Found(t.pair, if t.next.Some? then Some(t.next.value - cut) else None)
  {
    hide Find, Decode;
    FindShift(s, EQUALS, cut, last);
    var key := Find(s, EQUALS, last);
    if key.Some? {
      FindShift(s, AMPERSAND, cut, key.value);
      var end := Find(s, AMPERSAND, key.value);
      Sliced(s, cut, last, key.value, if end.Some? then end.value else |s|);
    }
  }

  lemma Sliced(s: seq<byte>, cut: nat, last: nat, key: nat, end: nat)
    requires cut <= last <= key < end <= |s|
    ensures s[cut..][last - cut..key - cut] == s[last..key] && s[cut..][key - cut + 1..end - cut] == s[key + 1..end]
    ensures s[cut..][key - cut + 1..] == s[key + 1..]
  {
  }

  /** The loop of PARSE_PARAM inserts the pairs in order. */
  method ParseParams(str: seq<byte>, params: Params) returns (m: Params)
    ensures m == InsertAll(params, Pairs(str))
  {
    hide Find, InsertAll, Decode, Insert, PairsFrom;
    m := params;
    var pos := 0;
    var more := true;
    while more
      invariant pos <= |str|
      invariant InsertAll(m, if more then PairsFrom(str, pos) else []) == InsertAll(params, Pairs(str))
      decreases more, |str| - pos
    {
      var last := pos;
      Unrolled(m, str, last);
      var key := Find(str, EQUALS, last);
      if key.None? {
        more := false;
      } else {
        var end := Find(str, AMPERSAND, key.value);
        if end.None? {
          m := Insert(m, Pair(str[last..key.value], Decode(str[key.value + 1..], true)));
          more := false;
        } else {
          m := Insert(m, Pair(str[last..key.value], Decode(str[key.value + 1..end.value], true)));
          pos := end.value + 1;
        }
      }
    }
    InsertNone(m);
  }

  lemma Unrolled(m: Params, s: seq<byte>, last: nat)
    requires last <= |s|
    ensures var t := TurnAt(s, last);
            InsertAll(m, PairsFrom(s, last)) ==
            if t.NoPair? then InsertAll(m, []) else InsertAll(Insert(m, t.pair), PairsAfter(s, last, t))
  {
    hide TurnAt, Insert;
    var t := TurnAt(s, last);
    if t.Found? { InsertOne(m, t.pair, PairsAfter(s, last, t)); }
  }

  lemma InsertNone(m: Params)
    ensures InsertAll(m, []) == m
  {
  }

  lemma InsertOne(m: Params, p: Pair, ps: seq<Pair>)
    ensures InsertAll(m, [p] + ps) == InsertAll(Insert(m, p), ps)
  {
    assert ([p] + ps)[1..] == ps;
  }

  // ---------- round trip ----------

  function Text(p: Pair, plus: bool): seq<byte> {
    p.key + ['=' as byte] + Encode(p.value, plus)
  }

  /** The pairs joined with '&'. */
  function Join(ps: seq<Pair>, plus: bool): seq<byte> {
    if ps == [] then [] else if |ps| == 1 then Text(ps[0], plus)
    else Text(ps[0], plus) + ['&' as byte] + Join(ps[1..], plus)
  }

  /** Where the delimiters of the first pair are, when its key has no '='. */
  lemma FirstFinds(p: Pair, plus: bool, rest: seq<byte>)
    requires (rest == [] || rest[0] == AMPERSAND) && EQUALS !in p.key
    ensures var s := Text(p, plus) + rest;
            && Find(s, EQUALS, 0) == Some(|p.key|)
            && Find(s, AMPERSAND, |p.key|) == if rest == [] then None else Some(|Text(p, plus)|)
  {
    hide Find, Encode;
    var s, n, e := Text(p, plus) + rest, |p.key|, Encode(p.value, plus);
    FindAt(s, EQUALS, 0, n);
    EncodeAlphabet(p.value, plus);
    forall i | n <= i < |Text(p, plus)| ensures s[i] != AMPERSAND {
      if i > n { assert s[i] == e[i - n - 1] && e[i - n - 1] in e; }
    }
    if rest == [] {
      FindNone(s, AMPERSAND, n);
    } else {
      FindAt(s, AMPERSAND, n, |Text(p, plus)|);
    }
  }

  /** The first pair of a joined string is read back when its key has no '='; otherwise the key that
      is read is a shorter one. */
  lemma FirstPair(p: Pair, plus: bool, rest: seq<byte>)
    requires rest == [] || rest[0] == AMPERSAND
    ensures var s := Text(p, plus) + rest;
            if EQUALS in p.key then TurnAt(s, 0).Found? && |TurnAt(s, 0).pair.key| < |p.key|
            else TurnAt(s, 0) == Found(p, if rest == [] then None else Some(|Text(p, plus)| + 1))
  {
    hide Find, Encode, Decode;
    var s, n := Text(p, plus) + rest, |p.key|;
    if EQUALS in p.key {
      var i :| 0 <= i < n && p.key[i] == EQUALS;
      assert s[i] == EQUALS;
    } else {
      FirstFinds(p, plus, rest);
      RoundTrip(p.value, plus, true);
      assert s[0..n] == p.key && s[n + 1..|Text(p, plus)|] == Encode(p.value, plus);
      assert rest == [] ==> s[n + 1..] == Encode(p.value, plus);
    }
  }

  lemma JoinHead(ps: seq<Pair>, plus: bool)
    requires ps != []
    ensures Join(ps, plus) == Text(ps[0], plus) + if |ps| == 1 then [] else [AMPERSAND] + Join(ps[1..], plus)
  {
    hide Text;
  }

  /** Parsing gives back exactly the pairs that were joined, in order, if and only if no key contains
      '='. Other bytes may occur in keys, '&' included. */
  lemma {:induction false} PairsJoin(ps: seq<Pair>, plus: bool)
    ensures Pairs(Join(ps, plus)) == ps <==> forall i :: 0 <= i < |ps| ==> '=' as byte !in ps[i].key
    decreases |ps|
  {
    if ps == [] {
      FindNone([], EQUALS, 0);
    } else {
      PairsJoin(ps[1..], plus);
      JoinTurn(ps, plus);
      Headed(ps[0], Pairs(Join(ps[1..], plus)), ps);
    }
  }

  lemma JoinTurn(ps: seq<Pair>, plus: bool)
    requires ps != []
    ensures var qs := Pairs(Join(ps, plus));
            if EQUALS in ps[0].key then qs != [] && qs[0] != ps[0]
            else qs == [ps[0]] + Pairs(Join(ps[1..], plus))
  {
    hide TurnAt, Text;
    var p := ps[0];
    var rest := if |ps| == 1 then [] else [AMPERSAND] + Join(ps[1..], plus);
    JoinHead(ps, plus);
    FirstPair(p, plus, rest);
    var s, n := Text(p, plus) + rest, |Text(p, plus)| + 1;
    if |ps| == 1 {
      NoPairs(ps[1..], plus);
      assert Join(ps, plus) == s && PairsFrom(s, 0) == [TurnAt(s, 0).pair] + PairsAfter(s, 0, TurnAt(s, 0));
    } else {
      assert s[n..] == Join(ps[1..], plus);
      PairsShift(s, n, n);
    }
  }

  lemma NoPairs(ps: seq<Pair>, plus: bool)
    requires ps == []
    ensures Pairs(Join(ps, plus)) == []
  {
    FindNone([], EQUALS, 0);
  }

  lemma Headed(p: Pair, qs: seq<Pair>, ps: seq<Pair>)
    requires ps != [] && ps[0] == p
    ensures [p] + qs == ps <==> qs == ps[1..]
  {
    assert ps == [p] + ps[1..];
    if [p] + qs == ps { assert qs == ([p] + qs)[1..]; }
  }

  /** Every string has pairs of this shape: up to the first '=' a key, from there to the next '&' or
      the end a value, which is decoded with plus signs for spaces, and then the pairs of the rest. */
  lemma PairsExact(k: seq<byte>, v: seq<byte>, rest: seq<byte>)
    requires '=' as byte !in k && '&' as byte !in v
    ensures Pairs(k + ['=' as byte] + v) == [Pair(k, Decode(v, true))]
    ensures Pairs(k + ['=' as byte] + v + ['&' as byte] + rest) == [Pair(k, Decode(v, true))] + Pairs(rest)
  {
    hide Find, Decode;
    var n := |k| + 1 + |v|;
    var s := k + ['=' as byte] + v;
    var t := s + ['&' as byte] + rest;
    FindAt(s, EQUALS, 0, |k|);
    FindAt(t, EQUALS, 0, |k|);
    forall i | |k| <= i < n ensures s[i] != AMPERSAND && t[i] != AMPERSAND {
      if i > |k| { assert s[i] == v[i - |k| - 1] && t[i] == s[i]; }
    }
    FindNone(s, AMPERSAND, |k|);
    FindAt(t, AMPERSAND, |k|, n);
    assert s[0..|k|] == k && s[|k| + 1..] == v && t[0..|k|] == k && t[|k| + 1..n] == v && t[n + 1..] == rest;
    PairsShift(t, n + 1, n + 1);
    assert TurnAt(s, 0) == Found(Pair(k, Decode(v, true)), None);
    assert TurnAt(t, 0) == Found(Pair(k, Decode(v, true)), Some(n + 1));
    assert PairsFrom(s, 0) == [Pair(k, Decode(v, true))] + [];
    assert PairsFrom(t, 0) == [Pair(k, Decode(v, true))] + PairsFrom(t, n + 1);
  }

  lemma NoEquals(s: seq<byte>)
    requires '=' as byte !in s
    ensures Pairs(s) == []
  {
    FindNone(s, EQUALS, 0);
  }

  // ---------- what a lookup finds ----------

  /** The first pair under a key, letters of either case alike. */
  function First(ps: seq<Pair>, key: seq<byte>): (r: Option<Pair>)
    ensures r.Some? ==> r.value in ps && Fold(r.value.key) == Fold(key)
    ensures r.None? <==> forall i :: 0 <= i < |ps| ==> Fold(ps[i].key) != Fold(key)
  {
    if ps == [] then None else if Fold(ps[0].key) == Fold(key) then Some(ps[0]) else First(ps[1..], key)
  }

  /** An entry that was there stays; otherwise the first pair under the key wins. */
  lemma {:induction false} LookupFirst(m: Params, ps: seq<Pair>, key: seq<byte>, def: seq<byte>)
    ensures Lookup(InsertAll(m, ps), key, def) ==
            if Fold(key) in m then m[Fold(key)].value
            else if First(ps, key).Some? then First(ps, key).value.value else def
    decreases |ps|
  {
    if ps != [] {
      hide Fold;
      LookupFirst(Insert(m, ps[0]), ps[1..], key, def);
    }
  }

  /** Query before body: a key in the query is never answered from the body. */
  lemma {:induction false} QueryBeatsBody(query: seq<Pair>, body: seq<Pair>, key: seq<byte>)
    ensures First(query + body, key) == if First(query, key).Some? then First(query, key) else First(body, key)
    decreases |query|
  {
    if query == [] {
      assert query + body == body;
    } else {
      hide Fold;
      assert (query + body)[1..] == query[1..] + body;
      QueryBeatsBody(query[1..], body, key);
    }
  }

  lemma FirstOfNone(key: seq<byte>)
    ensures First([], key) == None
  {
  }

  lemma {:induction false} InsertAllJoin(m: Params, ps: seq<Pair>, qs: seq<Pair>)
    ensures InsertAll(m, ps + qs) == InsertAll(InsertAll(m, ps), qs)
    decreases |ps|
  {
    if ps == [] {
      assert ps + qs == qs;
    } else {
      assert (ps + qs)[1..] == ps[1..] + qs;
      InsertAllJoin(Insert(m, ps[0]), ps[1..], qs);
    }
  }

  /** Joined, parsed and looked up: with keys that are distinct ignoring case, every value comes
      back. */
  lemma {:induction false} ValueComesBack(ps: seq<Pair>, plus: bool, i: nat, def: seq<byte>)
    requires i < |ps| && forall j :: 0 <= j < |ps| ==> '=' as byte !in ps[j].key
    requires forall j :: 0 <= j < |ps| && j != i ==> Fold(ps[j].key) != Fold(ps[i].key)
    ensures Lookup(InsertAll(map[], Pairs(Join(ps, plus))), ps[i].key, def) == ps[i].value
  {
    hide First, Fold, Pairs, Join, InsertAll;
    PairsJoin(ps, plus);
    LookupFirst(map[], ps, ps[i].key, def);
    var r := First(ps, ps[i].key);
    assert r.Some?;
    var j :| 0 <= j < |ps| && ps[j] == r.value;
  }

  // ---------- the request ----------

  /** The part of HttpRequest that holds parameters; `isForm` is the test of its content-type. */
  class Request {
    const query: seq<byte>
    const body: seq<byte>
    const isForm: bool
    var params: Params
    var queryDone: bool   // bit 0x1 of m_parserParamFlag
    var bodyDone: bool    // bit 0x2

    constructor (query: seq<byte>, body: seq<byte>, isForm: bool)
      ensures this.query == query && this.body == body && this.isForm == isForm
      ensures params == map[] && !queryDone && !bodyDone
    {
      this.query, this.body, this.isForm := query, body, isForm;
      params, queryDone, bodyDone := map[], false, false;
    }

    /** What is still to be parsed, in order. */
    function ToParse(): seq<Pair>
      reads this
    {
      (if queryDone then [] else Pairs(query)) + (if bodyDone || !isForm then [] else Pairs(body))
    }

    method InitQueryParam()
      modifies this
      ensures queryDone && bodyDone == old(bodyDone)
      ensures params == if old(queryDone) then old(params) else InsertAll(old(params), Pairs(query))
    {
      if queryDone {
        return;
      }
      params := ParseParams(query, params);
      queryDone := true;
    }

    method InitBodyParam()
      modifies this
      ensures bodyDone && queryDone == old(queryDone)
      ensures params == if old(bodyDone) || !isForm then old(params) else InsertAll(old(params), Pairs(body))
    {
      if bodyDone {
        return;
      }
      if !isForm {
        bodyDone := true;
        return;
      }
      params := ParseParams(body, params);
      bodyDone := true;
    }

    /** Everything unparsed is parsed, query before body; after that a call changes nothing. */
    method GetParam(key: seq<byte>, def: seq<byte>) returns (r: seq<byte>)
      modifies this
      ensures params == InsertAll(old(params), old(ToParse())) && ToParse() == []
      ensures old(ToParse()) == [] ==> params == old(params)
      ensures queryDone && bodyDone && (old(queryDone && bodyDone) ==> params == old(params))
      ensures old(!queryDone && !bodyDone && params == map[]) ==>
                r == if First(Pairs(query), key).Some? then First(Pairs(query), key).value.value
                     else if isForm && First(Pairs(body), key).Some? then First(Pairs(body), key).value.value
                     else def
      ensures r == if Fold(key) in old(params) then old(params)[Fold(key)].value
                   else if First(old(ToParse()), key).Some? then First(old(ToParse()), key).value.value else def
    {
      hide Pairs, First, Fold;
      QueryBeatsBody(Pairs(query), if isForm then Pairs(body) else [], key);
      FirstOfNone(key);
      InsertAllJoin(params, if queryDone then [] else Pairs(query), if bodyDone || !isForm then [] else Pairs(body));
      LookupFirst(params, ToParse(), key, def);
      InsertNone(params);
      InsertNone(InsertAll(params, Pairs(query)));
      InitQueryParam();
      InitBodyParam();
      r := Lookup(params, key, def);
    }
  }
}
