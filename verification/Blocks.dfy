/** Bytes, and the arithmetic of a flat byte string cut into blocks of one size.

    Nothing here touches the heap: ByteArray.dfy uses these lemmas to show that its
    linked list of blocks behaves like one flat buffer. */
module Blocks {

  type byte = x: int | 0 <= x < 256

  /** Where block `k` starts, `k * b`, kept away from nonlinear arithmetic. */
  function Off(k: nat, b: nat): (r: nat)
    decreases k
  {
    if k == 0 then 0 else Off(k - 1, b) + b
  }

  lemma {:induction false} OffIsProduct(k: nat, b: nat)
    ensures Off(k, b) == k * b
  {
    if k > 0 {
      OffIsProduct(k - 1, b);
      assert k * b == (k - 1) * b + b;
    }
  }

  lemma OffNext(k: nat, b: nat)
    ensures Off(k + 1, b) == Off(k, b) + b
  {
  }

  lemma {:induction false} OffMono(j: nat, k: nat, b: nat)
    requires j <= k
    ensures Off(j, b) <= Off(k, b) && (j < k ==> Off(j, b) + b <= Off(k, b))
  {
    if j < k { OffMono(j, k - 1, b); }
  }

  lemma {:induction false} OffAdd(j: nat, k: nat, b: nat)
    ensures Off(j + k, b) == Off(j, b) + Off(k, b)
  {
    if k > 0 { OffAdd(j, k - 1, b); }
  }

  /** `s` with the bytes at `[at, at + |x|)` replaced by `x`. */
  function Splice(s: seq<byte>, at: nat, x: seq<byte>): (r: seq<byte>)
    requires at + |x| <= |s|
    ensures |r| == |s|
  {
    s[..at] + x + s[at + |x|..]
  }

  /** Splicing `x[..i]` and then the next `n` bytes of `x` after it is splicing `x[..i + n]`. */
  lemma SpliceExtend(s: seq<byte>, at: nat, x: seq<byte>, i: nat, n: nat)
    requires at + |x| <= |s| && i + n <= |x|
    ensures Splice(Splice(s, at, x[..i]), at + i, x[i..i + n]) == Splice(s, at, x[..i + n])
  {
  }

  /** `after` is `before`, possibly grown at its end, with `x` stored at `at`: everything
      before `at`, and everything old from `at + |x|` on, is untouched. */
  ghost predicate Stored(before: seq<byte>, after: seq<byte>, at: nat, x: seq<byte>) {
    && at <= |before| <= |after| && at + |x| <= |after|
    && after[..at] == before[..at]
    && after[at..at + |x|] == x
    && (at + |x| < |before| ==> after[at + |x|..|before|] == before[at + |x|..])
  }

  /** Storing nothing changes nothing. */
  lemma StoredNothing(s: seq<byte>, at: nat)
    requires at <= |s|
    ensures Stored(s, s, at, []) && Splice(s, at, []) == s
  {
  }

  lemma SpliceStored(before: seq<byte>, grown: seq<byte>, at: nat, x: seq<byte>)
    requires at <= |before| <= |grown| && at + |x| <= |grown| && grown[..|before|] == before
    ensures Stored(before, Splice(grown, at, x), at, x)
  {
    assert grown[..at] == before[..at];
  }

  lemma SliceJoin(s: seq<byte>, a: nat, b: nat, c: nat)
    requires a <= b <= c <= |s|
    ensures s[a..b] + s[b..c] == s[a..c]
  {
  }

  lemma SliceOfSlice(s: seq<byte>, a: nat, b: nat, i: nat, j: nat)
    requires a <= b <= |s| && i <= j <= b - a
    ensures s[a..b][i..j] == s[a + i..a + j]
  {
    assert forall k :: 0 <= k < j - i ==> s[a..b][i..j][k] == s[a + i..a + j][k];
  }

  /** Two stores back to back are one store of both. */
  lemma StoredAgain(a: seq<byte>, b: seq<byte>, c: seq<byte>, at: nat, x: seq<byte>, y: seq<byte>)
    requires Stored(a, b, at, x) && Stored(b, c, at + |x|, y)
    ensures Stored(a, c, at, x + y)
  {
    var m, n := at + |x|, at + |x| + |y|;
    StoredHead(b, c, at, m);
    SliceJoin(c, at, m, n);
    assert at + |x + y| == n && c[at..n] == x + y;
    if n < |a| {
      StoredTail(a, b, c, m, n);
    }
  }

  /** Growing after a store leaves it stored. */
  lemma StoredGrown(a: seq<byte>, b: seq<byte>, c: seq<byte>, at: nat, x: seq<byte>)
    requires Stored(a, b, at, x) && |b| <= |c| && c[..|b|] == b
    ensures Stored(a, c, at, x)
  {
    var m := at + |x|;
    SliceOfSlice(c, 0, |b|, 0, at);
    SliceOfSlice(c, 0, |b|, at, m);
    if m < |a| { SliceOfSlice(c, 0, |b|, m, |a|); }
  }

  lemma StoredHead(b: seq<byte>, c: seq<byte>, at: nat, m: nat)
    requires at <= m <= |b| && m <= |c| && c[..m] == b[..m]
    ensures c[..at] == b[..at] && c[at..m] == b[at..m]
  {
    SliceOfSlice(b, 0, m, 0, at);
    SliceOfSlice(c, 0, m, 0, at);
    SliceOfSlice(b, 0, m, at, m);
    SliceOfSlice(c, 0, m, at, m);
  }

  lemma StoredTail(a: seq<byte>, b: seq<byte>, c: seq<byte>, m: nat, n: nat)
    requires m <= n < |a| <= |b| <= |c|
    requires b[m..|a|] == a[m..] && c[n..|b|] == b[n..]
    ensures c[n..|a|] == a[n..]
  {
    SliceOfSlice(c, n, |b|, 0, |a| - n);
    SliceOfSlice(b, n, |b|, 0, |a| - n);
    SliceOfSlice(b, m, |a|, n - m, |a| - m);
    SliceOfSlice(a, m, |a|, n - m, |a| - m);
  }

  /** The block and offset of `Off(k) + r` are `k` and `r`. */
  lemma LocateInv(k: nat, r: nat, b: nat)
    requires r < b
    ensures (Off(k, b) + r) / b == k && (Off(k, b) + r) % b == r
  {
    var p := Off(k, b) + r;
    var q := p / b;
    assert p == q * b + p % b;
    OffIsProduct(q, b);
    assert p == Off(q, b) + p % b;
    if q < k { OffMono(q, k, b); } else if q > k { OffMono(k, q, b); }
  }

  /** Integer ceiling of `n / b`. */
  function CeilDiv(n: nat, b: nat): (r: nat)
    requires 0 < b
    ensures Off(r, b) >= n && (n > 0 ==> r > 0 && Off(r, b) < n + b)
    ensures n == 0 ==> r == 0
  {
    if n == 0 then 0 else
    OffIsProduct((n - 1) / b + 1, b);
    assert n - 1 == ((n - 1) / b) * b + (n - 1) % b;
    (n - 1) / b + 1
  }
}
