/** TimerManager: the ordered set of timers and the operations on it.

    A timer is named by its address, which the comparator uses to break ties; `recs` holds the
    timer objects and `order` the std::set, least first. Times are milliseconds in uint64_t
    arithmetic. The clock is an argument of every operation that reads it. */
module Timers {

  import opened Options
  import opened Words

  type Addr = nat

  const HOUR_MS := 3600000
  const NO_TIMER := TWO_64 - 1   // ~0ull

  datatype Rec = Rec(recurring: bool, ms: u64, next: u64, cb: Option<nat>)

  datatype TM = TM(recs: map<Addr, Rec>, order: seq<Addr>, tickled: bool, prev: u64, raised: nat)

  function Plus(a: u64, b: u64): (r: u64)
    ensures r == if a + b < 0x1_0000_0000_0000_0000 then a + b else a + b - 0x1_0000_0000_0000_0000
  {
    (a + b) % TWO_64
  }

  function Minus(a: u64, b: u64): (r: u64)
    ensures r == if b <= a then a - b else a - b + 0x1_0000_0000_0000_0000
  {
    (a - b) % TWO_64
  }

  // ---------- the ordered set ----------

  /** Timer::Comparator on timers that exist: by deadline, then by address. */
  predicate KeyLess(n1: u64, a1: Addr, n2: u64, a2: Addr) {
    n1 < n2 || (n1 == n2 && a1 < a2)
  }

  predicate Known(recs: map<Addr, Rec>, order: seq<Addr>) {
    forall i :: 0 <= i < |order| ==> order[i] in recs
  }

  predicate Less(recs: map<Addr, Rec>, a: Addr, b: Addr)
    requires a in recs && b in recs
  {
    KeyLess(recs[a].next, a, recs[b].next, b)
  }

  /** The set is strictly ordered by the keys its members have now. */
  predicate Ordered(recs: map<Addr, Rec>, order: seq<Addr>) {
    Known(recs, order) && forall i, j :: 0 <= i < j < |order| ==> Less(recs, order[i], order[j])
  }

  /** std::set::lower_bound: the first member not below the key. */
  function LowerBound(recs: map<Addr, Rec>, order: seq<Addr>, n: u64, a: Addr): (i: nat)
    requires Known(recs, order)
    ensures i <= |order|
    ensures forall j :: 0 <= j < i ==> KeyLess(recs[order[j]].next, order[j], n, a)
    ensures i < |order| ==> !KeyLess(recs[order[i]].next, order[i], n, a)
  {
    if order == [] then 0
    else if KeyLess(recs[order[0]].next, order[0], n, a) then 1 + LowerBound(recs, order[1..], n, a)
    else 0
  }

  /** In an ordered set everything from the lower bound on is not below the key. */
  lemma LowerBoundSplits(recs: map<Addr, Rec>, order: seq<Addr>, n: u64, a: Addr)
    requires Ordered(recs, order)
    ensures var i := LowerBound(recs, order, n, a);
            forall j :: i <= j < |order| ==> !KeyLess(recs[order[j]].next, order[j], n, a)
  {
  }

  function Insert(recs: map<Addr, Rec>, order: seq<Addr>, a: Addr): (r: seq<Addr>)
    requires Known(recs, order) && a in recs
    ensures Known(recs, r) && r != []
  {
    var i := LowerBound(recs, order, recs[a].next, a);
    if i < |order| && order[i] == a then order else order[..i] + [a] + order[i..]
  }

  function Erase(recs: map<Addr, Rec>, order: seq<Addr>, a: Addr): (r: seq<Addr>)
    requires Known(recs, order) && a in recs
    ensures Known(recs, r)
  {
    var i := LowerBound(recs, order, recs[a].next, a);
    if i < |order| && order[i] == a then order[..i] + order[i + 1..] else order
  }

  /** Inserting a timer that is not a member keeps the order and adds just it. */
  lemma {:induction false} InsertOrdered(recs: map<Addr, Rec>, order: seq<Addr>, a: Addr)
    requires Ordered(recs, order) && a in recs && a !in order
    ensures Ordered(recs, Insert(recs, order, a))
    ensures forall x :: x in Insert(recs, order, a) <==> x in order || x == a
  {
    hide LowerBound;
    var i := LowerBound(recs, order, recs[a].next, a);
    LowerBoundSplits(recs, order, recs[a].next, a);
    SpliceIn(order, i, a);
  }

  lemma SpliceIn(order: seq<Addr>, i: nat, a: Addr)
    requires i <= |order|
    ensures forall x :: x in order[..i] + [a] + order[i..] <==> x in order || x == a
  {
    assert order == order[..i] + order[i..];
  }

  /** Because a key never changes inside the set, a search finds a timer exactly when it is a
      member. */
  lemma {:induction false} FindExact(recs: map<Addr, Rec>, order: seq<Addr>, a: Addr)
    requires Ordered(recs, order) && a in recs
    ensures var i := LowerBound(recs, order, recs[a].next, a);
            a in order <==> i < |order| && order[i] == a
  {
    hide LowerBound;
    LowerBoundSplits(recs, order, recs[a].next, a);
    if a in order {
      var k :| 0 <= k < |order| && order[k] == a;
    }
  }

  /** Erasing removes the timer and nothing else, whether or not it is a member. */
  lemma {:induction false} EraseExact(recs: map<Addr, Rec>, order: seq<Addr>, a: Addr)
    requires Ordered(recs, order) && a in recs
    ensures Ordered(recs, Erase(recs, order, a))
    ensures forall x :: x in Erase(recs, order, a) <==> x in order && x != a
  {
    hide LowerBound;
    var i := LowerBound(recs, order, recs[a].next, a);
    FindExact(recs, order, a);
    if i < |order| && order[i] == a { SpliceOut(order, i); }
  }

  lemma SpliceOut(order: seq<Addr>, i: nat)
    requires i < |order| && forall j :: 0 <= j < |order| && j != i ==> order[j] != order[i]
    ensures forall x :: x in order[..i] + order[i + 1..] <==> x in order && x != order[i]
  {
    assert order == order[..i] + [order[i]] + order[i + 1..];
  }

  // ---------- operations ----------

  predicate Valid(tm: TM) {
    Ordered(tm.recs, tm.order)
  }

  /** The private addTimer: insert, and raise onTimerInsertedAtFront when the timer is the first
      and nothing was raised since the last getNextTimer. */
  function AddToSet(tm: TM, a: Addr): TM
    requires Known(tm.recs, tm.order) && a in tm.recs
  {
    var order := Insert(tm.recs, tm.order, a);
    var front := order[0] == a && !tm.tickled;
    tm.(order := order, tickled := tm.tickled || front, raised := if front then tm.raised + 1 else tm.raised)
  }

  function Delete(tm: TM, a: Addr): TM
    requires Known(tm.recs, tm.order) && a in tm.recs
  {
    tm.(order := Erase(tm.recs, tm.order, a))
  }

  function Add(tm: TM, a: Addr, ms: u64, cb: Option<nat>, recurring: bool, now: u64): TM
    requires Valid(tm) && a !in tm.recs
  {
    AddToSet(tm.(recs := tm.recs[a := Rec(recurring, ms, Plus(now, ms), cb)]), a)
  }

  function Cancel(tm: TM, a: Addr): TM
    requires Valid(tm) && a in tm.recs
  {
    Delete(tm.(recs := tm.recs[a := tm.recs[a].(cb := None)]), a)
  }

  function Refresh(tm: TM, a: Addr, now: u64): TM
    requires Valid(tm) && a in tm.recs
  {
    var t, r := Delete(tm, a), tm.recs[a];
    if r.cb.None? then t else Move(t, a, r.ms, Plus(now, r.ms))
  }

  function Reset(tm: TM, a: Addr, ms: u64, fromNow: bool, now: u64): TM
    requires Valid(tm) && a in tm.recs
  {
    var r := tm.recs[a];
    if ms == r.ms && !fromNow then tm else
    Move(Delete(tm, a), a, ms, Plus(if fromNow then now else Minus(r.next, r.ms), ms))
  }

  /** Give a timer outside the set a new period and deadline, then put it back. */
  function Move(t: TM, a: Addr, ms: u64, next: u64): TM
    requires Known(t.recs, t.order) && a in t.recs
  {
    AddToSet(t.(recs := t.recs[a := t.recs[a].(ms := ms, next := next)]), a)
  }

  function NextTimer(tm: TM, now: u64): u64
    requires Valid(tm)
  {
    if tm.order == [] then NO_TIMER else
    var next := tm.recs[tm.order[0]].next;
    if now >= next then 0 else next - now
  }

  /** The first member has the earliest deadline of all. */
  lemma NextTimerExact(tm: TM, now: u64)
    requires Valid(tm)
    ensures var delay := NextTimer(tm, now);
            && (tm.order != [] ==> (delay == 0 <==> exists a :: a in tm.order && Due(tm.recs, a, now)))
            && (delay > 0 && tm.order != [] ==>
                  && (forall a :: a in tm.order ==> now + delay <= tm.recs[a].next)
                  && (exists a :: a in tm.order && tm.recs[a].next == now + delay))
  {
    if tm.order != [] {
      var first := tm.order[0];
      assert first in tm.order;
      forall a | a in tm.order ensures tm.recs[first].next <= tm.recs[a].next {
        var i :| 0 <= i < |tm.order| && tm.order[i] == a;
        assert i > 0 ==> Less(tm.recs, tm.order[0], tm.order[i]);
      }
    }
  }

  function GetNext(tm: TM): TM {
    tm.(tickled := false)
  }

  // ---------- keys and the set ----------

  /** A change to a timer outside the set leaves the set ordered. */
  lemma OutsideChange(recs: map<Addr, Rec>, order: seq<Addr>, a: Addr, r: Rec)
    requires Ordered(recs, order) && a !in order
    ensures Ordered(recs[a := r], order)
  {
    forall i | 0 <= i < |order| ensures order[i] != a { assert order[i] in order; }
  }

  /** A change that keeps the key leaves the set ordered. */
  lemma SameKey(recs: map<Addr, Rec>, order: seq<Addr>, a: Addr, r: Rec)
    requires Ordered(recs, order) && a in recs && r.next == recs[a].next
    ensures Ordered(recs[a := r], order)
  {
  }

  /** The timer's key is below that of every member. */
  predicate AheadOfAll(recs: map<Addr, Rec>, order: seq<Addr>, a: Addr)
    requires Known(recs, order) && a in recs
  {
    forall i :: 0 <= i < |order| ==> Less(recs, a, order[i])
  }

  lemma AddedToSet(tm: TM, a: Addr)
    requires Valid(tm) && a in tm.recs && a !in tm.order
    ensures var t, first := AddToSet(tm, a), AheadOfAll(tm.recs, tm.order, a);
            && Valid(t) && t.recs == tm.recs && (forall x :: x in t.order <==> x in tm.order || x == a)
            && t.tickled == (tm.tickled || first)
            && t.raised == tm.raised + (if first && !tm.tickled then 1 else 0)
  {
    InsertOrdered(tm.recs, tm.order, a);
    InsertFirst(tm.recs, tm.order, a);
  }

  /** The timer comes first exactly when it is ahead of all that were there. */
  lemma {:induction false} InsertFirst(recs: map<Addr, Rec>, order: seq<Addr>, a: Addr)
    requires Ordered(recs, order) && a in recs && a !in order
    ensures Insert(recs, order, a)[0] == a <==> AheadOfAll(recs, order, a)
  {
    hide LowerBound;
    var i := LowerBound(recs, order, recs[a].next, a);
    LowerBoundSplits(recs, order, recs[a].next, a);
    if i > 0 {
      assert !Less(recs, a, order[0]);
    } else {
      forall j | 0 <= j < |order| ensures Less(recs, a, order[j]) { assert order[j] in order; }
    }
  }

  /** onTimerInsertedAtFront was raised exactly when the timer is ahead of the others and nothing was
      raised since the last getNextTimer, and the flag says so. */
  ghost predicate Raises(tm: TM, t: TM, others: seq<Addr>, a: Addr) {
    && a in t.recs && Known(t.recs, others)
    && t.raised == tm.raised + (if AheadOfAll(t.recs, others, a) && !tm.tickled then 1 else 0)
    && t.tickled == (tm.tickled || AheadOfAll(t.recs, others, a))
  }

  lemma MovedIn(t: TM, a: Addr, ms: u64, next: u64)
    requires Valid(t) && a in t.recs && a !in t.order
    ensures var m := Move(t, a, ms, next);
            && Valid(m) && m.recs == t.recs[a := t.recs[a].(ms := ms, next := next)]
            && (forall x :: x in m.order <==> x in t.order || x == a)
            && Raises(t, m, t.order, a)
  {
    var r := t.recs[a].(ms := ms, next := next);
    OutsideChange(t.recs, t.order, a, r);
    AddedToSet(t.(recs := t.recs[a := r]), a);
  }

  /** A new timer is due one period from now and is in the set. onTimerInsertedAtFront is raised
      exactly when it is ahead of all the others and nothing was raised since the last getNextTimer. */
  lemma AddValid(tm: TM, a: Addr, ms: u64, cb: Option<nat>, recurring: bool, now: u64)
    requires Valid(tm) && a !in tm.recs
    ensures var t := Add(tm, a, ms, cb, recurring, now);
            && Valid(t) && t.recs == tm.recs[a := Rec(recurring, ms, Plus(now, ms), cb)]
            && (forall x :: x in t.order <==> x in tm.order || x == a)
            && Raises(tm, t, tm.order, a) && t.prev == tm.prev
  {
    var r := Rec(recurring, ms, Plus(now, ms), cb);
    OutsideChange(tm.recs, tm.order, a, r);
    AddedToSet(tm.(recs := tm.recs[a := r]), a);
  }

  /** A cancelled timer has lost its callback and is out of the set. */
  lemma CancelValid(tm: TM, a: Addr)
    requires Valid(tm) && a in tm.recs
    ensures var t := Cancel(tm, a);
            && Valid(t) && t.recs == tm.recs[a := tm.recs[a].(cb := None)]
            && (forall x :: x in t.order <==> x in tm.order && x != a)
            && t.raised == tm.raised && t.tickled == tm.tickled && t.prev == tm.prev
  {
    var r := tm.recs[a].(cb := None);
    SameKey(tm.recs, tm.order, a, r);
    EraseExact(tm.recs[a := r], tm.order, a);
  }

  /** A refreshed timer is due one period from now; one without a callback is taken out. */
  lemma RefreshValid(tm: TM, a: Addr, now: u64)
    requires Valid(tm) && a in tm.recs
    ensures var t, r := Refresh(tm, a, now), tm.recs[a];
            && Valid(t)
            && t.recs == (if r.cb.Some? then tm.recs[a := r.(next := Plus(now, r.ms))] else tm.recs)
            && (forall x :: x in t.order <==> if x == a then r.cb.Some? else x in tm.order)
            && (if r.cb.Some? then Raises(tm, t, Erase(tm.recs, tm.order, a), a)
                else t.raised == tm.raised && t.tickled == tm.tickled)
  {
    EraseExact(tm.recs, tm.order, a);
    MovedIn(Delete(tm, a), a, tm.recs[a].ms, Plus(now, tm.recs[a].ms));
  }

  /** A reset changes the period and the deadline and (re)inserts the timer, with or without a
      callback; the one exception is a reset to the same period not counted from now. */
  lemma ResetValid(tm: TM, a: Addr, ms: u64, fromNow: bool, now: u64)
    requires Valid(tm) && a in tm.recs
    ensures var t, r := Reset(tm, a, ms, fromNow, now), tm.recs[a];
            var start := if fromNow then now else Minus(r.next, r.ms);
            && Valid(t)
            && (ms == r.ms && !fromNow ==> t == tm)
            && (ms != r.ms || fromNow ==>
                  && t.recs == tm.recs[a := r.(ms := ms, next := Plus(start, ms))]
                  && (forall x :: x in t.order <==> x in tm.order || x == a)
                  && Raises(tm, t, Erase(tm.recs, tm.order, a), a))
  {
    var r := tm.recs[a];
    EraseExact(tm.recs, tm.order, a);
    MovedIn(Delete(tm, a), a, ms, Plus(if fromNow then now else Minus(r.next, r.ms), ms));
  }

  // ---------- listExpiredCb ----------

  /** detectClockRollover: the clock went back by more than an hour, in unsigned arithmetic. */
  predicate Rolled(prev: u64, now: u64) {
    now < prev && now < Minus(prev, HOUR_MS)
  }

  predicate Due(recs: map<Addr, Rec>, a: Addr, now: u64)
    requires a in recs
  {
    recs[a].next <= now
  }

  /** How many timers, from the front, are due. */
  function DueCount(recs: map<Addr, Rec>, order: seq<Addr>, now: u64): (c: nat)
    requires Known(recs, order)
    ensures c <= |order|
    ensures forall j :: 0 <= j < c ==> Due(recs, order[j], now)
    ensures c < |order| ==> !Due(recs, order[c], now)
  {
    if order == [] || !Due(recs, order[0], now) then 0 else 1 + DueCount(recs, order[1..], now)
  }

  /** How many timers the call takes out. */
  function Taken(tm: TM, now: u64): (c: nat)
    requires Valid(tm)
    ensures c <= |tm.order|
  {
    if Rolled(tm.prev, now) then |tm.order| else DueCount(tm.recs, tm.order, now)
  }

  /** What becomes of an expired timer's fields. */
  function Fired(r: Rec, now: u64): Rec {
    if r.recurring then r.(next := Plus(now, r.ms)) else r.(cb := None)
  }

  /** The loop over the expired timers: fire each, and put a recurring one back. */
  function Fire(recs: map<Addr, Rec>, order: seq<Addr>, expired: seq<Addr>, now: u64): (r: (map<Addr, Rec>, seq<Addr>))
    requires Known(recs, order) && Known(recs, expired)
    ensures r.0.Keys == recs.Keys && Known(r.0, r.1)
    decreases |expired|
  {
    if expired == [] then (recs, order) else
    var a := expired[0];
    var recs' := recs[a := Fired(recs[a], now)];
    Fire(recs', if recs[a].recurring then Insert(recs', order, a) else order, expired[1..], now)
  }

  /** One turn of that loop. */
  lemma FireStep(recs: map<Addr, Rec>, order: seq<Addr>, expired: seq<Addr>, i: nat, now: u64)
    requires Known(recs, order) && Known(recs, expired) && i <= |expired|
    ensures Fire(recs, order, expired[i..], now) ==
            if i == |expired| then (recs, order) else
            var a := expired[i];
            var recs' := recs[a := Fired(recs[a], now)];
            Fire(recs', if recs[a].recurring then Insert(recs', order, a) else order, expired[i + 1..], now)
  {
    hide Insert;
    if i < |expired| { assert expired[i..][0] == expired[i] && expired[i..][1..] == expired[i + 1..]; }
  }

  function Callbacks(recs: map<Addr, Rec>, expired: seq<Addr>): (cbs: seq<Option<nat>>)
    requires Known(recs, expired)
    ensures |cbs| == |expired| && forall i :: 0 <= i < |cbs| ==> cbs[i] == recs[expired[i]].cb
  {
    seq(|expired|, i requires 0 <= i < |expired| => recs[expired[i]].cb)
  }

  function ListExpired(tm: TM, now: u64): TM
    requires Valid(tm)
  {
    if tm.order == [] then tm else
    var c := Taken(tm, now);
    var (recs, order) := Fire(tm.recs, tm.order[c..], tm.order[..c], now);
    tm.(recs := recs, order := order, prev := now)
  }

  /** Firing a list of distinct timers that are outside the set changes exactly those timers, and
      the set gains exactly the recurring ones. */
  lemma {:induction false} FireResult(recs: map<Addr, Rec>, order: seq<Addr>, expired: seq<Addr>, now: u64)
    requires Ordered(recs, order) && Known(recs, expired)
    requires forall i :: 0 <= i < |expired| ==> expired[i] !in order
    requires forall i, j :: 0 <= i < j < |expired| ==> expired[i] != expired[j]
    ensures var r := Fire(recs, order, expired, now);
            && Ordered(r.0, r.1)
            && (forall a :: a in recs ==> r.0[a] == if a in expired then Fired(recs[a], now) else recs[a])
            && (forall a :: a in r.1 <==> a in order || (a in expired && recs[a].recurring))
    decreases |expired|
  {
    if expired != [] {
      var a := expired[0];
      var recs' := recs[a := Fired(recs[a], now)];
      OutsideChange(recs, order, a, recs'[a]);
      if recs[a].recurring {
        InsertOrdered(recs', order, a);
        FireResult(recs', Insert(recs', order, a), expired[1..], now);
      } else {
        FireResult(recs', order, expired[1..], now);
      }
    }
  }

  /** A prefix of due timers that stops at one that is not due is the whole due prefix. */
  lemma {:induction false} DueCountUnique(recs: map<Addr, Rec>, order: seq<Addr>, now: u64, c: nat)
    requires Known(recs, order) && c <= |order|
    requires forall j :: 0 <= j < c ==> Due(recs, order[j], now)
    requires c < |order| ==> !Due(recs, order[c], now)
    ensures DueCount(recs, order, now) == c
  {
    hide DueCount;
    var d := DueCount(recs, order, now);
    assert d < |order| ==> order[d] == order[d];
    assert c < |order| ==> order[c] == order[c];
  }

  /** The timers a call takes out, in deadline order, are exactly the due ones, or all of them when
      the clock has rolled over; afterwards each is as Fired says, every other timer is untouched,
      and the set, still strictly ordered, is the rest plus the recurring ones. */
  lemma {:induction false} ListExpiredExact(tm: TM, now: u64)
    requires Valid(tm) && tm.order != []
    ensures var t, out := ListExpired(tm, now), tm.order[..Taken(tm, now)];
            && Valid(t) && t.recs.Keys == tm.recs.Keys && t.prev == now
            && (forall a :: a in out <==> a in tm.order && (Rolled(tm.prev, now) || Due(tm.recs, a, now)))
            && (forall i, j :: 0 <= i < j < |out| ==> tm.recs[out[i]].next <= tm.recs[out[j]].next)
            && (forall a :: a in tm.recs ==> t.recs[a] == if a in out then Fired(tm.recs[a], now) else tm.recs[a])
            && (forall a :: a in t.order <==> a in tm.order && (a in out ==> tm.recs[a].recurring))
  {
    hide DueCount, Fire;
    var c := Taken(tm, now);
    var out, rest := tm.order[..c], tm.order[c..];
    assert tm.order == out + rest;
    forall i | 0 <= i < |out| ensures out[i] !in rest {
      assert out[i] == tm.order[i];
    }
    TakenExact(tm, now);
    FireResult(tm.recs, rest, out, now);
  }

  lemma {:induction false} TakenExact(tm: TM, now: u64)
    requires Valid(tm)
    ensures forall a :: a in tm.order[..Taken(tm, now)] <==>
                        a in tm.order && (Rolled(tm.prev, now) || Due(tm.recs, a, now))
  {
    hide DueCount;
    var c := Taken(tm, now);
    forall a | a in tm.order && Due(tm.recs, a, now) && !Rolled(tm.prev, now) ensures a in tm.order[..c] {
      var i :| 0 <= i < |tm.order| && tm.order[i] == a;
      assert tm.order[..c][i] == a;
    }
  }

  /** The clock went back by more than an hour, or it went back at all and read less than an hour. */
  predicate WentBack(prev: u64, now: u64) {
    now < prev && (prev < 3600000 || prev - now > 3600000)
  }

  /** The whole of an expiry in plain numbers. Taken out are the timers with a deadline up to now, or
      all of them when the clock went back; they come in the order of deadline and address. A
      recurring one is in the set again, due one period from now; a one-shot one has lost its
      callback; every other timer is as it was. An empty set is left before the clock is noted. */
  lemma {:induction false} ExpiryExact(tm: TM, now: u64)
    requires Valid(tm)
    ensures var t, out := ListExpired(tm, now), tm.order[..Taken(tm, now)];
            && Valid(t) && t.recs.Keys == tm.recs.Keys && t.raised == tm.raised && t.tickled == tm.tickled
            && t.prev == (if tm.order == [] then tm.prev else now)
            && (forall a :: a in out <==> a in tm.order && (WentBack(tm.prev, now) || tm.recs[a].next <= now))
            && (forall i, j :: 0 <= i < j < |out| ==>
                  Before(tm.recs[out[i]].next, out[i], tm.recs[out[j]].next, out[j]))
            && (forall a :: a in t.order <==> a in tm.order && (a in out ==> tm.recs[a].recurring))
            && (forall a :: a in tm.recs ==>
                  if a !in out then t.recs[a] == tm.recs[a]
                  else if tm.recs[a].recurring then RearmedAt(tm.recs[a], t.recs[a], now)
                  else t.recs[a] == tm.recs[a].(cb := None))
  {
    hide DueCount, Fire;
    if tm.order != [] {
      ListExpiredExact(tm, now);
      var out := tm.order[..Taken(tm, now)];
      forall i, j | 0 <= i < j < |out|
        ensures Before(tm.recs[out[i]].next, out[i], tm.recs[out[j]].next, out[j])
      {
        assert Less(tm.recs, tm.order[i], tm.order[j]);
      }
    }
  }

  predicate Before(n1: nat, a1: Addr, n2: nat, a2: Addr) {
    n1 < n2 || (n1 == n2 && a1 < a2)
  }

  predicate RearmedAt(r: Rec, r': Rec, now: u64) {
    && r'.recurring && r'.ms == r.ms && r'.cb == r.cb
    && (r'.next == now + r.ms || r'.next == now + r.ms - 0x1_0000_0000_0000_0000)
  }

  /** A correction of the clock by up to an hour hands out nothing early; a larger one hands out every
      timer. So an expiry takes a timer out before its deadline exactly when the clock went back by
      more than an hour, or read less than an hour and went back at all. */
  lemma {:induction false} EarlyExact(tm: TM, now: u64)
    requires Valid(tm)
    ensures (exists a :: a in tm.order[..Taken(tm, now)] && a in tm.recs && tm.recs[a].next > now) <==>
            && now < tm.prev && (tm.prev < 3600000 || tm.prev - now > 3600000)
            && exists a :: a in tm.order && a in tm.recs && tm.recs[a].next > now
  {
    hide DueCount, Fire, ListExpired;
    ExpiryExact(tm, now);
  }

  lemma NothingFires(recs: map<Addr, Rec>, order: seq<Addr>, now: u64)
    requires Known(recs, order) && order != [] && !Due(recs, order[0], now)
    ensures DueCount(recs, order, now) == 0
    ensures order[..0] == [] && Fire(recs, order[0..], order[..0], now) == (recs, order)
  {
    assert order[0..] == order;
  }

  // ---------- the class ----------

  /** The manager with its timers; `raised` counts the calls of onTimerInsertedAtFront. */
  class TimerManager {
    var recs: map<Addr, Rec>
    var order: seq<Addr>
    var tickled: bool
    var prev: u64
    var raised: nat

    function State(): TM
      reads this
    {
      TM(recs, order, tickled, prev, raised)
    }

    constructor (now: u64)
      ensures State() == TM(map[], [], false, now, 0) && Valid(State())
    {
      recs, order, tickled, prev, raised := map[], [], false, now, 0;
    }

    method AddToManager(a: Addr)
      requires Known(recs, order) && a in recs
      modifies this
      ensures State() == AddToSet(old(State()), a)
    {
      order := Insert(recs, order, a);
      var atFront := order[0] == a && !tickled;
      if atFront {
        tickled := true;
      }
      if atFront {
        raised := raised + 1;
      }
    }

    /** The answer says whether the timer was in the set. */
    method DeleteTimer(a: Addr) returns (found: bool)
      requires Valid(State()) && a in recs
      modifies this
      ensures State() == Delete(old(State()), a) && Valid(State())
      ensures found <==> a in old(order)
    {
      var i := LowerBound(recs, order, recs[a].next, a);
      FindExact(recs, order, a);
      EraseExact(recs, order, a);
      if i == |order| || order[i] != a {
        return false;
      }
      order := order[..i] + order[i + 1..];
      return true;
    }

    method AddTimer(a: Addr, ms: u64, cb: Option<nat>, recurring: bool, now: u64)
      requires Valid(State()) && a !in recs
      modifies this
      ensures State() == Add(old(State()), a, ms, cb, recurring, now) && Valid(State())
    {
      AddValid(State(), a, ms, cb, recurring, now);
      recs := recs[a := Rec(recurring, ms, Plus(now, ms), cb)];
      AddToManager(a);
    }

    method CancelTimer(a: Addr)
      requires Valid(State()) && a in recs
      modifies this
      ensures State() == Cancel(old(State()), a) && Valid(State())
    {
      SameKey(recs, order, a, recs[a].(cb := None));
      assert recs[a].cb.None? ==> recs[a := recs[a].(cb := None)] == recs;
      if recs[a].cb.Some? {
        recs := recs[a := recs[a].(cb := None)];
      }
      var _ := DeleteTimer(a);
    }

    method RefreshTimer(a: Addr, now: u64) returns (ok: bool)
      requires Valid(State()) && a in recs
      modifies this
      ensures State() == Refresh(old(State()), a, now) && Valid(State())
      ensures ok <==> old(recs[a].cb.Some?)
    {
      RefreshValid(State(), a, now);
      var _ := DeleteTimer(a);
      if recs[a].cb.None? {
        return false;
      }
      recs := recs[a := recs[a].(next := Plus(now, recs[a].ms))];
      AddToManager(a);
      return true;
    }

    method ResetTimer(a: Addr, ms: u64, fromNow: bool, now: u64)
      requires Valid(State()) && a in recs
      modifies this
      ensures State() == Reset(old(State()), a, ms, fromNow, now) && Valid(State())
    {
      ResetValid(State(), a, ms, fromNow, now);
      if ms == recs[a].ms && !fromNow {
        return;
      }
      var _ := DeleteTimer(a);
      var start := if fromNow then now else Minus(recs[a].next, recs[a].ms);
      recs := recs[a := recs[a].(ms := ms)];
      recs := recs[a := recs[a].(next := Plus(start, recs[a].ms))];
      assert recs == old(recs)[a := old(recs)[a].(ms := ms, next := Plus(start, ms))];
      AddToManager(a);
    }

    /** The delay to the earliest of all deadlines: 0 exactly when a timer is due, otherwise what is
        left until one of them and no more than what is left until any; the largest number when
        there is no timer. */
    method GetNextTimer(now: u64) returns (delay: u64)
      requires Valid(State())
      modifies this`tickled
      ensures !tickled && State() == GetNext(old(State())) && Valid(State())
      ensures order == [] ==> delay == 0xFFFF_FFFF_FFFF_FFFF
      ensures order != [] ==> (delay == 0 <==> exists a :: a in order && Due(recs, a, now))
      ensures delay > 0 ==> forall a :: a in order ==> now + delay <= recs[a].next
      ensures delay > 0 && order != [] ==> exists a :: a in order && recs[a].next == now + delay
      ensures delay == NextTimer(old(State()), now)
    {
      tickled := false;
      NextTimerExact(State(), now);
      if order == [] {
        return NO_TIMER;
      }
      var next := recs[order[0]].next;
      if now >= next {
        return 0;
      } else {
        return next - now;
      }
    }

    method ListExpiredCb(now: u64, probe: Addr) returns (cbs: seq<Option<nat>>)
      requires Valid(State())
      modifies this
      ensures State() == ListExpired(old(State()), now) && Valid(State())
      ensures var tm := old(State());
              cbs == Callbacks(tm.recs, tm.order[..Taken(tm, now)])
    {
      hide Fire, DueCount;
      cbs := [];
      if order == [] {
        return;
      }
      ListExpiredExact(State(), now);
      var rollover := now < prev && now < Minus(prev, HOUR_MS);
      prev := now;
      if !rollover && recs[order[0]].next > now {
        NothingFires(recs, order, now);
        return;
      }
      var i := if rollover then |order| else 0;
      if !rollover {
        i := EndOfDue(now, probe);
      }
      var expired := order[..i];
      order := order[i..];
      cbs := FireAll(expired, now);
    }

    /** The search and the loop after it: the probe timer's address breaks ties in the search but
        never shows in the result. */
    method EndOfDue(now: u64, probe: Addr) returns (i: nat)
      requires Ordered(recs, order)
      ensures i == DueCount(recs, order, now)
    {
      hide LowerBound, DueCount;
      i := LowerBound(recs, order, now, probe);
      while i < |order| && recs[order[i]].next == now
        invariant i <= |order|
        invariant forall j :: 0 <= j < i ==> Due(recs, order[j], now)
        invariant i < |order| ==> recs[order[i]].next >= now
      {
        i := i + 1;
        assert i < |order| ==> Less(recs, order[i - 1], order[i]);
      }
      DueCountUnique(recs, order, now, i);
    }

    method FireAll(expired: seq<Addr>, now: u64) returns (cbs: seq<Option<nat>>)
      requires Known(recs, order) && Known(recs, expired)
      requires forall i, j :: 0 <= i < j < |expired| ==> expired[i] != expired[j]
      modifies `recs, `order
      ensures (recs, order) == Fire(old(recs), old(order), expired, now)
      ensures cbs == Callbacks(old(recs), expired)
    {
      hide Fire, Insert, Plus;
      cbs := [];
      assert expired[0..] == expired;
      for i := 0 to |expired|
        invariant Known(recs, order) && recs.Keys == old(recs).Keys
        invariant Fire(recs, order, expired[i..], now) == Fire(old(recs), old(order), expired, now)
        invariant forall j :: i <= j < |expired| ==> recs[expired[j]] == old(recs)[expired[j]]
        invariant cbs == Callbacks(old(recs), expired)[..i]
      {
        var a := expired[i];
        cbs := cbs + [recs[a].cb];
        FireStep(recs, order, expired, i, now);
        if recs[a].recurring {
          recs := recs[a := recs[a].(next := Plus(now, recs[a].ms))];
          order := Insert(recs, order, a);
        } else {
          recs := recs[a := recs[a].(cb := None)];
        }
      }
      FireStep(recs, order, expired, |expired|, now);
    }
  }
}
