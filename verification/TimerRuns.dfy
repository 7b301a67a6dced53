/** Whole runs of timer operations: what is handed out and how often, and why a poller that
    sleeps until the deadline it read never sleeps past an earlier one. */
module TimerRuns {

  import opened Options
  import opened Words
  import opened Timers

  datatype Op =
    | AddOp(a: Addr, ms: u64, cb: Option<nat>, recurring: bool)
    | CancelOp(a: Addr)
    | RefreshOp(a: Addr)
    | ResetOp(a: Addr, ms: u64, fromNow: bool)
    | PollOp(p: nat)
    | ExpireOp

  /** An operation and the clock it reads. */
  datatype Step = Step(op: Op, now: u64)

  predicate Enabled(tm: TM, op: Op) {
    match op
    case AddOp(a, _, _, _) => a !in tm.recs
    case CancelOp(a) => a in tm.recs
    case RefreshOp(a) => a in tm.recs
    case ResetOp(a, _, _) => a in tm.recs
    case PollOp(_) => true
    case ExpireOp => true
  }

  function Next(tm: TM, st: Step): TM
    requires Valid(tm) && Enabled(tm, st.op)
  {
    match st.op
    case AddOp(a, ms, cb, recurring) => Add(tm, a, ms, cb, recurring, st.now)
    case CancelOp(a) => Cancel(tm, a)
    case RefreshOp(a) => Refresh(tm, a, st.now)
    case ResetOp(a, ms, fromNow) => Reset(tm, a, ms, fromNow, st.now)
    case PollOp(_) => GetNext(tm)
    case ExpireOp => ListExpired(tm, st.now)
  }

  /** Every operation keeps the set strictly ordered by the keys its members have, and a callback
      once given up stays given up. */
  lemma NextKeeps(tm: TM, st: Step)
    requires Valid(tm) && Enabled(tm, st.op)
    ensures Valid(Next(tm, st))
    ensures forall a :: a in tm.recs ==>
                          && a in Next(tm, st).recs
                          && Next(tm, st).recs[a].recurring == tm.recs[a].recurring
                          && Next(tm, st).recs[a].cb in {None, tm.recs[a].cb}
  {
    hide Add, Cancel, Refresh, Reset, ListExpired, Ordered, Plus, Minus;
    match st.op
    case AddOp(a, ms, cb, recurring) => AddValid(tm, a, ms, cb, recurring, st.now);
    case CancelOp(a) => CancelValid(tm, a);
    case RefreshOp(a) => RefreshValid(tm, a, st.now);
    case ResetOp(a, ms, fromNow) => ResetValid(tm, a, ms, fromNow, st.now);
    case PollOp(_) =>
    case ExpireOp => Expires(tm, st.now);
  }

  /** What an expiry does, the empty set included. */
  lemma Expires(tm: TM, now: u64)
    requires Valid(tm)
    ensures var t := ListExpired(tm, now);
            && Valid(t) && t.recs.Keys == tm.recs.Keys && t.tickled == tm.tickled && t.raised == tm.raised
            && (forall a :: a in tm.recs ==>
                              t.recs[a] == if Goes(tm, a, now) then Fired(tm.recs[a], now) else tm.recs[a])
            && (forall a :: a in t.order <==> a in tm.order && (Goes(tm, a, now) ==> tm.recs[a].recurring))
  {
    hide Fire, DueCount, Fired;
    if tm.order != [] { ListExpiredExact(tm, now); }
  }

  /** Whether an expiry at this time takes the timer out. */
  predicate Goes(tm: TM, a: Addr, now: u64): (g: bool)
    requires Valid(tm)
    ensures g ==> a in tm.recs
  {
    a in tm.order && (Rolled(tm.prev, now) || Due(tm.recs, a, now))
  }

  predicate IsRun(tm: TM, run: seq<Step>)
    requires Valid(tm)
    decreases |run|
  {
    run == [] ||
    (Enabled(tm, run[0].op) && (NextKeeps(tm, run[0]); IsRun(Next(tm, run[0]), run[1..])))
  }

  // ---------- what is handed out ----------

  datatype Hand = Hand(cb: Option<nat>, at: u64)

  /** The hand-outs of one timer over a run, in order. */
  function Hands(tm: TM, run: seq<Step>, a: Addr): seq<Hand>
    requires Valid(tm) && IsRun(tm, run)
    decreases |run|
  {
    if run == [] then [] else
    NextKeeps(tm, run[0]);
    var rest := Hands(Next(tm, run[0]), run[1..], a);
    if run[0].op.ExpireOp? && Goes(tm, a, run[0].now) then
      [Hand(tm.recs[a].cb, run[0].now)] + rest
    else rest
  }

  /** A timer without a callback is never again handed out with one: nothing comes after cancel. */
  lemma {:induction false} NothingAfterCancel(tm: TM, run: seq<Step>, a: Addr)
    requires Valid(tm) && IsRun(tm, run) && a in tm.recs && tm.recs[a].cb.None?
    ensures forall i :: 0 <= i < |Hands(tm, run, a)| ==> Hands(tm, run, a)[i].cb.None?
    decreases |run|
  {
    if run != [] {
      NextKeeps(tm, run[0]);
      NothingAfterCancel(Next(tm, run[0]), run[1..], a);
    }
  }

  predicate OneShot(tm: TM, run: seq<Step>, a: Addr) {
    && (a in tm.recs ==> !tm.recs[a].recurring)
    && forall i :: 0 <= i < |run| && run[i].op.AddOp? && run[i].op.a == a ==> !run[i].op.recurring
  }

  /** Over every run, whatever is added, cancelled, refreshed or reset and however the clock moves,
      the callback of a one-shot timer is handed out at most once. */
  lemma {:induction false} OnceOnly(tm: TM, run: seq<Step>, a: Addr)
    requires Valid(tm) && IsRun(tm, run) && OneShot(tm, run, a)
    ensures forall i, j :: 0 <= i < j < |Hands(tm, run, a)| && Hands(tm, run, a)[i].cb.Some? ==>
                             Hands(tm, run, a)[j].cb.None?
    decreases |run|
  {
    if run != [] {
      hide Add, Cancel, Refresh, Reset, ListExpired, Ordered;
      var st := run[0];
      NextKeeps(tm, st);
      var t := Next(tm, st);
      OneShotStays(tm, run, a);
      OnceOnly(t, run[1..], a);
      if st.op.ExpireOp? && Goes(tm, a, st.now) {
        Expires(tm, st.now);
        NothingAfterCancel(t, run[1..], a);
      }
    }
  }

  lemma OneShotStays(tm: TM, run: seq<Step>, a: Addr)
    requires Valid(tm) && run != [] && Enabled(tm, run[0].op) && OneShot(tm, run, a)
    ensures OneShot(Next(tm, run[0]), run[1..], a)
  {
    hide Cancel, Refresh, Reset, ListExpired, Ordered;
    NextKeeps(tm, run[0]);
    var t := Next(tm, run[0]);
    if run[0].op.AddOp? {
      AddValid(tm, run[0].op.a, run[0].op.ms, run[0].op.cb, run[0].op.recurring, run[0].now);
    } else {
      NoNewTimers(tm, run[0]);
    }
  }

  lemma NoNewTimers(tm: TM, st: Step)
    requires Valid(tm) && Enabled(tm, st.op) && !st.op.AddOp?
    ensures Next(tm, st).recs.Keys == tm.recs.Keys
  {
    hide Cancel, Refresh, Reset, ListExpired, Ordered, Plus, Minus;
    match st.op
    case CancelOp(a) => CancelValid(tm, a);
    case RefreshOp(a) => RefreshValid(tm, a, st.now);
    case ResetOp(a, ms, fromNow) => ResetValid(tm, a, ms, fromNow, st.now);
    case PollOp(_) =>
    case ExpireOp => Expires(tm, st.now);
  }

  predicate Touches(op: Op, a: Addr) {
    match op
    case AddOp(b, _, _, _) => a == b
    case CancelOp(b) => a == b
    case RefreshOp(b) => a == b
    case ResetOp(b, _, _) => a == b
    case PollOp(_) => false
    case ExpireOp => false
  }

  /** The clock never runs back, and no addition of the period to it wraps. */
  predicate ClockFrom(lo: u64, run: seq<Step>, ms: u64) {
    && (forall i :: 0 <= i < |run| ==> lo <= run[i].now && run[i].now + ms < TWO_64)
    && (forall i, j :: 0 <= i < j < |run| ==> run[i].now <= run[j].now)
  }

  /** Hand-outs no earlier than `lo`, each at least `ms` after the one before. */
  predicate Apart(hands: seq<Hand>, lo: nat, ms: u64) {
    && (forall i :: 0 <= i < |hands| ==> lo <= hands[i].at)
    && (forall i, j :: 0 <= i < j < |hands| ==> hands[i].at + ms <= hands[j].at)
  }

  lemma ApartCons(h: Hand, rest: seq<Hand>, lo: nat, ms: u64)
    requires lo <= h.at && Apart(rest, h.at + ms, ms)
    ensures Apart([h] + rest, lo, ms)
  {
  }

  lemma ClockOn(prev: u64, prev': u64, run: seq<Step>, ms: u64)
    requires run != [] && ClockFrom(prev, run, ms) && prev' in {prev, run[0].now}
    ensures ClockFrom(prev', run[1..], ms) && prev <= run[0].now && run[0].now + ms < TWO_64
  {
  }

  /** A timer in the set that nobody touches. */
  lemma UntouchedStep(tm: TM, st: Step, a: Addr)
    requires Valid(tm) && Enabled(tm, st.op) && a in tm.order && a in tm.recs && !Touches(st.op, a)
    requires tm.recs[a].recurring
    ensures Valid(Next(tm, st)) && a in Next(tm, st).order && a in Next(tm, st).recs
    ensures Next(tm, st).recs[a] ==
            if st.op.ExpireOp? && Goes(tm, a, st.now) then tm.recs[a].(next := Plus(st.now, tm.recs[a].ms))
            else tm.recs[a]
    ensures Next(tm, st).prev in {tm.prev, st.now}
  {
    hide Ordered, Plus, Minus, Insert, Erase, LowerBound, Rolled, Due, DueCount, Fire, Taken;
    match st.op
    case AddOp(b, ms, cb, recurring) => AddValid(tm, b, ms, cb, recurring, st.now);
    case CancelOp(b) => CancelValid(tm, b);
    case RefreshOp(b) => RefreshValid(tm, b, st.now);
    case ResetOp(b, ms, fromNow) => ResetValid(tm, b, ms, fromNow, st.now);
    case PollOp(_) =>
    case ExpireOp => Expires(tm, st.now);
  }

  /** While the clock does not run back, the hand-outs of an untouched recurring timer are at least
      its period apart, and the first is not before its deadline. */
  lemma {:induction false} PeriodApart(tm: TM, run: seq<Step>, a: Addr)
    requires Valid(tm) && IsRun(tm, run)
    requires a in tm.order && a in tm.recs && tm.recs[a].recurring
    requires forall i :: 0 <= i < |run| ==> !Touches(run[i].op, a)
    requires ClockFrom(tm.prev, run, tm.recs[a].ms)
    ensures Apart(Hands(tm, run, a), tm.recs[a].next, tm.recs[a].ms)
    decreases |run|
  {
    if run != [] {
      hide Ordered, Next, Plus, ClockFrom, Apart;
      var st, t := run[0], Next(tm, run[0]);
      UntouchedStep(tm, st, a);
      ClockOn(tm.prev, t.prev, run, tm.recs[a].ms);
      PeriodApart(t, run[1..], a);
      if st.op.ExpireOp? && Goes(tm, a, st.now) {
        ApartCons(Hand(tm.recs[a].cb, st.now), Hands(t, run[1..], a), tm.recs[a].next, tm.recs[a].ms);
      }
    }
  }

  // ---------- pollers ----------

  /** What a poller remembers from its last getNextTimer: the earliest deadline then, how often
      onTimerInsertedAtFront had been raised, and the delay it was given to sleep. */
  datatype Poller = Poller(deadline: nat, mark: nat, delay: u64)

  function Earliest(tm: TM): (d: nat)
    requires Valid(tm)
    ensures forall a :: a in tm.order ==> d <= tm.recs[a].next
  {
    if tm.order == [] then TWO_64 else
    assert forall i :: 0 < i < |tm.order| ==> Less(tm.recs, tm.order[0], tm.order[i]);
    tm.recs[tm.order[0]].next
  }

  predicate Woken(tm: TM, p: Poller) {
    p.mark < tm.raised
  }

  /** No timer is due before the deadline the poller sleeps to. */
  predicate InTime(tm: TM, p: Poller)
    requires Valid(tm)
  {
    forall a :: a in tm.order ==> p.deadline <= tm.recs[a].next
  }

  /** Every poller is woken or in time, and a set flag means everyone was woken. */
  predicate Covered(tm: TM, pollers: map<nat, Poller>) {
    && Valid(tm)
    && (forall p :: p in pollers ==> Woken(tm, pollers[p]) || InTime(tm, pollers[p]))
    && (tm.tickled ==> forall p :: p in pollers ==> Woken(tm, pollers[p]))
    && (forall p :: p in pollers ==> pollers[p].mark <= tm.raised)
  }

  function Pollers(tm: TM, pollers: map<nat, Poller>, st: Step): map<nat, Poller>
    requires Valid(tm)
  {
    if st.op.PollOp? then pollers[st.op.p := Poller(Earliest(tm), tm.raised, NextTimer(tm, st.now))] else pollers
  }

  /** Putting a timer in either raises, or everyone was woken already, or the timer is not ahead of
      the earliest one. */
  lemma AddCovers(tm: TM, pollers: map<nat, Poller>, a: Addr)
    requires Covered(tm, pollers) && a in tm.recs && a !in tm.order
    ensures Covered(AddToSet(tm, a), pollers)
  {
    hide LowerBound;
    AddedToSet(tm, a);
    var t := AddToSet(tm, a);
    if t.order[0] != a {
      forall p | p in pollers && InTime(tm, pollers[p]) ensures InTime(t, pollers[p]) {
        var d := Earliest(t);
      }
    }
  }

  /** A set that lost timers covers whoever it covered. */
  lemma FewerCover(tm: TM, t: TM, pollers: map<nat, Poller>)
    requires Covered(tm, pollers) && Valid(t) && t.raised == tm.raised && t.tickled == tm.tickled
    requires forall a :: a in t.order ==> a in tm.order && t.recs[a].next == tm.recs[a].next
    ensures Covered(t, pollers)
  {
  }

  lemma MoveCovers(t: TM, pollers: map<nat, Poller>, a: Addr, ms: u64, next: u64)
    requires Covered(t, pollers) && a in t.recs && a !in t.order
    ensures Covered(Move(t, a, ms, next), pollers)
  {
    hide AddToSet;
    var r := t.recs[a].(ms := ms, next := next);
    OutsideChange(t.recs, t.order, a, r);
    FewerCover(t, t.(recs := t.recs[a := r]), pollers);
    AddCovers(t.(recs := t.recs[a := r]), pollers, a);
  }

  lemma DeleteCovers(tm: TM, pollers: map<nat, Poller>, a: Addr)
    requires Covered(tm, pollers) && a in tm.recs
    ensures Covered(Delete(tm, a), pollers) && a !in Delete(tm, a).order
  {
    EraseExact(tm.recs, tm.order, a);
    FewerCover(tm, Delete(tm, a), pollers);
  }

  /** An expiry re-arms timers without raising. A poller that was not woken stays in time exactly
      when none of them is re-armed before the deadline it sleeps to. */
  lemma ExpireExact(tm: TM, p: Poller, now: u64)
    requires Valid(tm) && InTime(tm, p)
    ensures Valid(ListExpired(tm, now))
    ensures InTime(ListExpired(tm, now), p) <==>
            forall a :: Goes(tm, a, now) && tm.recs[a].recurring ==> p.deadline <= Plus(now, tm.recs[a].ms)
  {
    hide ListExpired, Plus, Rolled;
    Expires(tm, now);
    var t := ListExpired(tm, now);
    assert forall a :: Goes(tm, a, now) && tm.recs[a].recurring ==>
                         a in t.order && t.recs[a].next == Plus(now, tm.recs[a].ms);
  }

  /** No rollover and no wrap: a condition on the clock that is known before the call. */
  predicate Steady(tm: TM, st: Step) {
    st.op.ExpireOp? ==>
      && !Rolled(tm.prev, st.now)
      && forall a :: a in tm.recs && tm.recs[a].recurring ==> st.now + tm.recs[a].ms < TWO_64
  }

  lemma ExpireCovers(tm: TM, pollers: map<nat, Poller>, now: u64)
    requires Covered(tm, pollers) && Steady(tm, Step(ExpireOp, now))
    ensures Covered(ListExpired(tm, now), pollers)
  {
    hide ListExpired;
    Expires(tm, now);
    forall p | p in pollers && InTime(tm, pollers[p]) ensures InTime(ListExpired(tm, now), pollers[p]) {
      ExpireExact(tm, pollers[p], now);
    }
  }

  /** One step, by anyone, keeps every poller covered. */
  lemma NextCovers(tm: TM, pollers: map<nat, Poller>, st: Step)
    requires Covered(tm, pollers) && Enabled(tm, st.op) && Steady(tm, st)
    ensures Covered(Next(tm, st), Pollers(tm, pollers, st))
  {
    hide Move, AddToSet, ListExpired, Plus, Minus, Erase, LowerBound;
    match st.op
    case AddOp(a, ms, cb, recurring) =>
      var r := Rec(recurring, ms, Plus(st.now, ms), cb);
      var t := tm.(recs := tm.recs[a := r]);
      assert a !in tm.order && Ordered(t.recs, t.order) by { Fresh(tm, a, r); }
      FewerCover(tm, t, pollers);
      AddCovers(t, pollers, a);
    case CancelOp(a) =>
      var t := tm.(recs := tm.recs[a := tm.recs[a].(cb := None)]);
      SameKey(tm.recs, tm.order, a, t.recs[a]);
      FewerCover(tm, t, pollers);
      DeleteCovers(t, pollers, a);
    case RefreshOp(a) =>
      DeleteCovers(tm, pollers, a);
      MoveCovers(tm.(order := Erase(tm.recs, tm.order, a)), pollers, a, tm.recs[a].ms, Plus(st.now, tm.recs[a].ms));
    case ResetOp(a, ms, fromNow) =>
      DeleteCovers(tm, pollers, a);
      var start := if fromNow then st.now else Minus(tm.recs[a].next, tm.recs[a].ms);
      MoveCovers(tm.(order := Erase(tm.recs, tm.order, a)), pollers, a, ms, Plus(start, ms));
    case PollOp(_) =>
    case ExpireOp => ExpireCovers(tm, pollers, st.now);
  }

  lemma Fresh(tm: TM, a: Addr, r: Rec)
    requires Valid(tm) && a !in tm.recs
    ensures a !in tm.order && Ordered(tm.recs[a := r], tm.order)
  {
    OutsideChange(tm.recs, tm.order, a, r);
  }

  predicate SteadyRun(tm: TM, run: seq<Step>)
    requires Valid(tm) && IsRun(tm, run)
    decreases |run|
  {
    run == [] ||
    (Steady(tm, run[0]) && (NextKeeps(tm, run[0]); SteadyRun(Next(tm, run[0]), run[1..])))
  }

  function Last(tm: TM, run: seq<Step>): (t: TM)
    requires Valid(tm) && IsRun(tm, run)
    ensures Valid(t)
    decreases |run|
  {
    if run == [] then tm else
    NextKeeps(tm, run[0]);
    Last(Next(tm, run[0]), run[1..])
  }

  function LastPollers(tm: TM, pollers: map<nat, Poller>, run: seq<Step>): map<nat, Poller>
    requires Valid(tm) && IsRun(tm, run)
    decreases |run|
  {
    if run == [] then pollers else
    NextKeeps(tm, run[0]);
    LastPollers(Next(tm, run[0]), Pollers(tm, pollers, run[0]), run[1..])
  }

  /** No missed wake-up, for any number of pollers: at the end of every run, a poller that was not
      woken since its last getNextTimer sleeps to a deadline no timer in the set comes before. */
  lemma {:induction false} NoMissedWake(tm: TM, pollers: map<nat, Poller>, run: seq<Step>)
    requires Covered(tm, pollers) && IsRun(tm, run) && SteadyRun(tm, run)
    ensures Covered(Last(tm, run), LastPollers(tm, pollers, run))
    decreases |run|
  {
    if run != [] {
      hide Covered, Next, Steady;
      NextCovers(tm, pollers, run[0]);
      NextKeeps(tm, run[0]);
      NoMissedWake(Next(tm, run[0]), Pollers(tm, pollers, run[0]), run[1..]);
    }
  }

  /** A manager as constructed. */
  function NewManager(now: u64): TM {
    TM(map[], [], false, now, 0)
  }

  /** From the start: over every steady run from a new manager that nobody polls yet, no poller
      misses a wake-up. */
  lemma NoMissedWakeFromStart(now: u64, run: seq<Step>)
    requires IsRun(NewManager(now), run) && SteadyRun(NewManager(now), run)
    ensures var t, pollers := Last(NewManager(now), run), LastPollers(NewManager(now), map[], run);
            forall p :: p in pollers ==> Woken(t, pollers[p]) || InTime(t, pollers[p])
  {
    NoMissedWake(NewManager(now), map[], run);
  }

  lemma ThreeSteps(tm: TM, pollers: map<nat, Poller>, a: Step, b: Step, c: Step)
    requires Valid(tm) && Enabled(tm, a.op)
    requires var tm1 := Next(tm, a);
             && Valid(tm1) && Enabled(tm1, b.op)
             && var tm2 := Next(tm1, b);
             && Valid(tm2) && Enabled(tm2, c.op)
    ensures IsRun(tm, [a, b, c])
    ensures var tm1 := Next(tm, a);
            var tm2 := Next(tm1, b);
            && Last(tm, [a, b, c]) == Next(tm2, c)
            && LastPollers(tm, pollers, [a, b, c]) ==
               Pollers(tm2, Pollers(tm1, Pollers(tm, pollers, a), b), c)
  {
    hide Next, Enabled, Valid, Pollers;
    assert [a, b, c][1..] == [b, c] && [b, c][1..] == [c] && [c][1..] == [];
    var tm1 := Next(tm, a);
    var tm2 := Next(tm1, b);
    NextKeeps(tm2, c);
    assert IsRun(tm2, [c]);
    assert IsRun(tm1, [b, c]);
    var ps1 := Pollers(tm, pollers, a);
    var ps2 := Pollers(tm1, ps1, b);
    assert Last(tm2, [c]) == Next(tm2, c) && LastPollers(tm2, ps2, [c]) == Pollers(tm2, ps2, c);
    assert Last(tm1, [b, c]) == Next(tm2, c) && LastPollers(tm1, ps1, [b, c]) == Pollers(tm2, ps2, c);
  }

  // ---------- the wait ----------

  const MAX_TIMEOUT := 3000

  /** The timeout given to epoll_wait; a negative one waits for ever. */
  function WaitTime(delay: u64): int {
    ToInt(if delay == NO_TIMER then MAX_TIMEOUT else if ToInt(delay) > MAX_TIMEOUT then MAX_TIMEOUT else delay)
  }

  /** The timeout in plain numbers: three seconds without a timer; the low 32 bits of the delay, at most
      three seconds, when bit 31 is clear; and a negative number, which waits for ever, otherwise. */
  lemma WaitTimeExact(delay: u64)
    ensures delay == 0xFFFF_FFFF_FFFF_FFFF ==> WaitTime(delay) == 3000
    ensures delay != 0xFFFF_FFFF_FFFF_FFFF ==>
              var low := delay % 0x1_0000_0000;
              if delay / 0x8000_0000 % 2 == 0 then WaitTime(delay) == (if low > 3000 then 3000 else low)
              else WaitTime(delay) == low - 0x1_0000_0000
  {
    var high, low := delay / 0x1_0000_0000, delay % 0x1_0000_0000;
    assert delay == high * 0x1_0000_0000 + low;
    assert delay / 0x8000_0000 == 2 * high + if low < 0x8000_0000 then 0 else 1;
  }

  /** The poller that reads the clock at `now` wakes by itself no later than the earliest deadline
      (or after three seconds) exactly when bit 31 of the delay is clear. */
  lemma WaitsInTime(tm: TM, now: u64)
    requires Valid(tm) && tm.order != []
    ensures var d := NextTimer(tm, now);
            d != 0xFFFF_FFFF_FFFF_FFFF ==>
            ((0 <= WaitTime(d) <= 3000 && (now < Earliest(tm) ==> now + WaitTime(d) <= Earliest(tm)))
             <==> d / 0x8000_0000 % 2 == 0)
  {
    hide WaitTime;
    WaitTimeExact(NextTimer(tm, now));
  }

  /** One timer of 2^31 milliseconds in a new manager is such a delay: the poller waits for ever. */
  lemma LongTimerSleepsForEver(now: u64, cb: Option<nat>, recurring: bool)
    requires now + TWO_31 < TWO_64
    ensures var tm := Add(NewManager(now), 0, TWO_31, cb, recurring, now);
            Valid(tm) && NextTimer(tm, now) == TWO_31 && WaitTime(NextTimer(tm, now)) < 0
  {
    AddValid(NewManager(now), 0, TWO_31, cb, recurring, now);
    WaitTimeExact(TWO_31);
  }
}
