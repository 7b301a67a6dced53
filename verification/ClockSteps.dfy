/** What a step of the clock does to a sleeping poller. The poller sleeps a delay, not to a clock
    reading, so what counts is how much of the delay is left and how much is left until each timer
    on the clock as it then reads. */
module ClockSteps {

  import opened Options
  import opened Words
  import opened Timers
  import opened TimerRuns

  /** No sum the operation computes wraps. */
  predicate NoWrap(tm: TM, st: Step)
    requires Enabled(tm, st.op)
  {
    match st.op
    case AddOp(_, ms, _, _) => st.now + ms < TWO_64
    case CancelOp(_) => true
    case RefreshOp(a) => st.now + tm.recs[a].ms < TWO_64
    case ResetOp(a, ms, fromNow) => (if fromNow then st.now else tm.recs[a].next - tm.recs[a].ms) + ms < TWO_64
    case PollOp(_) => true
    case ExpireOp => forall a :: a in tm.recs && tm.recs[a].recurring ==> st.now + tm.recs[a].ms < TWO_64
  }

  /** Every timer was armed at a reading of at most `last`, and so was the last expiry. */
  predicate Timely(tm: TM, last: u64) {
    && tm.prev <= last
    && forall a :: a in tm.recs ==> tm.recs[a].ms <= tm.recs[a].next <= last + tm.recs[a].ms
  }

  lemma TimelyKept(tm: TM, st: Step, last: u64)
    requires Valid(tm) && Enabled(tm, st.op) && Timely(tm, last) && last <= st.now && NoWrap(tm, st)
    ensures Valid(Next(tm, st)) && Timely(Next(tm, st), st.now) && Steady(tm, st)
  {
    hide Ordered, Insert, Erase, LowerBound, DueCount, Fire, Taken;
    match st.op
    case AddOp(a, ms, cb, recurring) => AddValid(tm, a, ms, cb, recurring, st.now);
    case CancelOp(a) => CancelValid(tm, a);
    case RefreshOp(a) => RefreshValid(tm, a, st.now);
    case ResetOp(a, ms, fromNow) => ResetValid(tm, a, ms, fromNow, st.now);
    case PollOp(_) =>
    case ExpireOp => Expires(tm, st.now);
  }

  /** A run whose clock does not run back and in which nothing wraps. */
  predicate Forward(tm: TM, run: seq<Step>, last: u64)
    requires Valid(tm) && IsRun(tm, run)
    decreases |run|
  {
    run == [] ||
    (&& last <= run[0].now && NoWrap(tm, run[0])
     && (NextKeeps(tm, run[0]); Forward(Next(tm, run[0]), run[1..], run[0].now)))
  }

  function LastReading(run: seq<Step>, last: u64): u64 {
    if run == [] then last else run[|run| - 1].now
  }

  lemma {:induction false} ForwardKeeps(tm: TM, pollers: map<nat, Poller>, run: seq<Step>, last: u64)
    requires Covered(tm, pollers) && IsRun(tm, run) && Timely(tm, last) && Forward(tm, run, last)
    ensures Covered(Last(tm, run), LastPollers(tm, pollers, run))
    ensures Timely(Last(tm, run), LastReading(run, last))
    decreases |run|
  {
    if run != [] {
      hide Covered, Next, Steady, NoWrap, Timely;
      TimelyKept(tm, run[0], last);
      NextCovers(tm, pollers, run[0]);
      ForwardKeeps(Next(tm, run[0]), Pollers(tm, pollers, run[0]), run[1..], run[0].now);
      assert LastReading(run, last) == LastReading(run[1..], run[0].now);
    }
  }

  /** How much of its sleep a poller has left when the clock that it was computed on reads `r`. */
  function Left(p: Poller, r: u64): nat {
    if p.deadline <= r then 0 else p.deadline - r
  }

  /** At the poll itself that is the delay. */
  lemma LeftAtPoll(tm: TM, now: u64)
    requires Valid(tm) && tm.order != []
    ensures Left(Poller(Earliest(tm), tm.raised, NextTimer(tm, now)), now) == NextTimer(tm, now)
  {
  }

  /** The clock steps back, by any amount, and an expiry re-arms timers without raising: no sleeping
      poller is late for it. Whatever it has left to sleep by the last reading before the step is no
      more than what is left, on the new clock, until any timer in the set. */
  lemma StepBackInTime(tm: TM, p: Poller, last: u64, now: u64)
    requires Valid(tm) && Timely(tm, last) && InTime(tm, p) && now <= last && NoWrap(tm, Step(ExpireOp, now))
    ensures var t := ListExpired(tm, now);
            Valid(t) && forall a :: a in t.order ==> now + Left(p, last) <= t.recs[a].next
  {
    hide ListExpired;
    Expires(tm, now);
    var t := ListExpired(tm, now);
    forall a | a in t.order ensures now + Left(p, last) <= t.recs[a].next {
      assert a in tm.order && a in tm.recs;
      assert p.deadline <= tm.recs[a].next <= last + tm.recs[a].ms;
    }
  }

  /** From the start: over every run of a new manager with a clock that runs forward, then a step
      back and an expiry, every poller was woken or is in time for every timer. */
  lemma StepBackFromStart(start: u64, run: seq<Step>, now: u64)
    requires IsRun(NewManager(start), run) && Forward(NewManager(start), run, start)
    requires now <= LastReading(run, start) && NoWrap(Last(NewManager(start), run), Step(ExpireOp, now))
    ensures var tm, pollers := Last(NewManager(start), run), LastPollers(NewManager(start), map[], run);
            var t := ListExpired(tm, now);
            forall p :: p in pollers ==>
                          || Woken(t, pollers[p])
                          || (Valid(t) && forall a :: a in t.order ==>
                                            now + Left(pollers[p], LastReading(run, start)) <= t.recs[a].next)
  {
    hide ListExpired;
    ForwardKeeps(NewManager(start), map[], run, start);
    var tm, pollers := Last(NewManager(start), run), LastPollers(NewManager(start), map[], run);
    Expires(tm, now);
    forall p | p in pollers && InTime(tm, pollers[p])
      ensures var t := ListExpired(tm, now);
              Valid(t) && forall a :: a in t.order ==> now + Left(pollers[p], LastReading(run, start)) <= t.recs[a].next
    {
      StepBackInTime(tm, pollers[p], LastReading(run, start), now);
    }
  }

  /** The exact condition after a rollover, for a poller that still has its whole delay to sleep: it
      is in time for every timer exactly when the delay is no more than any recurring period. */
  lemma RolloverExact(tm: TM, p: Poller, now: u64)
    requires Valid(tm) && Rolled(tm.prev, now) && NoWrap(tm, Step(ExpireOp, now))
    ensures var t := ListExpired(tm, now);
            && Valid(t)
            && ((forall a :: a in t.order ==> now + p.delay <= t.recs[a].next) <==>
                (forall a :: a in tm.order && tm.recs[a].recurring ==> p.delay <= tm.recs[a].ms))
  {
    hide ListExpired;
    Expires(tm, now);
    var t := ListExpired(tm, now);
    assert forall a :: a in tm.order && tm.recs[a].recurring ==> a in t.order && t.recs[a].next == now + tm.recs[a].ms;
  }

  /** It fails when the clock had stepped back before the poll too. A manager made at `start` gets a
      recurring timer; the clock steps back by `back`, less than an hour if one likes; the poller is
      given the period and the step to sleep; a rollover re-arms the timer. The poller is not woken,
      and epoll_wait ends after the timer is due. */
  lemma TwoStepsBackLate(start: u64, back: nat, now: u64, ms: u64, cb: Option<nat>)
    requires 0 < back <= start && Rolled(start, now) && start + ms < TWO_64
    requires ms < MAX_TIMEOUT && ms + back < TWO_31
    ensures var run := [Step(AddOp(0, ms, cb, true), start), Step(PollOp(0), start - back), Step(ExpireOp, now)];
            && IsRun(NewManager(start), run)
            && var t, pollers := Last(NewManager(start), run), LastPollers(NewManager(start), map[], run);
            && 0 in pollers && 0 in t.order && 0 in t.recs && !Woken(t, pollers[0])
            && pollers[0].delay == ms + back && now + WaitTime(pollers[0].delay) > t.recs[0].next
  {
    var a, b, c := Step(AddOp(0, ms, cb, true), start), Step(PollOp(0), start - back), Step(ExpireOp, now);
    NextKeeps(NewManager(start), a);
    AddedThenPolled(start, back, ms, cb);
    var tm2 := Next(Next(NewManager(start), a), b);
    assert NextTimer(Next(NewManager(start), a), start - back) == ms + back;
    WaitTimeShort(ms + back);
    assert Goes(tm2, 0, now) && tm2.recs[0].recurring;
    Expires(tm2, now);
    hide Next, IsRun, Last, LastPollers, WaitTime;
    ThreeSteps(NewManager(start), map[], a, b, c);
  }

  lemma AddedThenPolled(start: u64, back: nat, ms: u64, cb: Option<nat>)
    requires 0 < back <= start && start + ms < TWO_64
    ensures var a, b := Step(AddOp(0, ms, cb, true), start), Step(PollOp(0), start - back);
            var rec := Rec(true, ms, start + ms, cb);
            && Enabled(NewManager(start), a.op)
            && Next(NewManager(start), a) == TM(map[0 := rec], [0], true, start, 1)
            && Next(TM(map[0 := rec], [0], true, start, 1), b) == TM(map[0 := rec], [0], false, start, 1)
  {
  }

  lemma WaitTimeShort(delay: u64)
    requires delay < TWO_31
    ensures WaitTime(delay) == if delay > MAX_TIMEOUT then MAX_TIMEOUT else delay
  {
  }
}
