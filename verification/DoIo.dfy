/** The wait in do_io: a hooked call that would block adds a timer, registers for the event, yields,
    and on resumption cancels the timer and tries again or gives up.

    A call is named by the timer_info it owns, which dies with it. `slots` holds who is registered
    for each descriptor and event, `timers` the live condition timers (`owner` says whose). Of the
    run queue, `woken` holds the calls whose fiber is queued and `fired` those with a queued timer
    callback. */
module DoIo {

  import opened Options

  datatype Phase =
    | Running   // in the system call, or between resumption and the next wait
    | Armed     // the timer is added, the event not yet
    | Parked

  /** `expired`: some timer of the call has expired. `late`: the call registered with its cancelled
      flag already set. `lost`: its timer callback set the flag, but epoll_ctl refused to take the
      event back. `parks` and `wakes` count the waits and the times the fiber was queued. */
  datatype Call = Call(slot: nat, finite: bool, phase: Phase, timer: Option<nat>, cancelled: bool,
                       expired: bool, late: bool, lost: bool, parks: nat, wakes: nat)

  datatype End = End(c: nat, timedOut: bool, expired: bool)

  datatype State = State(calls: map<nat, Call>, slots: map<nat, nat>, timers: set<nat>,
                         woken: multiset<nat>, fired: multiset<nat>,
                         used: set<nat>, owner: map<nat, nat>, ends: seq<End>)

  datatype Step =
    | Begin(c: nat, slot: nat, finite: bool)
    | AddTimer(c: nat, t: nat)     // the call would block; t is the new timer
    | AddEvent(c: nat)             // registers and yields
    | AddEventFails(c: nat)        // epoll_ctl refused
    | Ready(slot: nat)
    | Expire(t: nat)
    | RunTimer(c: nat, ok: bool)   // a queued timer callback; ok: epoll_ctl lets it cancel the event
    | Resume(c: nat)
    | Return(c: nat)

  predicate Enabled(s: State, st: Step) {
    match st
    case Begin(c, _, _) => c !in s.used
    case AddTimer(c, t) => c in s.calls && s.calls[c].phase == Running && t !in s.owner
    case AddEvent(c) => c in s.calls && s.calls[c].phase == Armed && s.calls[c].slot !in s.slots
    case AddEventFails(c) => c in s.calls && s.calls[c].phase == Armed
    case Ready(slot) => slot in s.slots && s.slots[slot] in s.calls
    case Expire(t) => t in s.timers && t in s.owner
    case RunTimer(c, _) => s.fired[c] > 0
    case Resume(c) => s.woken[c] > 0 && c in s.calls && s.calls[c].phase == Parked
    case Return(c) => c in s.calls && s.calls[c].phase == Running
  }

  /** triggerEvent: the registered fiber is queued. */
  function Trigger(s: State, slot: nat): State {
    if slot !in s.slots || s.slots[slot] !in s.calls then s else
    var c := s.slots[slot];
    s.(slots := s.slots - {slot}, woken := s.woken + multiset{c},
       calls := s.calls[c := s.calls[c].(wakes := s.calls[c].wakes + 1)])
  }

  /** A timer callback of the call has run and set its flag. */
  function Flagged(s: State, c: nat, lost: bool): State
    requires c in s.calls
  {
    s.(fired := s.fired - multiset{c}, calls := s.calls[c := s.calls[c].(cancelled := true, lost := lost)])
  }

  function CancelTimer(s: State, c: nat): State
    requires c in s.calls
  {
    if s.calls[c].timer.None? then s else s.(timers := s.timers - {s.calls[c].timer.value})
  }

  function Finish(s: State, c: nat, timedOut: bool): State
    requires c in s.calls
  {
    s.(calls := s.calls - {c}, ends := s.ends + [End(c, timedOut, s.calls[c].expired)])
  }

  function Next(s: State, st: Step): State
    requires Enabled(s, st)
  {
    match st
    case Begin(c, slot, finite) =>
      s.(calls := s.calls[c := Call(slot, finite, Running, None, false, false, false, false, 0, 0)],
         used := s.used + {c})
    case AddTimer(c, t) =>
      if s.calls[c].finite then
        s.(calls := s.calls[c := s.calls[c].(phase := Armed, timer := Some(t))],
           timers := s.timers + {t}, owner := s.owner[t := c])
      else s.(calls := s.calls[c := s.calls[c].(phase := Armed, timer := None)])
    case AddEvent(c) =>
      var x := s.calls[c];
      s.(calls := s.calls[c := x.(phase := Parked, late := x.cancelled, parks := x.parks + 1)],
         slots := s.slots[x.slot := c])
    case AddEventFails(c) => Finish(CancelTimer(s, c), c, false)
    case Ready(slot) => Trigger(s, slot)
    case Expire(t) =>
      var c := s.owner[t];
      s.(timers := s.timers - {t}, fired := s.fired + multiset{c},
         calls := if c in s.calls then s.calls[c := s.calls[c].(expired := true)] else s.calls)
    case RunTimer(c, ok) =>
      if c !in s.calls || s.calls[c].cancelled then s.(fired := s.fired - multiset{c})
      else if ok then Trigger(Flagged(s, c, false), s.calls[c].slot)
      else Flagged(s, c, Registered(s, c))
    case Resume(c) =>
      var s1 := CancelTimer(s.(woken := s.woken - multiset{c}), c);
      if s.calls[c].cancelled then Finish(s1, c, true)
      else s1.(calls := s1.calls[c := s1.calls[c].(phase := Running, timer := None)])
    case Return(c) => Finish(s, c, false)
  }

  // ---------- invariants ----------

  predicate Registered(s: State, c: nat)
    requires c in s.calls
  {
    s.calls[c].slot in s.slots && s.slots[s.calls[c].slot] == c
  }

  /** A parked call is registered or queued, once and not both; every park but the current one was
      matched by one wake. */
  predicate OneWake(s: State, c: nat)
    requires c in s.calls
  {
    var x := s.calls[c];
    && s.woken[c] == (if x.phase == Parked && !Registered(s, c) then 1 else 0)
    && (x.phase != Parked ==> !Registered(s, c))
    && x.parks == x.wakes + (if Registered(s, c) then 1 else 0)
  }

  predicate Live(s: State, c: nat)
    requires c in s.calls
  {
    s.calls[c].timer.Some? && s.calls[c].timer.value in s.timers
  }

  /** Something will wake the call: its own queue entry, or, while the flag is clear, its live timer
      or a queued callback of one. */
  predicate Covered(s: State, c: nat)
    requires c in s.calls
  {
    s.woken[c] > 0 || (!s.calls[c].cancelled && (Live(s, c) || s.fired[c] > 0))
  }

  /** A wait with a timeout is covered exactly when it is queued, or it began with the flag clear and
      no callback of its own failed to cancel the event. */
  predicate Waits(s: State, c: nat)
    requires c in s.calls
  {
    var x := s.calls[c];
    x.finite ==>
      && (x.phase == Parked ==> (Covered(s, c) <==> s.woken[c] > 0 || (!x.late && !x.lost)))
      && (x.phase == Armed && !x.cancelled ==> Covered(s, c))
  }

  /** The flag is set, and a callback is queued, only after a timer of the call has expired. */
  predicate Timed(s: State, c: nat)
    requires c in s.calls
  {
    s.calls[c].cancelled || s.fired[c] > 0 ==> s.calls[c].expired
  }

  predicate CallOk(s: State, c: nat)
    requires c in s.calls
  {
    && c in s.used
    && OneWake(s, c) && Waits(s, c) && Timed(s, c)
    && (s.calls[c].late || s.calls[c].lost ==> s.calls[c].cancelled)
    && (s.calls[c].phase == Running ==> s.calls[c].timer == None)
    && (s.calls[c].timer.Some? ==> s.calls[c].timer.value in s.owner && s.owner[s.calls[c].timer.value] == c)
  }

  predicate SlotsOk(s: State) {
    forall slot :: slot in s.slots ==> s.slots[slot] in s.calls && s.calls[s.slots[slot]].slot == slot
  }

  predicate TimersOk(s: State) {
    forall t :: t in s.timers ==> t in s.owner && s.owner[t] in s.calls && s.calls[s.owner[t]].timer == Some(t)
  }

  predicate QueueOk(s: State) {
    (forall c :: c in s.woken ==> c in s.calls) && (forall c :: c in s.fired ==> c in s.used)
  }

  predicate EndsOk(s: State) {
    forall i :: 0 <= i < |s.ends| && s.ends[i].timedOut ==> s.ends[i].expired
  }

  /** What the slots, the timers, the queue and the record of ended calls refer to. */
  predicate Refs(s: State) {
    SlotsOk(s) && TimersOk(s) && QueueOk(s) && EndsOk(s)
  }

  predicate Inv(s: State) {
    Refs(s) && forall c :: c in s.calls ==> CallOk(s, c)
  }

  /** Everything holds of the other calls, and nothing refers to this one any more. */
  predicate Detached(s: State, c: nat) {
    && Refs(s)
    && c in s.calls && c !in s.woken && !Registered(s, c) && !Live(s, c)
    && forall d :: d in s.calls && d != c ==> CallOk(s, d)
  }

  lemma FinishKept(s: State, c: nat, timedOut: bool)
    requires Detached(s, c) && (timedOut ==> s.calls[c].expired)
    ensures Inv(Finish(s, c, timedOut))
  {
    var t := Finish(s, c, timedOut);
    forall d | d in t.calls ensures CallOk(t, d) { assert CallOk(s, d); }
  }

  /** Cancelling the timer of a call that is not registered, its queue entry gone. */
  lemma Detaches(s: State, c: nat)
    requires Inv(s) && c in s.calls && !Registered(s, c)
    ensures Detached(CancelTimer(s.(woken := s.woken - multiset{c}), c), c)
  {
    hide Refs;
    DetachedRefs(s, c);
    var t := CancelTimer(s.(woken := s.woken - multiset{c}), c);
    forall d | d in t.calls && d != c ensures CallOk(t, d) { assert CallOk(s, d); }
  }

  lemma DetachedRefs(s: State, c: nat)
    requires Inv(s) && c in s.calls && !Registered(s, c)
    ensures var t := CancelTimer(s.(woken := s.woken - multiset{c}), c);
            && Refs(t) && c !in t.woken && !Live(t, c)
            && forall d :: d in s.calls && d != c && Live(s, d) ==> Live(t, d)
  {
    hide Waits, Timed;
    assert CallOk(s, c);
    forall d | d in s.calls && d != c && Live(s, d) ensures s.calls[d].timer != s.calls[c].timer {
      assert CallOk(s, d);
    }
  }

  lemma TriggerKept(s: State, slot: nat)
    requires Inv(s)
    ensures Inv(Trigger(s, slot))
  {
    var t := Trigger(s, slot);
    forall c | c in t.calls ensures CallOk(t, c) { assert CallOk(s, c); }
  }

  lemma BeginKept(s: State, c: nat, slot: nat, finite: bool)
    requires Inv(s) && Enabled(s, Begin(c, slot, finite))
    ensures Inv(Next(s, Begin(c, slot, finite)))
  {
    var t := Next(s, Begin(c, slot, finite));
    forall d | d in t.calls ensures CallOk(t, d) { if d != c { assert CallOk(s, d); } }
  }

  lemma AddTimerKept(s: State, c: nat, id: nat)
    requires Inv(s) && Enabled(s, AddTimer(c, id))
    ensures Inv(Next(s, AddTimer(c, id)))
  {
    hide Refs;
    AddTimerRefs(s, c, id);
    var t := Next(s, AddTimer(c, id));
    forall d | d in t.calls ensures CallOk(t, d) { assert CallOk(s, d); }
  }

  lemma AddTimerRefs(s: State, c: nat, id: nat)
    requires Inv(s) && Enabled(s, AddTimer(c, id))
    ensures Refs(Next(s, AddTimer(c, id)))
  {
    hide OneWake, Waits, Timed;
    assert CallOk(s, c);
  }

  lemma AddEventKept(s: State, c: nat)
    requires Inv(s) && Enabled(s, AddEvent(c))
    ensures Inv(Next(s, AddEvent(c)))
  {
    var t := Next(s, AddEvent(c));
    forall d | d in t.calls ensures CallOk(t, d) { assert CallOk(s, d); }
  }

  lemma FailKept(s: State, c: nat)
    requires Inv(s) && Enabled(s, AddEventFails(c))
    ensures Inv(Next(s, AddEventFails(c)))
  {
    hide Detached, Finish, CancelTimer, Refs;
    assert CallOk(s, c);
    assert s.woken - multiset{c} == s.woken;
    Detaches(s, c);
    FinishKept(CancelTimer(s, c), c, false);
  }

  lemma ExpireKept(s: State, id: nat)
    requires Inv(s) && Enabled(s, Expire(id))
    ensures Inv(Next(s, Expire(id)))
  {
    var t := Next(s, Expire(id));
    forall d | d in t.calls ensures CallOk(t, d) { assert CallOk(s, d); }
  }

  lemma FlaggedKept(s: State, c: nat)
    requires Inv(s) && c in s.calls && c in s.fired && !s.calls[c].cancelled
    ensures Inv(Flagged(s, c, Registered(s, c)))
  {
    var t := Flagged(s, c, Registered(s, c));
    forall d | d in t.calls ensures CallOk(t, d) { assert CallOk(s, d); }
  }

  lemma StaleKept(s: State, c: nat)
    requires Inv(s) && (c in s.calls ==> s.calls[c].cancelled)
    ensures Inv(s.(fired := s.fired - multiset{c}))
  {
    var t := s.(fired := s.fired - multiset{c});
    forall d | d in t.calls ensures CallOk(t, d) { assert CallOk(s, d); }
  }

  /** Flag and cancellation: a registered call that was covered by this callback is then in the
      queue itself, or it is lost. */
  lemma RunTimerKept(s: State, c: nat, ok: bool)
    requires Inv(s) && Enabled(s, RunTimer(c, ok))
    ensures Inv(Next(s, RunTimer(c, ok)))
  {
    hide Inv;
    if c !in s.calls || s.calls[c].cancelled {
      StaleKept(s, c);
    } else if ok && Registered(s, c) {
      var slot := s.calls[c].slot;
      TriggerKept(s, slot);
      FlaggedKept(Trigger(s, slot), c);
      assert Trigger(Flagged(s, c, false), slot).calls == Flagged(Trigger(s, slot), c, false).calls;
    } else {
      FlaggedKept(s, c);
      TriggerKept(Flagged(s, c, Registered(s, c)), s.calls[c].slot);
    }
  }

  lemma ResumeKept(s: State, c: nat)
    requires Inv(s) && Enabled(s, Resume(c))
    ensures Inv(Next(s, Resume(c)))
  {
    hide Refs;
    assert CallOk(s, c);
    Detaches(s, c);
    var s1 := CancelTimer(s.(woken := s.woken - multiset{c}), c);
    if s.calls[c].cancelled { FinishKept(s1, c, true); } else { RunsOn(s1, c); }
  }

  lemma RunsOn(s: State, c: nat)
    requires Detached(s, c) && c in s.used && s.calls[c].parks == s.calls[c].wakes && Timed(s, c)
    requires !s.calls[c].late && !s.calls[c].lost
    ensures Inv(s.(calls := s.calls[c := s.calls[c].(phase := Running, timer := None)]))
  {
    hide Refs;
    var t := s.(calls := s.calls[c := s.calls[c].(phase := Running, timer := None)]);
    RunsOnRefs(s, c);
    forall d | d in t.calls ensures CallOk(t, d) { if d != c { assert CallOk(s, d); } }
  }

  lemma RunsOnRefs(s: State, c: nat)
    requires Detached(s, c)
    ensures Refs(s.(calls := s.calls[c := s.calls[c].(phase := Running, timer := None)]))
  {
    hide CallOk;
  }

  lemma ReturnKept(s: State, c: nat)
    requires Inv(s) && Enabled(s, Return(c))
    ensures Inv(Next(s, Return(c)))
  {
    hide Finish, Refs;
    assert CallOk(s, c);
    assert s.woken - multiset{c} == s.woken;
    Detaches(s, c);
    FinishKept(s, c, false);
  }

  // ---------- runs ----------

  lemma NextKept(s: State, st: Step)
    requires Inv(s) && Enabled(s, st)
    ensures Inv(Next(s, st))
  {
    hide Inv;
    match st
    case Begin(c, slot, finite) => BeginKept(s, c, slot, finite);
    case AddTimer(c, t) => AddTimerKept(s, c, t);
    case AddEvent(c) => AddEventKept(s, c);
    case AddEventFails(c) => FailKept(s, c);
    case Ready(slot) => TriggerKept(s, slot);
    case Expire(t) => ExpireKept(s, t);
    case RunTimer(c, ok) => RunTimerKept(s, c, ok);
    case Resume(c) => ResumeKept(s, c);
    case Return(c) => ReturnKept(s, c);
  }

  predicate IsRun(s: State, run: seq<Step>)
    decreases |run|
  {
    run == [] || (Enabled(s, run[0]) && IsRun(Next(s, run[0]), run[1..]))
  }

  function Last(s: State, run: seq<Step>): State
    requires IsRun(s, run)
    decreases |run|
  {
    if run == [] then s else Last(Next(s, run[0]), run[1..])
  }

  const START := State(map[], map[], {}, multiset{}, multiset{}, {}, map[], [])

  /** With any number of workers: every park is matched by exactly one wake, ETIMEDOUT is returned
      only after a timer of the call has expired, and a wait with a timeout is covered exactly when
      it is queued, or its flag was clear when it began and no callback of its own was refused. */
  lemma {:induction false} RunKept(s: State, run: seq<Step>)
    requires Inv(s) && IsRun(s, run)
    ensures Inv(Last(s, run))
    decreases |run|
  {
    if run != [] {
      hide Inv, Next, Enabled;
      NextKept(s, run[0]);
      RunKept(Next(s, run[0]), run[1..]);
    }
  }

  /** The exact condition, at the moment the call parks. */
  lemma ParkExact(s: State, c: nat)
    requires Inv(s) && Enabled(s, AddEvent(c)) && s.calls[c].finite
    ensures Covered(Next(s, AddEvent(c)), c) <==> !s.calls[c].cancelled
  {
    assert CallOk(s, c);
  }

  // ---------- one worker ----------

  predicate Inside(st: Step, c: nat) {
    (st.AddTimer? || st.AddEvent? || st.AddEventFails? || st.Return?) && st.c == c
  }

  /** One worker: while a call is not parked the worker is inside it, and only it takes steps. */
  predicate Alone(s: State, st: Step) {
    forall c :: c in s.calls && s.calls[c].phase != Parked ==> Inside(st, c)
  }

  predicate ClearOne(x: Call) {
    !x.late && (x.phase != Parked ==> !x.cancelled)
  }

  predicate Clear(s: State) {
    forall c :: c in s.calls ==> ClearOne(s.calls[c])
  }

  lemma ClearKept(s: State, st: Step)
    requires Inv(s) && Clear(s) && Enabled(s, st) && Alone(s, st)
    ensures Clear(Next(s, st))
  {
    hide Inv, Next, Enabled;
    forall c | c in Next(s, st).calls ensures ClearOne(Next(s, st).calls[c]) {
      ClearCall(s, st, c);
    }
  }

  /** Triggering changes nothing of a call but the count of its wakes. */
  lemma TriggerCall(s: State, slot: nat, c: nat)
    ensures c in Trigger(s, slot).calls <==> c in s.calls
    ensures c in s.calls ==> Trigger(s, slot).calls[c].(wakes := 0) == s.calls[c].(wakes := 0)
  {
  }

  lemma ClearCall(s: State, st: Step, c: nat)
    requires Enabled(s, st) && c in Next(s, st).calls
    requires c in s.calls ==> ClearOne(s.calls[c]) && (s.calls[c].phase != Parked ==> Inside(st, c))
    ensures ClearOne(Next(s, st).calls[c])
  {
    hide Next, Enabled;
    if st.Ready? || st.RunTimer? || st.Expire? {
      ClearByOthers(s, st, c);
    } else {
      ClearByItself(s, st, c);
    }
  }

  lemma ClearByOthers(s: State, st: Step, c: nat)
    requires st.Ready? || st.RunTimer? || st.Expire?
    requires Enabled(s, st) && c in Next(s, st).calls
    requires c in s.calls ==> ClearOne(s.calls[c]) && (s.calls[c].phase != Parked ==> Inside(st, c))
    ensures ClearOne(Next(s, st).calls[c])
  {
    hide Trigger;
    if st.Ready? { TriggerCall(s, st.slot, c); }
    if st.RunTimer? && st.c in s.calls && !s.calls[st.c].cancelled {
      TriggerCall(Flagged(s, st.c, false), s.calls[st.c].slot, c);
    }
  }

  lemma ClearByItself(s: State, st: Step, c: nat)
    requires !st.Ready? && !st.RunTimer? && !st.Expire?
    requires Enabled(s, st) && c in Next(s, st).calls
    requires c in s.calls ==> ClearOne(s.calls[c]) && (s.calls[c].phase != Parked ==> Inside(st, c))
    ensures ClearOne(Next(s, st).calls[c])
  {
    hide Finish, CancelTimer, Trigger;
    if st.AddEventFails? { CancelCall(s, st.c); EndCall(CancelTimer(s, st.c), st.c, false); }
    if st.Return? { EndCall(s, st.c, false); }
    if st.Resume? {
      var s1 := s.(woken := s.woken - multiset{st.c});
      CancelCall(s1, st.c);
      EndCall(CancelTimer(s1, st.c), st.c, true);
    }
  }

  lemma EndCall(s: State, c: nat, timedOut: bool)
    requires c in s.calls
    ensures Finish(s, c, timedOut).calls == s.calls - {c} && Finish(s, c, timedOut).woken == s.woken
  {
  }

  lemma CancelCall(s: State, c: nat)
    requires c in s.calls
    ensures CancelTimer(s, c).calls == s.calls && CancelTimer(s, c).woken == s.woken
  {
  }

  predicate OneWorker(s: State, run: seq<Step>)
    requires IsRun(s, run)
    decreases |run|
  {
    run == [] || (Alone(s, run[0]) && OneWorker(Next(s, run[0]), run[1..]))
  }

  /** In a reactor with one worker, a call parked with a timeout has a live timer, a queued callback
      of one, or its own queue entry, exactly unless epoll_ctl refused its callback. */
  lemma {:induction false} OneWorkerCovered(s: State, run: seq<Step>)
    requires Inv(s) && Clear(s) && IsRun(s, run) && OneWorker(s, run)
    ensures var t := Last(s, run);
            && Inv(t)
            && forall c :: c in t.calls && t.calls[c].finite && t.calls[c].phase == Parked ==>
                             (Covered(t, c) <==> t.woken[c] > 0 || !t.calls[c].lost)
    decreases |run|
  {
    if run == [] {
      forall c | c in s.calls && s.calls[c].finite && s.calls[c].phase == Parked
        ensures Covered(s, c) <==> s.woken[c] > 0 || !s.calls[c].lost
      {
        assert CallOk(s, c);
      }
    } else {
      hide Inv, Next, Enabled, Clear;
      NextKept(s, run[0]);
      ClearKept(s, run[0]);
      OneWorkerCovered(Next(s, run[0]), run[1..]);
    }
  }

  /** A call is lost by one kind of step only: its callback finds it registered and unflagged, and
      epoll_ctl refuses. */
  predicate Loses(s: State, st: Step, c: nat) {
    st == RunTimer(c, false) && c in s.calls && Registered(s, c) && !s.calls[c].cancelled
  }

  lemma LostExact(s: State, st: Step, c: nat)
    requires Inv(s) && Enabled(s, st) && c in Next(s, st).calls
    ensures Next(s, st).calls[c].lost <==> (c in s.calls && s.calls[c].lost) || Loses(s, st, c)
  {
    hide Inv, Next, Enabled;
    if c in s.calls { Flags(s, c); }
    if st.Ready? || st.RunTimer? || st.Expire? {
      LostByOthers(s, st, c);
    } else {
      LostByItself(s, st, c);
    }
  }

  lemma Flags(s: State, c: nat)
    requires Inv(s) && c in s.calls
    ensures c in s.used && (s.calls[c].lost ==> s.calls[c].cancelled)
  {
    assert CallOk(s, c);
  }

  lemma LostByOthers(s: State, st: Step, c: nat)
    requires st.Ready? || st.RunTimer? || st.Expire?
    requires Enabled(s, st) && c in Next(s, st).calls && (c in s.calls && s.calls[c].lost ==> s.calls[c].cancelled)
    ensures Next(s, st).calls[c].lost <==> (c in s.calls && s.calls[c].lost) || Loses(s, st, c)
  {
    hide Trigger;
    if st.Ready? { TriggerCall(s, st.slot, c); }
    if st.RunTimer? && st.c in s.calls && !s.calls[st.c].cancelled {
      TriggerCall(Flagged(s, st.c, false), s.calls[st.c].slot, c);
    }
  }

  lemma LostByItself(s: State, st: Step, c: nat)
    requires !st.Ready? && !st.RunTimer? && !st.Expire?
    requires Enabled(s, st) && c in Next(s, st).calls && (c in s.calls ==> c in s.used)
    ensures Next(s, st).calls[c].lost <==> c in s.calls && s.calls[c].lost
  {
    hide Finish, CancelTimer, Trigger;
    if st.AddEventFails? { CancelCall(s, st.c); EndCall(CancelTimer(s, st.c), st.c, false); }
    if st.Return? { EndCall(s, st.c, false); }
    if st.Resume? {
      var s1 := s.(woken := s.woken - multiset{st.c});
      CancelCall(s1, st.c);
      EndCall(CancelTimer(s1, st.c), st.c, true);
    }
  }

  predicate NoneLost(s: State) {
    forall c :: c in s.calls ==> !s.calls[c].lost
  }

  /** epoll_ctl refuses no timer callback. */
  predicate Accepted(run: seq<Step>) {
    forall i :: 0 <= i < |run| && run[i].RunTimer? ==> run[i].ok
  }

  lemma {:induction false} NoneLostKept(s: State, run: seq<Step>)
    requires Inv(s) && NoneLost(s) && IsRun(s, run) && Accepted(run)
    ensures NoneLost(Last(s, run))
    decreases |run|
  {
    if run != [] {
      hide Inv, Next, Enabled;
      NextKept(s, run[0]);
      forall c | c in Next(s, run[0]).calls ensures !Next(s, run[0]).calls[c].lost {
        LostExact(s, run[0], c);
      }
      NoneLostKept(Next(s, run[0]), run[1..]);
    }
  }

  /** From the start, with one worker and epoll_ctl refusing no callback: at the end of every run
      every call parked with a timeout is covered, and nothing timed out without an expired timer. */
  lemma OneWorkerFromStart(run: seq<Step>)
    requires IsRun(START, run) && OneWorker(START, run) && Accepted(run)
    ensures var t := Last(START, run);
            && (forall c :: c in t.calls && t.calls[c].finite && t.calls[c].phase == Parked ==> Covered(t, c))
            && (forall i :: 0 <= i < |t.ends| && t.ends[i].timedOut ==> t.ends[i].expired)
  {
    OneWorkerCovered(START, run);
    NoneLostKept(START, run);
  }

  /** A refused callback does leave the call with nothing to wake it, one worker or more. */
  lemma RefusedUncovers(s: State, c: nat, t: nat)
    requires Inv(s) && c in s.calls && s.calls[c].phase == Running && s.calls[c].finite && !s.calls[c].cancelled
    requires forall d :: d in s.calls && d != c ==> s.calls[d].phase == Parked
    requires s.calls[c].slot !in s.slots && t !in s.owner
    ensures var run := [AddTimer(c, t), AddEvent(c), Expire(t), RunTimer(c, false)];
            IsRun(s, run) && OneWorker(s, run) && Stuck(Last(s, run), c)
  {
    hide Inv, Stuck;
    RefusedSteps(s, c, t);
    hide Enabled, Next, Alone;
    FourSteps(s, AddTimer(c, t), AddEvent(c), Expire(t), RunTimer(c, false));
    FourAlone(s, AddTimer(c, t), AddEvent(c), Expire(t), RunTimer(c, false));
  }

  lemma RefusedSteps(s: State, c: nat, t: nat)
    requires Inv(s) && c in s.calls && s.calls[c].phase == Running && s.calls[c].finite && !s.calls[c].cancelled
    requires forall d :: d in s.calls && d != c ==> s.calls[d].phase == Parked
    requires s.calls[c].slot !in s.slots && t !in s.owner
    ensures Enabled(s, AddTimer(c, t)) && Alone(s, AddTimer(c, t))
    ensures var s1 := Next(s, AddTimer(c, t));
            && Enabled(s1, AddEvent(c)) && Alone(s1, AddEvent(c))
            && var s2 := Next(s1, AddEvent(c));
            && Enabled(s2, Expire(t)) && Alone(s2, Expire(t))
            && var s3 := Next(s2, Expire(t));
            && Enabled(s3, RunTimer(c, false)) && Alone(s3, RunTimer(c, false))
            && Stuck(Next(s3, RunTimer(c, false)), c)
  {
    assert OneWake(s, c) by { assert CallOk(s, c); }
    hide Inv;
    ParkSteps(s, c, t);
    hide Enabled, Next, Alone, Stuck;
    RefusedFire(Next(Next(s, AddTimer(c, t)), AddEvent(c)), c, t);
  }

  /** Parked with a live timer, everyone else parked too. */
  predicate Asleep(s: State, c: nat, t: nat) {
    && c in s.calls && s.calls[c].phase == Parked && !s.calls[c].cancelled && Registered(s, c)
    && s.woken[c] == 0 && t in s.timers && t in s.owner && s.owner[t] == c
    && forall d :: d in s.calls ==> s.calls[d].phase == Parked
  }

  lemma ParkSteps(s: State, c: nat, t: nat)
    requires c in s.calls && s.calls[c].phase == Running && s.calls[c].finite && !s.calls[c].cancelled && OneWake(s, c)
    requires forall d :: d in s.calls && d != c ==> s.calls[d].phase == Parked
    requires s.calls[c].slot !in s.slots && t !in s.owner
    ensures Enabled(s, AddTimer(c, t)) && Alone(s, AddTimer(c, t))
    ensures var s1 := Next(s, AddTimer(c, t));
            && Enabled(s1, AddEvent(c)) && Alone(s1, AddEvent(c))
            && Asleep(Next(s1, AddEvent(c)), c, t)
  {
  }

  lemma RefusedFire(s: State, c: nat, t: nat)
    requires Asleep(s, c, t)
    ensures Enabled(s, Expire(t)) && Alone(s, Expire(t))
    ensures var s1 := Next(s, Expire(t));
            && Enabled(s1, RunTimer(c, false)) && Alone(s1, RunTimer(c, false))
            && Stuck(Next(s1, RunTimer(c, false)), c)
  {
  }

  lemma FourAlone(s: State, a: Step, b: Step, c: Step, d: Step)
    requires Enabled(s, a) && Alone(s, a)
    requires var s1 := Next(s, a);
             && Enabled(s1, b) && Alone(s1, b)
             && var s2 := Next(s1, b);
             && Enabled(s2, c) && Alone(s2, c) && Enabled(Next(s2, c), d) && Alone(Next(s2, c), d)
    requires IsRun(s, [a, b, c, d])
    ensures OneWorker(s, [a, b, c, d])
  {
    hide Enabled, Next, Alone;
    assert [a, b, c, d][1..] == [b, c, d] && [b, c, d][1..] == [c, d] && [c, d][1..] == [d] && [d][1..] == [];
    var s1 := Next(s, a);
    var s2 := Next(s1, b);
    assert OneWorker(Next(s2, c), [d]);
    assert OneWorker(s2, [c, d]);
    assert OneWorker(s1, [b, c, d]);
  }

  // ---------- two workers ----------

  /** With a second worker the timer can expire, and its callback run, before the call registers:
      the callback finds no event to cancel, and the call parks with nothing to wake it. */
  lemma TwoWorkersUncovered(s: State, c: nat, t: nat, ok: bool)
    requires Inv(s) && c in s.calls && s.calls[c].phase == Running && s.calls[c].finite && !s.calls[c].cancelled
    requires s.calls[c].slot !in s.slots && t !in s.owner
    ensures var run := [AddTimer(c, t), Expire(t), RunTimer(c, ok), AddEvent(c)];
            IsRun(s, run) && Stuck(Last(s, run), c)
  {
    hide Inv, Stuck;
    EarlyTimer(s, c, t, ok);
    hide Enabled, Next;
    FourSteps(s, AddTimer(c, t), Expire(t), RunTimer(c, ok), AddEvent(c));
  }

  /** The four steps one by one. */
  lemma EarlyTimer(s: State, c: nat, t: nat, ok: bool)
    requires Inv(s) && c in s.calls && s.calls[c].phase == Running && s.calls[c].finite && !s.calls[c].cancelled
    requires s.calls[c].slot !in s.slots && t !in s.owner
    ensures Enabled(s, AddTimer(c, t))
    ensures var s1 := Next(s, AddTimer(c, t));
            && Enabled(s1, Expire(t))
            && var s2 := Next(s1, Expire(t));
            && Enabled(s2, RunTimer(c, ok))
            && var s3 := Next(s2, RunTimer(c, ok));
            && Enabled(s3, AddEvent(c)) && Stuck(Next(s3, AddEvent(c)), c)
  {
    assert OneWake(s, c) by { assert CallOk(s, c); }
    hide Inv;
  }

  lemma FourSteps(s: State, a: Step, b: Step, c: Step, d: Step)
    requires Enabled(s, a)
    requires var s1 := Next(s, a); Enabled(s1, b) && var s2 := Next(s1, b); Enabled(s2, c) && Enabled(Next(s2, c), d)
    ensures IsRun(s, [a, b, c, d]) && Last(s, [a, b, c, d]) == Next(Next(Next(Next(s, a), b), c), d)
  {
    hide Enabled, Next;
    var run := [a, b, c, d];
    assert run[1..] == [b, c, d] && [b, c, d][1..] == [c, d] && [c, d][1..] == [d] && [d][1..] == [];
    assert IsRun(Next(Next(Next(s, a), b), c), [d]);
    assert IsRun(Next(Next(s, a), b), [c, d]);
    assert IsRun(Next(s, a), [b, c, d]);
    assert Last(Next(Next(Next(s, a), b), c), [d]) == Next(Next(Next(Next(s, a), b), c), d);
    assert Last(Next(Next(s, a), b), [c, d]) == Next(Next(Next(Next(s, a), b), c), d);
    assert Last(Next(s, a), [b, c, d]) == Next(Next(Next(Next(s, a), b), c), d);
  }

  predicate Stuck(s: State, c: nat) {
    c in s.calls && s.calls[c].phase == Parked && s.woken[c] == 0 && s.calls[c].cancelled
  }

  /** Nothing that concerns the call's own descriptor and event happens. */
  predicate Quiet(s: State, st: Step, slot: nat, c: nat) {
    && st != Ready(slot) && (st.Begin? ==> st.slot != slot)
    && forall d :: d in s.calls && d != c ==> s.calls[d].slot != slot
  }

  /** Such a call stays parked: only readiness, or another call for the same event, can free it. */
  lemma StuckStays(s: State, st: Step, c: nat)
    requires Inv(s) && Enabled(s, st) && Stuck(s, c) && Quiet(s, st, s.calls[c].slot, c)
    ensures Stuck(Next(s, st), c) && !Covered(Next(s, st), c)
  {
    hide Inv, Next, Enabled, SlotsOk;
    Counted(s, c);
    if st.Ready? || st.RunTimer? || st.Expire? {
      StuckByOthers(s, st, c);
    } else {
      StuckByOwn(s, st, c);
    }
    assert !Covered(Next(s, st), c) by { Uncovered(Next(s, st), c); }
  }

  lemma Uncovered(s: State, c: nat)
    requires Stuck(s, c)
    ensures c in s.calls && !Covered(s, c)
  {
  }

  lemma StuckByOthers(s: State, st: Step, c: nat)
    requires SlotsOk(s) && Enabled(s, st) && Stuck(s, c) && (st.Ready? || st.RunTimer? || st.Expire?)
    requires st != Ready(s.calls[c].slot)
    requires st.RunTimer? && st.c != c && st.c in s.calls ==> s.calls[st.c].slot != s.calls[c].slot
    ensures Stuck(Next(s, st), c)
  {
    hide Trigger;
    if st.Ready? { TriggerOther(s, st.slot, c); }
    if st.RunTimer? && st.c in s.calls && !s.calls[st.c].cancelled {
      TriggerOther(Flagged(s, st.c, false), s.calls[st.c].slot, c);
    }
  }

  lemma StuckByOwn(s: State, st: Step, c: nat)
    requires Enabled(s, st) && Stuck(s, c) && !st.Ready? && !st.RunTimer? && !st.Expire? && c in s.used
    ensures Stuck(Next(s, st), c)
  {
    hide Finish, CancelTimer, Trigger;
    if st.AddEventFails? { CancelCall(s, st.c); EndCall(CancelTimer(s, st.c), st.c, false); }
    if st.Return? { EndCall(s, st.c, false); }
    if st.Resume? {
      var s1 := s.(woken := s.woken - multiset{st.c});
      CancelCall(s1, st.c);
      EndCall(CancelTimer(s1, st.c), st.c, true);
    }
  }

  lemma Counted(s: State, c: nat)
    requires Inv(s) && c in s.calls
    ensures c in s.used && SlotsOk(s)
  {
    assert CallOk(s, c);
  }

  lemma TriggerOther(s: State, slot: nat, c: nat)
    requires SlotsOk(s) && Stuck(s, c) && slot != s.calls[c].slot
    ensures Stuck(Trigger(s, slot), c)
  {
  }
}
