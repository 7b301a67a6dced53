/** What the steps of a run say about its calls: when a call times out, and what must have happened
    before, told by the steps alone. */
module DoIoHistory {

  import opened Options
  import opened DoIo

  /** The state after the first `i` steps. */
  function StateAt(s: State, run: seq<Step>, i: nat): State
    requires IsRun(s, run) && i <= |run|
    decreases i
  {
    if i == 0 then s else StateAt(Next(s, run[0]), run[1..], i - 1)
  }

  lemma {:induction false} StepAt(s: State, run: seq<Step>, i: nat)
    requires IsRun(s, run) && i < |run| && Inv(s)
    ensures Inv(StateAt(s, run, i)) && Enabled(StateAt(s, run, i), run[i])
    ensures StateAt(s, run, i + 1) == Next(StateAt(s, run, i), run[i])
    decreases i
  {
    hide Inv, Next, Enabled;
    if i > 0 {
      NextKept(s, run[0]);
      StepAt(Next(s, run[0]), run[1..], i - 1);
    }
  }

  function At(run: seq<Step>, i: nat): State
    requires IsRun(START, run) && i <= |run|
  {
    StateAt(START, run, i)
  }

  lemma StepFromStart(run: seq<Step>, i: nat)
    requires IsRun(START, run) && i < |run|
    ensures Inv(At(run, i)) && Enabled(At(run, i), run[i]) && At(run, i + 1) == Next(At(run, i), run[i])
  {
    StepAt(START, run, i);
  }

  // ---------- single steps ----------

  predicate IsCallback(st: Step, c: nat) {
    st.RunTimer? && st.c == c
  }

  predicate ExpiresFor(s: State, st: Step, c: nat) {
    st.Expire? && st.t in s.owner && s.owner[st.t] == c
  }

  lemma UsedStep(s: State, st: Step)
    requires Enabled(s, st)
    ensures Next(s, st).used == s.used + if st.Begin? then {st.c} else {}
  {
  }

  /** How a step changes what identifies a call and its flag. */
  lemma CallStep(s: State, st: Step, c: nat)
    requires Inv(s) && Enabled(s, st) && c in Next(s, st).calls
    ensures var x := Next(s, st).calls[c];
            if c in s.calls then
              && !(st.Begin? && st.c == c) && x.slot == s.calls[c].slot && x.finite == s.calls[c].finite
              && (x.cancelled <==> s.calls[c].cancelled || IsCallback(st, c))
              && (x.expired <==> s.calls[c].expired || ExpiresFor(s, st, c))
            else st == Begin(c, x.slot, x.finite) && !x.cancelled && !x.expired
  {
    hide Inv, Next, Enabled;
    if c in s.calls { Flags(s, c); }
    if st.Ready? || st.RunTimer? || st.Expire? {
      CallByOthers(s, st, c);
    } else {
      CallByItself(s, st, c);
    }
  }

  lemma CallByOthers(s: State, st: Step, c: nat)
    requires st.Ready? || st.RunTimer? || st.Expire?
    requires Enabled(s, st) && c in Next(s, st).calls
    ensures c in s.calls
    ensures var x := Next(s, st).calls[c];
            && x.slot == s.calls[c].slot && x.finite == s.calls[c].finite
            && (x.cancelled <==> s.calls[c].cancelled || IsCallback(st, c))
            && (x.expired <==> s.calls[c].expired || ExpiresFor(s, st, c))
  {
    hide Trigger;
    if st.Ready? { TriggerCall(s, st.slot, c); }
    if st.RunTimer? && st.c in s.calls && !s.calls[st.c].cancelled {
      TriggerCall(Flagged(s, st.c, false), s.calls[st.c].slot, c);
    }
  }

  lemma CallByItself(s: State, st: Step, c: nat)
    requires !st.Ready? && !st.RunTimer? && !st.Expire?
    requires Enabled(s, st) && c in Next(s, st).calls && (c in s.calls ==> c in s.used)
    ensures var x := Next(s, st).calls[c];
            if c in s.calls then
              && !(st.Begin? && st.c == c) && x.slot == s.calls[c].slot && x.finite == s.calls[c].finite
              && x.cancelled == s.calls[c].cancelled && x.expired == s.calls[c].expired
            else st == Begin(c, x.slot, x.finite) && !x.cancelled && !x.expired
  {
    hide Finish, CancelTimer, Trigger;
    if st.AddEventFails? { CancelCall(s, st.c); EndCall(CancelTimer(s, st.c), st.c, false); }
    if st.Return? { EndCall(s, st.c, false); }
    if st.Resume? {
      var s1 := s.(woken := s.woken - multiset{st.c});
      CancelCall(s1, st.c);
      EndCall(CancelTimer(s1, st.c), st.c, true);
    }
  }

  /** A timer belongs to the call that added it, which has a timeout. */
  lemma OwnerStep(s: State, st: Step, t: nat)
    requires Enabled(s, st) && t in Next(s, st).owner
    ensures if t in s.owner then Next(s, st).owner[t] == s.owner[t]
            else
              && st == AddTimer(Next(s, st).owner[t], t)
              && Next(s, st).owner[t] in s.calls && s.calls[Next(s, st).owner[t]].finite
  {
    if !st.AddTimer? { SameOwner(s, st); }
  }

  lemma TriggerOwner(s: State, slot: nat)
    ensures Trigger(s, slot).owner == s.owner
  {
  }

  lemma SameOwner(s: State, st: Step)
    requires Enabled(s, st) && !st.AddTimer?
    ensures Next(s, st).owner == s.owner
  {
    hide Trigger;
    if st.Ready? { TriggerOwner(s, st.slot); }
    if st.RunTimer? && st.c in s.calls && !s.calls[st.c].cancelled {
      TriggerOwner(Flagged(s, st.c, false), s.calls[st.c].slot);
    }
  }

  /** A callback is queued by the expiry of a timer of its call, and taken from the queue to run. */
  lemma FiredStep(s: State, st: Step, c: nat)
    requires Enabled(s, st)
    ensures Next(s, st).fired[c] ==
            s.fired[c] + (if ExpiresFor(s, st, c) then 1 else 0) - (if IsCallback(st, c) then 1 else 0)
  {
    hide Trigger;
    if st.Ready? { TriggerFired(s, st.slot); }
    if st.RunTimer? && st.c in s.calls && !s.calls[st.c].cancelled {
      TriggerFired(Flagged(s, st.c, false), s.calls[st.c].slot);
    }
  }

  lemma TriggerFired(s: State, slot: nat)
    ensures Trigger(s, slot).fired == s.fired
  {
  }

  /** What a step adds to the record of ended calls. */
  lemma EndStep(s: State, st: Step)
    requires Enabled(s, st)
    ensures var n := Next(s, st);
            match st
            case Resume(c) =>
              if s.calls[c].cancelled then n.ends == s.ends + [End(c, true, s.calls[c].expired)] && c !in n.calls
              else n.ends == s.ends && c in n.calls && n.calls[c].phase == Running
            case Return(c) => n.ends == s.ends + [End(c, false, s.calls[c].expired)] && c !in n.calls
            case AddEventFails(c) => n.ends == s.ends + [End(c, false, s.calls[c].expired)] && c !in n.calls
            case _ => n.ends == s.ends
  {
  }

  // ---------- histories ----------

  predicate CalledBack(run: seq<Step>, i: nat, c: nat)
    requires i <= |run|
  {
    exists j :: 0 <= j < i && IsCallback(run[j], c)
  }

  predicate Began(run: seq<Step>, i: nat, c: nat, slot: nat, finite: bool)
    requires i <= |run|
  {
    exists j :: 0 <= j < i && run[j] == Begin(c, slot, finite)
  }

  /** A call that is under way began with its descriptor, event and timeout, and its flag is set exactly
      when a timer callback of it has run. */
  lemma {:induction false} CallHistory(run: seq<Step>, i: nat, c: nat)
    requires IsRun(START, run) && i <= |run|
    ensures CalledBack(run, i, c) ==> c in At(run, i).used
    ensures c in At(run, i).calls ==> Began(run, i, c, At(run, i).calls[c].slot, At(run, i).calls[c].finite)
    ensures c in At(run, i).calls ==> (At(run, i).calls[c].cancelled <==> CalledBack(run, i, c))
    decreases i
  {
    hide IsRun, Inv, Next, Enabled, StateAt;
    if i == 0 {
      StartEmpty(run);
    } else {
      var s, st, n := At(run, i - 1), run[i - 1], At(run, i);
      StepFromStart(run, i - 1);
      CallHistory(run, i - 1, c);
      UsedStep(s, st);
      CalledBackSnoc(run, i, c);
      if IsCallback(st, c) { CallbackUsed(s, st); }
      if c in n.calls {
        CallStep(s, st, c);
        BeginFresh(s, st);
      }
    }
  }

  lemma StartEmpty(run: seq<Step>)
    requires IsRun(START, run)
    ensures At(run, 0) == START
  {
  }

  lemma CalledBackSnoc(run: seq<Step>, i: nat, c: nat)
    requires 0 < i <= |run|
    ensures CalledBack(run, i, c) <==> CalledBack(run, i - 1, c) || IsCallback(run[i - 1], c)
  {
  }

  lemma CallbackUsed(s: State, st: Step)
    requires Inv(s) && Enabled(s, st) && st.RunTimer?
    ensures st.c in s.used
  {
  }

  lemma BeginFresh(s: State, st: Step)
    requires Enabled(s, st)
    ensures st.Begin? ==> st.c !in s.used
  {
  }

  predicate BeginsTimed(st: Step, c: nat) {
    st.Begin? && st.c == c && st.finite
  }

  /** The call, which has a timeout, added the timer. */
  predicate Added(run: seq<Step>, i: nat, c: nat, t: nat)
    requires i <= |run|
  {
    exists j0, j1 :: 0 <= j0 < j1 < i && BeginsTimed(run[j0], c) && run[j1] == AddTimer(c, t)
  }

  lemma {:induction false} OwnerHistory(run: seq<Step>, i: nat, t: nat)
    requires IsRun(START, run) && i <= |run| && t in At(run, i).owner
    ensures Added(run, i, At(run, i).owner[t], t)
    decreases i
  {
    hide IsRun, Inv, Next, Enabled, StateAt;
    StartEmpty(run);
    if i > 0 {
      var s, st, n := At(run, i - 1), run[i - 1], At(run, i);
      StepFromStart(run, i - 1);
      OwnerStep(s, st, t);
      if t in s.owner {
        OwnerHistory(run, i - 1, t);
      } else {
        CallHistory(run, i - 1, n.owner[t]);
        var slot := s.calls[n.owner[t]].slot;
        var j0 :| 0 <= j0 < i - 1 && run[j0] == Begin(n.owner[t], slot, true);
        assert BeginsTimed(run[j0], n.owner[t]);
        assert run[i - 1] == AddTimer(n.owner[t], t);
      }
    }
  }

  /** A timer of the call, added while it had a timeout, has expired. */
  predicate Expired(run: seq<Step>, i: nat, c: nat)
    requires i <= |run|
  {
    exists j :: 0 <= j < i && run[j].Expire? && Added(run, j, c, run[j].t)
  }

  lemma {:induction false} UsedSince(run: seq<Step>, j: nat, i: nat)
    requires IsRun(START, run) && j < i <= |run| && run[j].Begin?
    ensures run[j].c in At(run, i).used && run[j].c !in At(run, j).used
    decreases i
  {
    hide IsRun, Inv, Next, Enabled, StateAt;
    StepFromStart(run, i - 1);
    UsedStep(At(run, i - 1), run[i - 1]);
    BeginFresh(At(run, i - 1), run[i - 1]);
    if j < i - 1 { UsedSince(run, j, i - 1); }
  }

  lemma BeginOnce(run: seq<Step>, j: nat, k: nat)
    requires IsRun(START, run) && j < k < |run| && run[j].Begin? && run[k].Begin?
    ensures run[j].c != run[k].c
  {
    hide IsRun, StateAt;
    UsedSince(run, j, k);
    UsedSince(run, k, k + 1);
  }

  lemma TimedCall(run: seq<Step>, i: nat, j: nat, c: nat)
    requires IsRun(START, run) && j < i <= |run| && BeginsTimed(run[j], c) && c in At(run, i).calls
    ensures At(run, i).calls[c].finite
  {
    hide IsRun, StateAt;
    CallHistory(run, i, c);
    var x := At(run, i).calls[c];
    var k :| 0 <= k < i && run[k] == Begin(c, x.slot, x.finite);
    if j < k { BeginOnce(run, j, k); }
    if k < j { BeginOnce(run, k, j); }
  }

  lemma NewOwner(s: State, c: nat, t: nat)
    requires Enabled(s, AddTimer(c, t)) && s.calls[c].finite
    ensures t in Next(s, AddTimer(c, t)).owner && Next(s, AddTimer(c, t)).owner[t] == c
  {
  }

  lemma OwnersStay(s: State, st: Step, t: nat)
    requires Enabled(s, st) && t in s.owner
    ensures t in Next(s, st).owner && Next(s, st).owner[t] == s.owner[t]
  {
    if !st.AddTimer? { SameOwner(s, st); }
  }

  lemma {:induction false} AddedOwner(run: seq<Step>, i: nat, c: nat, t: nat)
    requires IsRun(START, run) && i <= |run| && Added(run, i, c, t)
    ensures t in At(run, i).owner && At(run, i).owner[t] == c
    decreases i
  {
    hide IsRun, Inv, Next, StateAt;
    var j0, j1 :| 0 <= j0 < j1 < i && BeginsTimed(run[j0], c) && run[j1] == AddTimer(c, t);
    StepFromStart(run, i - 1);
    if j1 == i - 1 {
      TimedCall(run, i - 1, j0, c);
      NewOwner(At(run, i - 1), c, t);
    } else {
      assert Added(run, i - 1, c, t);
      AddedOwner(run, i - 1, c, t);
      OwnersStay(At(run, i - 1), run[i - 1], t);
    }
  }

  /** The step is the expiry of a timer that the call, which has a timeout, added before. */
  predicate ExpiresAt(run: seq<Step>, j: nat, c: nat)
    requires j < |run|
  {
    run[j].Expire? && Added(run, j, c, run[j].t)
  }

  lemma ExpiresExact(run: seq<Step>, j: nat, c: nat)
    requires IsRun(START, run) && j < |run|
    ensures ExpiresFor(At(run, j), run[j], c) <==> ExpiresAt(run, j, c)
  {
    hide IsRun, StateAt, Added;
    if ExpiresFor(At(run, j), run[j], c) { OwnerHistory(run, j, run[j].t); }
    if ExpiresAt(run, j, c) { AddedOwner(run, j, c, run[j].t); }
  }

  function Expiries(run: seq<Step>, i: nat, c: nat): nat
    requires i <= |run|
  {
    if i == 0 then 0 else Expiries(run, i - 1, c) + if ExpiresAt(run, i - 1, c) then 1 else 0
  }

  function Callbacks(run: seq<Step>, i: nat, c: nat): nat
    requires i <= |run|
  {
    if i == 0 then 0 else Callbacks(run, i - 1, c) + if IsCallback(run[i - 1], c) then 1 else 0
  }

  /** Each expiry of a timer is matched by one callback: those that have not run are queued. */
  lemma {:induction false} CallbacksMatched(run: seq<Step>, i: nat, c: nat)
    requires IsRun(START, run) && i <= |run|
    ensures Expiries(run, i, c) == Callbacks(run, i, c) + At(run, i).fired[c]
    decreases i
  {
    hide IsRun, Inv, Next, Enabled, StateAt, ExpiresAt, ExpiresFor;
    StartEmpty(run);
    if i > 0 {
      StepFromStart(run, i - 1);
      CallbacksMatched(run, i - 1, c);
      ExpiresExact(run, i - 1, c);
      FiredStep(At(run, i - 1), run[i - 1], c);
    }
  }

  lemma {:induction false} ExpiriesExpired(run: seq<Step>, i: nat, c: nat)
    requires i <= |run|
    ensures Expiries(run, i, c) > 0 <==> Expired(run, i, c)
  {
    hide Added;
    if i > 0 {
      ExpiriesExpired(run, i - 1, c);
      ExpiredSnoc(run, i, c);
    }
  }

  lemma ExpiredSnoc(run: seq<Step>, i: nat, c: nat)
    requires 0 < i <= |run|
    ensures Expired(run, i, c) <==> Expired(run, i - 1, c) || ExpiresAt(run, i - 1, c)
  {
    hide Added;
  }

  lemma ExpiredUsed(run: seq<Step>, i: nat, c: nat)
    requires IsRun(START, run) && i <= |run| && Expired(run, i, c)
    ensures c in At(run, i).used
  {
    hide IsRun, StateAt;
    var j :| 0 <= j < i && run[j].Expire? && Added(run, j, c, run[j].t);
    var j0, j1 :| 0 <= j0 < j1 < j && BeginsTimed(run[j0], c) && run[j1] == AddTimer(c, run[j].t);
    UsedSince(run, j0, i);
  }

  /** The record that a timer of the call has expired is right. */
  lemma {:induction false} ExpiredExact(run: seq<Step>, i: nat, c: nat)
    requires IsRun(START, run) && i <= |run| && c in At(run, i).calls
    ensures At(run, i).calls[c].expired <==> Expired(run, i, c)
    decreases i
  {
    hide IsRun, Inv, Next, Enabled, StateAt, Expired, ExpiresAt, ExpiresFor;
    StartEmpty(run);
    if i > 0 {
      var s, st := At(run, i - 1), run[i - 1];
      StepFromStart(run, i - 1);
      CallStep(s, st, c);
      ExpiredSnoc(run, i, c);
      ExpiresExact(run, i - 1, c);
      if c in s.calls {
        ExpiredExact(run, i - 1, c);
      } else {
        BeginFresh(s, st);
        if Expired(run, i - 1, c) { ExpiredUsed(run, i - 1, c); }
        NotExpiry(s, st, c);
      }
    }
  }

  lemma NotExpiry(s: State, st: Step, c: nat)
    requires st.Begin?
    ensures !ExpiresFor(s, st, c)
  {
  }

  /** Every callback of a call runs after one of its timers has expired. */
  lemma CallbackHistory(run: seq<Step>, j: nat, c: nat)
    requires IsRun(START, run) && j < |run| && IsCallback(run[j], c)
    ensures Expired(run, j, c)
  {
    hide IsRun, StateAt, Next;
    StepFromStart(run, j);
    CallbacksMatched(run, j, c);
    ExpiriesExpired(run, j, c);
  }

  /** How a call ends. A resumed call ends with ETIMEDOUT exactly when a timer callback of it has run
      before, and goes on otherwise; a call that returns, or that epoll_ctl refuses, never does; no
      other step ends a call. */
  lemma TimeoutExact(run: seq<Step>, i: nat)
    requires IsRun(START, run) && i < |run|
    ensures var s, n, st := At(run, i), At(run, i + 1), run[i];
            if st.Resume? then
              if CalledBack(run, i, st.c) then Ends(s, n, st.c, true)
              else n.ends == s.ends && st.c in n.calls && n.calls[st.c].phase == Running
            else if st.Return? || st.AddEventFails? then Ends(s, n, st.c, false)
            else n.ends == s.ends
  {
    hide IsRun, StateAt, Next, Inv;
    StepFromStart(run, i);
    var s, st := At(run, i), run[i];
    EndStep(s, st);
    if st.Resume? { CallHistory(run, i, st.c); }
  }

  /** The step ended the call, with ETIMEDOUT or without. */
  predicate Ends(s: State, n: State, c: nat, timedOut: bool) {
    && c !in n.calls && |n.ends| == |s.ends| + 1 && n.ends[..|s.ends|] == s.ends
    && n.ends[|s.ends|].c == c && n.ends[|s.ends|].timedOut == timedOut
  }

  /** Over every run, every call that ended with ETIMEDOUT: it began with a timeout, added a timer,
      that timer expired, its callback ran, and then it was resumed, in this order. */
  lemma {:induction false} TimedOutHistory(run: seq<Step>, i: nat, k: nat)
    requires IsRun(START, run) && i <= |run| && k < |At(run, i).ends| && At(run, i).ends[k].timedOut
    ensures exists j :: 0 <= j < i && run[j] == Resume(At(run, i).ends[k].c) && TimesOut(run, j, At(run, i).ends[k].c)
    decreases i
  {
    hide IsRun, StateAt, Next, Inv, TimesOut;
    StartEmpty(run);
    if i > 0 {
      TimeoutExact(run, i - 1);
      var s, n := At(run, i - 1), At(run, i);
      if k < |s.ends| {
        assert n.ends[k] == s.ends[k] by { EndsGrow(run, i - 1, k); }
        TimedOutHistory(run, i - 1, k);
      } else {
        assert run[i - 1].Resume?;
        Chain(run, i - 1, run[i - 1].c);
      }
    }
  }

  lemma EndsGrow(run: seq<Step>, i: nat, k: nat)
    requires IsRun(START, run) && i < |run| && k < |At(run, i).ends|
    ensures k < |At(run, i + 1).ends| && At(run, i + 1).ends[k] == At(run, i).ends[k]
  {
    hide IsRun, StateAt, Next, Inv;
    TimeoutExact(run, i);
    var s, n := At(run, i), At(run, i + 1);
    assert n.ends == s.ends || n.ends[..|s.ends|][k] == n.ends[k];
  }

  /** A callback of the call ran before, and one of its timers expired before that. */
  predicate TimesOut(run: seq<Step>, i: nat, c: nat)
    requires i <= |run|
  {
    exists j :: 0 <= j < i && IsCallback(run[j], c) && Expired(run, j, c)
  }

  lemma Chain(run: seq<Step>, i: nat, c: nat)
    requires IsRun(START, run) && i <= |run| && CalledBack(run, i, c)
    ensures TimesOut(run, i, c)
  {
    var j :| 0 <= j < i && IsCallback(run[j], c);
    CallbackHistory(run, j, c);
  }

  // ---------- parks and resumptions ----------

  function Count(run: seq<Step>, i: nat, x: Step): nat
    requires i <= |run|
  {
    if i == 0 then 0 else Count(run, i - 1, x) + if run[i - 1] == x then 1 else 0
  }

  lemma ParkStep(s: State, st: Step, c: nat)
    requires Inv(s) && Enabled(s, st) && c in Next(s, st).calls
    ensures var before := if c in s.calls && s.calls[c].phase == Parked then 1 else 0;
            var after := if Next(s, st).calls[c].phase == Parked then 1 else 0;
            after - before == (if st == AddEvent(c) then 1 else 0) - (if st == Resume(c) then 1 else 0)
  {
    hide Inv, Next, Enabled;
    CallStep(s, st, c);
    if st.Ready? || st.RunTimer? || st.Expire? {
      ParkByOthers(s, st, c);
    } else {
      ParkByItself(s, st, c);
    }
  }

  lemma ParkByOthers(s: State, st: Step, c: nat)
    requires st.Ready? || st.RunTimer? || st.Expire?
    requires Enabled(s, st) && c in Next(s, st).calls && c in s.calls
    ensures Next(s, st).calls[c].phase == s.calls[c].phase
  {
    hide Trigger;
    if st.Ready? { TriggerCall(s, st.slot, c); }
    if st.RunTimer? && st.c in s.calls && !s.calls[st.c].cancelled {
      TriggerCall(Flagged(s, st.c, false), s.calls[st.c].slot, c);
    }
  }

  lemma ParkByItself(s: State, st: Step, c: nat)
    requires !st.Ready? && !st.RunTimer? && !st.Expire?
    requires Enabled(s, st) && c in Next(s, st).calls && (c in s.calls <==> !(st.Begin? && st.c == c))
    ensures var before := if c in s.calls && s.calls[c].phase == Parked then 1 else 0;
            var after := if Next(s, st).calls[c].phase == Parked then 1 else 0;
            after - before == (if st == AddEvent(c) then 1 else 0) - (if st == Resume(c) then 1 else 0)
  {
    hide Finish, CancelTimer, Trigger;
    if st.AddEventFails? { CancelCall(s, st.c); EndCall(CancelTimer(s, st.c), st.c, false); }
    if st.Return? { EndCall(s, st.c, false); }
    if st.Resume? {
      var s1 := s.(woken := s.woken - multiset{st.c});
      CancelCall(s1, st.c);
      EndCall(CancelTimer(s1, st.c), st.c, true);
    }
  }

  /** Each yield is matched by one resumption: a call under way has been resumed as often as it has
      yielded, or once less while it is parked. */
  lemma {:induction false} YieldsMatched(run: seq<Step>, i: nat, c: nat)
    requires IsRun(START, run) && i <= |run|
    ensures c in At(run, i).calls ==>
              Count(run, i, AddEvent(c)) ==
              Count(run, i, Resume(c)) + if At(run, i).calls[c].phase == Parked then 1 else 0
    ensures c !in At(run, i).used ==> Count(run, i, AddEvent(c)) == Count(run, i, Resume(c)) == 0
    decreases i
  {
    hide IsRun, Inv, Next, Enabled, StateAt;
    StartEmpty(run);
    if i > 0 {
      var s, st, n := At(run, i - 1), run[i - 1], At(run, i);
      StepFromStart(run, i - 1);
      YieldsMatched(run, i - 1, c);
      UsedStep(s, st);
      BeginFresh(s, st);
      if st.AddEvent? || st.Resume? { ActsUsed(s, st); }
      if c in n.calls {
        ParkStep(s, st, c);
        CallStep(s, st, c);
      }
    }
  }

  lemma ActsUsed(s: State, st: Step)
    requires Inv(s) && Enabled(s, st) && (st.AddEvent? || st.Resume?)
    ensures st.c in s.used
  {
    assert CallOk(s, st.c);
  }
}
