/** The scheduler over whole runs. */
module SchedulerRuns {
  import opened Options
  import opened Scheduler
  import opened SchedulerSafety

  ghost predicate Initial(s: State) {
    && s.workers != map[] && ANY !in s.workers
    && (forall w :: w in s.workers ==> s.workers[w] == Worker(Loop, Init, None))
    && (forall f :: f in s.fibers ==> s.fibers[f] == Init)
    && s.queue == [] && s.active == 0 && !s.stop && s.log == [] && s.taken == []
  }

  /** Each scheduled task is in the queue or has been handed to exactly one worker, once. */
  ghost predicate LogInv(s: State) {
    && multiset(s.log) == multiset(s.queue) + multiset(Entries(s.taken))
    && (forall i :: 0 <= i < |s.log| ==> s.log[i].ticket == i)
  }

  function Entries(taken: seq<(Tid, Entry)>): (r: seq<Entry>)
    ensures |r| == |taken| && forall i :: 0 <= i < |r| ==> r[i] == taken[i].1
  {
    seq(|taken|, i requires 0 <= i < |taken| => taken[i].1)
  }

  /** An entry pinned to a thread was picked by that thread. */
  ghost predicate PinInv(s: State) {
    forall i :: 0 <= i < |s.taken| ==> s.taken[i].1.thread == ANY || s.taken[i].1.thread == s.taken[i].0
  }

  ghost predicate Inv(s: State) {
    Core(s) && OwnedInv(s) && CountInv(s) && IdleInv(s) && DrainInv(s) && LogInv(s) && PinInv(s)
  }

  lemma MultisetWithout(q: seq<Entry>, i: nat)
    requires i < |q|
    ensures multiset(q) == multiset(Without(q, i)) + multiset{q[i]}
  {
    assert q == q[..i] + [q[i]] + q[i + 1..];
  }

  lemma LogPush(s: State, task: Task, thread: Tid)
    requires LogInv(s)
    ensures LogInv(Push(s, task, thread))
  {
  }

  lemma LogTake(s: State, w: Tid, i: nat)
    requires LogInv(s) && i < |s.queue|
    ensures LogInv(s.(queue := Without(s.queue, i), taken := s.taken + [(w, s.queue[i])]))
  {
    MultisetWithout(s.queue, i);
    assert Entries(s.taken + [(w, s.queue[i])]) == Entries(s.taken) + [s.queue[i]];
  }

  lemma LogKept(s: State, st: Step)
    requires Possible(s, st) && LogInv(s)
    ensures LogInv(Next(s, st))
  {
    hide Without, FirstEligible, Entries;
    var n := Next(s, st);
    match st
    case Schedule(task, thread, _) => LogPush(s, task, thread);
    case PushBack(w) => LogPush(s, FiberTask(s.workers[w].phase.f), ANY);
    case Pick(w) =>
      var i := FirstEligible(s.queue, w, s.fibers);
      if i < |s.queue| { LogTake(s, w, i); }
    case _ => assert n.log == s.log && n.queue == s.queue && n.taken == s.taken;
  }

  lemma PinKept(s: State, st: Step)
    requires Possible(s, st) && PinInv(s)
    ensures PinInv(Next(s, st))
  {
  }

  lemma InvInitial(s: State)
    requires Initial(s)
    ensures Inv(s)
  {
    forall w | w in s.workers ensures !Busy(s.workers[w].phase) && !Committed(s.workers[w]) {}
    assert BusySet(s.workers) == {};
  }

  lemma InvKept(s: State, st: Step)
    requires Enabled(s, st) && Inv(s)
    ensures Inv(Next(s, st))
  {
    hide Core, OwnedInv, CountInv, IdleInv, DrainInv, LogInv, PinInv, Next, Possible, WokenOnce, InTime;
    CoreKept(s, st);
    OwnedKept(s, st);
    CountKept(s, st);
    IdleKept(s, st);
    DrainKept(s, st);
    LogKept(s, st);
    PinKept(s, st);
  }

  /** A run: an initial state and one enabled step after another. */
  ghost predicate IsRun(states: seq<State>, steps: seq<Step>) {
    && |states| == |steps| + 1 && Initial(states[0])
    && forall i :: 0 <= i < |steps| ==> Enabled(states[i], steps[i]) && states[i + 1] == Next(states[i], steps[i])
  }

  /** Every state of every run satisfies every invariant. */
  lemma {:induction false} RunInv(states: seq<State>, steps: seq<Step>, i: nat)
    requires IsRun(states, steps) && i < |states|
    ensures Inv(states[i])
  {
    hide Inv, Initial, Next;
    if i == 0 {
      InvInitial(states[0]);
    } else {
      RunInv(states, steps, i - 1);
      assert states[i] == Next(states[i - 1], steps[i - 1]);
      InvKept(states[i - 1], steps[i - 1]);
    }
  }

  // ---------- what it means ----------

  /** In every state of every run: no assert of the scheduler or of Fiber fails at the next step,
      a fiber executes on at most one worker and only there, and the active count is the number
      of workers between a pick and its decrement. */
  lemma {:induction false} RunSafe(states: seq<State>, steps: seq<Step>, i: nat)
    requires IsRun(states, steps) && i < |states|
    ensures var s := states[i];
            && (forall w :: w in s.workers && s.workers[w].phase.Picked? ==> ResumeAssertsHold(s, w))
            && (forall w :: w in s.workers && s.workers[w].phase.Empty? ==> s.workers[w].idle != Exec)
            && (forall v, w, f: Fid :: ExecutesOn(s, v, f) && ExecutesOn(s, w, f) ==> v == w)
            && (forall f :: f in s.fibers ==> (s.fibers[f] == Exec <==> exists w :: ExecutesOn(s, w, f)))
            && s.active == |set w | w in s.workers && Busy(s.workers[w].phase)|
  {
    var s := states[i];
    RunInv(states, steps, i);
    assert BusySet(s.workers) == set w | w in s.workers && Busy(s.workers[w].phase);
    forall w | w in s.workers && s.workers[w].phase.Picked?
      ensures ResumeAssertsHold(s, w)
    {
    }
    forall f | f in s.fibers && s.fibers[f] == Exec
      ensures exists w :: ExecutesOn(s, w, f)
    {
      var w :| w in s.workers && RunOf(s.workers[w].phase) == Some(f);
      assert ExecutesOn(s, w, f);
    }
  }

  predicate ExecutesOn(s: State, w: Tid, f: Fid) {
    w in s.workers && RunOf(s.workers[w].phase) == Some(f)
  }

  /** swapIn's `m_state != EXEC` for the fiber to enter, and reset's `TERM, EXCEPT or INIT` for
      the cached cb_fiber. */
  predicate ResumeAssertsHold(s: State, w: Tid)
    requires w in s.workers && s.workers[w].phase.Picked?
  {
    var k := s.workers[w];
    match k.phase.e.task
    case FiberTask(f) => f in s.fibers && s.fibers[f] != Exec
    case CbTask(_) => k.cbFiber.Some? ==>
      k.cbFiber.value in s.fibers && s.fibers[k.cbFiber.value] in {Term, Except, Init}
  }

  lemma IdleEnds(s: State, st: Step, w: Tid)
    requires Possible(s, st) && w in s.workers && s.workers[w].idle != Term
    requires w in Next(s, st).workers && Next(s, st).workers[w].idle == Term
    ensures st == IdleCheck(w) && Stopping(s)
  {
    hide FirstEligible, Without;
  }

  /** A worker whose idle fiber has ended saw stopping() pass in it. */
  lemma {:induction false} LeftAfterStop(states: seq<State>, steps: seq<Step>, i: nat, w: Tid)
    requires IsRun(states, steps) && i < |states|
    requires w in states[i].workers && states[i].workers[w].idle == Term
    ensures exists j :: 0 <= j < i && steps[j] == IdleCheck(w) && Stopping(states[j])
  {
    hide Next, Stopping;
    if i > 0 {
      var s, st := states[i - 1], steps[i - 1];
      assert Enabled(s, st) && states[i] == Next(s, st);
      KeysKept(s, st);
      if s.workers[w].idle == Term {
        LeftAfterStop(states, steps, i - 1, w);
      } else {
        IdleEnds(s, st, w);
      }
    }
  }

  lemma LeavesEmpty(s: State, st: Step, w: Tid)
    requires Possible(s, st) && w in s.workers && !s.workers[w].phase.Left?
    requires w in Next(s, st).workers && Next(s, st).workers[w].phase.Left?
    ensures st == EnterIdle(w) && s.workers[w].phase.Empty? && s.workers[w].idle == Term
  {
    hide FirstEligible, Without;
  }

  /** A worker leaves run() empty-handed: right after a scan that found nothing, its idle fiber
      ended before. */
  lemma {:induction false} LeftEmptyHanded(states: seq<State>, steps: seq<Step>, i: nat, w: Tid)
    requires IsRun(states, steps) && i < |states|
    requires w in states[i].workers && states[i].workers[w].phase.Left?
    ensures exists j :: && 0 <= j < i && steps[j] == EnterIdle(w) && w in states[j].workers
                        && states[j].workers[w].phase.Empty? && states[j].workers[w].idle == Term
  {
    hide Next, Possible, WokenOnce, InTime;
    if i > 0 {
      var s, st := states[i - 1], steps[i - 1];
      assert Enabled(s, st) && states[i] == Next(s, st);
      KeysKept(s, st);
      if s.workers[w].phase.Left? {
        LeftEmptyHanded(states, steps, i - 1, w);
      } else {
        LeavesEmpty(s, st, w);
      }
    }
  }

  lemma {:induction false} SameWorkers(states: seq<State>, steps: seq<Step>, j: nat, i: nat)
    requires IsRun(states, steps) && j <= i < |states|
    ensures states[i].workers.Keys == states[j].workers.Keys
    decreases i
  {
    hide Next, Possible, WokenOnce, InTime, Initial;
    if j < i {
      SameWorkers(states, steps, j, i - 1);
      assert Enabled(states[i - 1], steps[i - 1]) && states[i] == Next(states[i - 1], steps[i - 1]);
      KeysKept(states[i - 1], steps[i - 1]);
    }
  }

  lemma KeysKept(s: State, st: Step)
    requires Enabled(s, st)
    ensures Next(s, st).workers.Keys == s.workers.Keys
  {
    hide FirstEligible, Without;
  }

  /** Steps that a worker takes while it is not on its way out. */
  predicate Acting(st: Step) {
    match st
    case Spawn(_) => false
    case Stop => false
    case EnterIdle(_) => false
    case Schedule(_, _, caller) => caller.Some?
    case _ => true
  }

  lemma ActingStays(s: State, st: Step)
    requires Possible(s, st) && Acting(st)
    ensures !AllCommitted(s)
  {
    if st.Schedule? { NotLeaving(s, st.caller.value); } else { NotLeaving(s, st.w); }
  }

  /** The obligation on outside callers is exact: once every worker is on its way out, nothing is
      ever picked again, whatever happens. */
  lemma {:induction false} TooLate(s: State, st: Step)
    requires Possible(s, st) && AllCommitted(s)
    ensures var n := Next(s, st);
            AllCommitted(n) && n.taken == s.taken && |n.queue| >= |s.queue| && n.queue[..|s.queue|] == s.queue
  {
    if Acting(st) { ActingStays(s, st); }
  }

  /** A pick takes the first entry the worker may run and keeps the rest in order, so nothing
      ever gets ahead of a queued entry. */
  lemma {:induction false} NeverOvertaken(s: State, st: Step, i: nat)
    requires Possible(s, st) && i < |s.queue|
    ensures var n := Next(s, st);
            || (exists j :: 0 <= j <= i && j < |n.queue| && n.queue[j] == s.queue[i])
            || (st.Pick? && n.taken == s.taken + [(st.w, s.queue[i])] &&
                forall j :: 0 <= j < i ==> !Eligible(s.queue[j], st.w, s.fibers))
  {
    var n := Next(s, st);
    if st.Pick? && FirstEligible(s.queue, st.w, s.fibers) < i {
      assert n.queue[i - 1] == s.queue[i];
    } else if !(st.Pick? && FirstEligible(s.queue, st.w, s.fibers) == i) {
      assert n.queue[i] == s.queue[i];
    }
  }

  /** With one worker and no pins the scheduler is strictly first in, first out. */
  lemma {:induction false} OneWorkerFifo(states: seq<State>, steps: seq<Step>, i: nat, w: Tid)
    requires IsRun(states, steps) && i < |states| && states[0].workers.Keys == {w}
    requires forall k :: 0 <= k < |states[i].log| ==> states[i].log[k].thread == ANY
    ensures states[i].log == Entries(states[i].taken) + states[i].queue
  {
    if i > 0 {
      var s, st, n := states[i - 1], steps[i - 1], states[i];
      assert Enabled(s, st) && n == Next(s, st);
      assert s.log <= n.log;
      assert forall k :: 0 <= k < |s.log| ==> s.log[k] == n.log[k];
      OneWorkerFifo(states, steps, i - 1, w);
      RunInv(states, steps, i - 1);
      OneWorker(states, steps, i - 1, w);
      if st.Pick? { PickHead(s, w); }
    }
  }

  lemma OneWorker(states: seq<State>, steps: seq<Step>, i: nat, w: Tid)
    requires IsRun(states, steps) && i < |states| && states[0].workers.Keys == {w}
    ensures states[i].workers.Keys == {w}
  {
    SameWorkers(states, steps, 0, i);
  }

  lemma PickHead(s: State, w: Tid)
    requires OwnedInv(s) && s.workers.Keys == {w} && s.workers[w].phase.Loop?
    requires s.log == Entries(s.taken) + s.queue && forall k :: 0 <= k < |s.log| ==> s.log[k].thread == ANY
    ensures var n := NextPick(s, w); n.log == Entries(n.taken) + n.queue
  {
    hide OwnedInv, FirstEligible, Entries, Without;
    var n := NextPick(s, w);
    if s.queue != [] {
      HeadEligible(s, w);
      TakeHead(s.log, s.taken, s.queue, w);
    } else {
      assert n.queue == s.queue && n.taken == s.taken;
    }
  }

  lemma TakeHead(log: seq<Entry>, taken: seq<(Tid, Entry)>, q: seq<Entry>, w: Tid)
    requires log == Entries(taken) + q && q != []
    ensures log == Entries(taken + [(w, q[0])]) + Without(q, 0)
  {
    hide Entries;
    assert Without(q, 0) == q[1..];
    EntriesSnoc(taken, (w, q[0]));
    MoveHead(Entries(taken), q);
  }

  lemma EntriesSnoc(taken: seq<(Tid, Entry)>, x: (Tid, Entry))
    ensures Entries(taken + [x]) == Entries(taken) + [x.1]
  {
  }

  lemma MoveHead(a: seq<Entry>, q: seq<Entry>)
    requires q != []
    ensures a + q == (a + [q[0]]) + q[1..]
  {
  }

  lemma HeadEligible(s: State, w: Tid)
    requires OwnedInv(s) && s.workers.Keys == {w} && s.workers[w].phase.Loop?
    requires s.queue != [] && s.log == Entries(s.taken) + s.queue
    requires forall k :: 0 <= k < |s.log| ==> s.log[k].thread == ANY
    ensures FirstEligible(s.queue, w, s.fibers) == 0
  {
    var e := s.queue[0];
    assert s.log[|s.taken|] == e;
    assert Eligible(e, w, s.fibers);
  }

  /** Two wake-ups for one suspension break swapIn's assert: two workers pick the same fiber,
      the first enters it, and the second finds it executing. */
  lemma DoubleWakeBreaks(s: State, v: Tid, w: Tid, f: Fid, spare: Fid)
    requires Possible(s, Pick(v)) && Possible(s, Pick(w)) && v != w && spare !in s.fibers
    requires f in s.fibers && s.fibers[f] != Exec && Runnable(s.fibers[f])
    requires |s.queue| >= 2 && s.queue[0].task == s.queue[1].task == FiberTask(f)
    requires s.queue[0].thread == s.queue[1].thread == ANY
    ensures var s1 := Next(s, Pick(v));
            && Possible(s1, Pick(w))
            && var s2 := Next(s1, Pick(w));
            && Possible(s2, Resume(v, spare))
            && var s3 := Next(s2, Resume(v, spare));
            && w in s3.workers && s3.workers[w].phase.Picked? && !ResumeAssertsHold(s3, w)
  {
    assert FirstEligible(s.queue, v, s.fibers) == 0;
    var s1 := Next(s, Pick(v));
    assert s1.queue[0] == s.queue[1];
    assert FirstEligible(s1.queue, w, s1.fibers) == 0;
    var s2 := Next(s1, Pick(w));
    assert s2.workers[v].phase == Picked(s.queue[0]) && s2.workers[w].phase == Picked(s.queue[1]);
  }
}
