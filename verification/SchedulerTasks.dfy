/** The fate of every scheduled task over whole runs: it is acted on once, and then it runs. */
module SchedulerTasks {
  import opened Options
  import opened Scheduler
  import opened SchedulerSafety
  import opened SchedulerRuns
  import opened SchedulerHistory

  /** Serial numbers in the queue ascend, and an entry in a worker's hands is in no one else's and
      not in the queue. */
  ghost predicate HeldInv(s: State) {
    && (forall a, b :: 0 <= a < b < |s.queue| ==> s.queue[a].ticket < s.queue[b].ticket)
    && (forall a :: 0 <= a < |s.queue| ==> s.queue[a].ticket < |s.log|)
    && (forall w :: w in s.workers && s.workers[w].phase.Picked? ==> Apart(s, s.workers[w].phase.e))
    && (forall v, w :: v in s.workers && w in s.workers && v != w ==> !SameInHand(s.workers[v], s.workers[w]))
  }

  predicate SameInHand(k: Worker, l: Worker) {
    k.phase.Picked? && l.phase.Picked? && k.phase.e.ticket == l.phase.e.ticket
  }

  /** The entry was scheduled and is not in the queue. */
  ghost predicate Apart(s: State, e: Entry) {
    e.ticket < |s.log| && forall a :: 0 <= a < |s.queue| ==> s.queue[a].ticket != e.ticket
  }

  /** The entry is in the queue no more, and in no worker's hands. */
  ghost predicate Spent(s: State, e: Entry) {
    && Apart(s, e)
    && forall w :: w in s.workers && s.workers[w].phase.Picked? ==> s.workers[w].phase.e.ticket != e.ticket
  }

  lemma HeldTake(s: State, n: State, w: Tid, i: nat)
    requires HeldInv(s) && i < |s.queue| && w in s.workers && n.queue == Without(s.queue, i) && n.log == s.log
    requires w in n.workers && n.workers == s.workers[w := n.workers[w]] && n.workers[w].phase == Picked(s.queue[i])
    ensures HeldInv(n)
  {
  }

  lemma HeldPick(s: State, w: Tid)
    requires HeldInv(s) && w in s.workers
    ensures HeldInv(NextPick(s, w))
  {
    hide FirstEligible, Without, HeldInv;
    var n, i := NextPick(s, w), FirstEligible(s.queue, w, s.fibers);
    if i == |s.queue| { HeldPut(s, n, w); } else { HeldTake(s, n, w, i); }
  }

  lemma HeldPush(s: State, task: Task, thread: Tid)
    requires HeldInv(s)
    ensures HeldInv(Push(s, task, thread))
  {
  }

  /** A worker that ends up with empty hands disturbs nobody. */
  lemma HeldPut(s: State, n: State, w: Tid)
    requires HeldInv(s) && n.queue == s.queue && n.log == s.log
    requires w in n.workers && !n.workers[w].phase.Picked? && n.workers == s.workers[w := n.workers[w]]
    ensures HeldInv(n)
  {
  }

  lemma HeldSame(s: State, n: State)
    requires HeldInv(s) && n.queue == s.queue && n.log == s.log && n.workers == s.workers
    ensures HeldInv(n)
  {
  }

  lemma HeldKept(s: State, st: Step)
    requires Possible(s, st) && HeldInv(s)
    ensures HeldInv(Next(s, st))
  {
    hide FirstEligible, Without, HeldInv;
    var n := Next(s, st);
    if st.Pick? {
      HeldPick(s, st.w);
    } else if st.Schedule? {
      HeldPush(s, st.task, st.thread);
    } else if st.PushBack? {
      HeldPush(s, FiberTask(s.workers[st.w].phase.f), ANY);
      HeldPut(Push(s, FiberTask(s.workers[st.w].phase.f), ANY), n, st.w);
    } else if st.Spawn? || st.Stop? {
      HeldSame(s, n);
    } else {
      HeldPut(s, n, st.w);
    }
  }

  lemma SpentKept(s: State, st: Step, e: Entry)
    requires Possible(s, st) && HeldInv(s) && Spent(s, e)
    ensures Spent(Next(s, st), e)
  {
    hide FirstEligible;
  }

  lemma HeldInitial(s: State)
    requires Initial(s)
    ensures HeldInv(s)
  {
  }

  lemma {:induction false} RunHeld(states: seq<State>, steps: seq<Step>, i: nat)
    requires IsRun(states, steps) && i < |states|
    ensures HeldInv(states[i])
  {
    hide HeldInv, Next, Initial;
    if i == 0 {
      HeldInitial(states[0]);
    } else {
      RunHeld(states, steps, i - 1);
      assert Enabled(states[i - 1], steps[i - 1]) && states[i] == Next(states[i - 1], steps[i - 1]);
      HeldKept(states[i - 1], steps[i - 1]);
    }
  }

  /** Step `j` is the one in which the worker that picked the entry acts on it. */
  ghost predicate Handles(states: seq<State>, steps: seq<Step>, j: nat, e: Entry) {
    && j < |steps| && j < |states| && steps[j].Resume?
    && steps[j].w in states[j].workers && states[j].workers[steps[j].w].phase == Picked(e)
  }

  /** An entry is acted on once: afterwards it is spent for good. */
  lemma {:induction false} SpentAfter(states: seq<State>, steps: seq<Step>, j: nat, i: nat, e: Entry)
    requires IsRun(states, steps) && Handles(states, steps, j, e) && j < i < |states|
    ensures Spent(states[i], e)
    decreases i
  {
    hide Next;
    var s, st := states[i - 1], steps[i - 1];
    assert Enabled(s, st) && states[i] == Next(s, st);
    RunHeld(states, steps, i - 1);
    if j == i - 1 {
      HandledSpent(s, st, e);
    } else {
      SpentAfter(states, steps, j, i - 1, e);
      SpentKept(s, st, e);
    }
  }

  lemma HandledSpent(s: State, st: Step, e: Entry)
    requires Possible(s, st) && HeldInv(s) && st.Resume? && s.workers[st.w].phase == Picked(e)
    ensures Spent(Next(s, st), e)
  {
  }

  /** An entry that was picked is in a worker's hands or was acted on. */
  lemma {:induction false} TakenHandled(states: seq<State>, steps: seq<Step>, i: nat, x: nat)
    requires IsRun(states, steps) && i < |states| && x < |states[i].taken|
    ensures var (w, e) := states[i].taken[x];
            || (w in states[i].workers && states[i].workers[w].phase == Picked(e))
            || (exists j :: 0 <= j < i && Handles(states, steps, j, e) && steps[j].w == w)
    decreases i
  {
    hide Next, Possible, WokenOnce, InTime;
    if i > 0 {
      var s, st := states[i - 1], steps[i - 1];
      assert Enabled(s, st) && states[i] == Next(s, st);
      TakenStep(s, st, x);
      if x < |s.taken| { TakenHandled(states, steps, i - 1, x); }
    }
  }

  /** A pick puts the entry into the worker's hands, and it stays there until the worker acts on it. */
  lemma TakenStep(s: State, st: Step, x: nat)
    requires Possible(s, st) && x < |Next(s, st).taken|
    ensures var (w, e) := Next(s, st).taken[x];
            if x < |s.taken|
            then s.taken[x] == (w, e) &&
                 (w in s.workers && s.workers[w].phase == Picked(e) ==>
                    || (w in Next(s, st).workers && Next(s, st).workers[w].phase == Picked(e))
                    || (st.Resume? && st.w == w))
            else w in Next(s, st).workers && Next(s, st).workers[w].phase == Picked(e)
  {
    hide FirstEligible, Without;
  }

  /** The fiber `w` entered at step `j` runs there until a step in which it yields or finishes. */
  ghost predicate RanUntil(states: seq<State>, steps: seq<Step>, j: nat, k: nat, w: Tid, f: Fid, cb: bool) {
    && j <= k < |steps| && k < |states|
    && (forall m :: j <= m <= k ==> w in states[m].workers && states[m].workers[w].phase == Running(f, cb))
    && LetsOut(steps[k], w)
  }

  lemma {:induction false} RunsUntilItYields(states: seq<State>, steps: seq<Step>, j: nat, i: nat,
                                             w: Tid, f: Fid, cb: bool)
    requires IsRun(states, steps) && j <= i < |states|
    requires w in states[j].workers && states[j].workers[w].phase == Running(f, cb)
    requires w in states[i].workers && !states[i].workers[w].phase.Running?
    ensures exists k :: 0 <= k < i && RanUntil(states, steps, j, k, w, f, cb)
    decreases i - j
  {
    hide Next;
    var s, st := states[j], steps[j];
    assert Enabled(s, st) && states[j + 1] == Next(s, st);
    StaysInside(s, st, w);
    if states[j + 1].workers[w].phase == Running(f, cb) {
      RunsUntilItYields(states, steps, j + 1, i, w, f, cb);
      var k :| 0 <= k < i && RanUntil(states, steps, j + 1, k, w, f, cb);
      assert RanUntil(states, steps, j, k, w, f, cb);
    } else {
      assert RanUntil(states, steps, j, j, w, f, cb);
    }
  }

  ghost predicate RanFrom(states: seq<State>, steps: seq<Step>, from: nat, w: Tid, task: Task) {
    exists k: nat, f: Fid :: && RanUntil(states, steps, from, k, w, f, task.CbTask?)
                             && (task.FiberTask? ==> f == task.f)
  }

  /** What acting on an entry came to: its fiber, or a callback fiber, was entered and ran until it
      parked, asked to be queued again or finished; or its fiber had finished in an earlier step. */
  ghost predicate Ran(states: seq<State>, steps: seq<Step>, j: nat, e: Entry)
    requires Handles(states, steps, j, e)
  {
    || (e.task.FiberTask? && Finished(states, steps, j, e.task.f))
    || RanFrom(states, steps, j + 1, steps[j].w, e.task)
  }

  lemma HandledRan(states: seq<State>, steps: seq<Step>, j: nat, i: nat, e: Entry)
    requires IsRun(states, steps) && Handles(states, steps, j, e) && j < i < |states|
    requires forall w :: w in states[i].workers ==> states[i].workers[w].phase.Left?
    ensures Ran(states, steps, j, e)
  {
    var s, st, w := states[j], steps[j], steps[j].w;
    assert Enabled(s, st) && states[j + 1] == Next(s, st);
    RunSafe(states, steps, j);
    assert ResumeAssertsHold(s, w);
    SameWorkers(states, steps, j + 1, i);
    if e.task.FiberTask? && !Runnable(s.fibers[e.task.f]) { EndedExact(states, steps, j, e.task.f); }
    if states[j + 1].workers[w].phase.Running? {
      var f := states[j + 1].workers[w].phase.f;
      RunsUntilItYields(states, steps, j + 1, i, w, f, e.task.CbTask?);
      var k :| 0 <= k < i && RanUntil(states, steps, j + 1, k, w, f, e.task.CbTask?);
    }
  }

  /** When all workers are gone, every unpinned task that was ever scheduled was acted on in exactly
      one step: it was entered and ran until it parked, yielded or finished, or its fiber had ended. */
  lemma {:induction false} AllRunAtEnd(states: seq<State>, steps: seq<Step>, i: nat, t: nat)
    requires IsRun(states, steps) && i < |states|
    requires forall w :: w in states[i].workers ==> states[i].workers[w].phase.Left?
    requires t < |states[i].log| && states[i].log[t].thread == ANY
    ensures var e := states[i].log[t];
            exists j :: && 0 <= j < i && Handles(states, steps, j, e) && Ran(states, steps, j, e)
                        && forall j' :: 0 <= j' < i && Handles(states, steps, j', e) ==> j' == j
  {
    var s := states[i];
    var e := s.log[t];
    TakenOnce(states, steps, i, t);
    var x :| 0 <= x < |s.taken| && s.taken[x].1 == e;
    TakenHandled(states, steps, i, x);
    var j :| 0 <= j < i && Handles(states, steps, j, e);
    HandledRan(states, steps, j, i, e);
    forall j' | 0 <= j' < i && Handles(states, steps, j', e) ensures j' == j {
      if j < j' { SpentAfter(states, steps, j, j', e); }
      if j' < j { SpentAfter(states, steps, j', j, e); }
    }
  }

  /** When all workers are gone, every unpinned task was handed to a worker exactly once. */
  lemma {:induction false} TakenOnce(states: seq<State>, steps: seq<Step>, i: nat, k: nat)
    requires IsRun(states, steps) && i < |states|
    requires forall w :: w in states[i].workers ==> states[i].workers[w].phase.Left?
    requires k < |states[i].log| && states[i].log[k].thread == ANY
    ensures multiset(Entries(states[i].taken))[states[i].log[k]] == 1
    ensures exists x :: 0 <= x < |states[i].taken| && states[i].taken[x].1 == states[i].log[k]
  {
    var s := states[i];
    RunInv(states, steps, i);
    var e := s.log[k];
    assert AllCommitted(s);
    assert e !in s.queue;
    assert multiset(s.queue)[e] == 0;
    OnceInLog(s.log, k);
    assert e in Entries(s.taken);
  }

  lemma {:induction false} OnceInLog(log: seq<Entry>, k: nat)
    requires k < |log| && forall i :: 0 <= i < |log| ==> log[i].ticket == i
    ensures multiset(log)[log[k]] == 1
  {
    assert log == log[..k] + [log[k]] + log[k + 1..];
    assert log[k] !in log[..k] && log[k] !in log[k + 1..];
    assert multiset(log[..k])[log[k]] == 0 && multiset(log[k + 1..])[log[k]] == 0;
  }
}
