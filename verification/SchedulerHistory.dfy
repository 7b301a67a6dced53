/** What the steps of a run say about its states: the state of every fiber, what a pick takes, what
    is queued, and when a worker leaves. */
module SchedulerHistory {
  import opened Options
  import opened Scheduler
  import opened SchedulerSafety
  import opened SchedulerRuns

  ghost predicate Executes(s: State, f: Fid) {
    exists w :: ExecutesOn(s, w, f)
  }

  predicate LetsOut(st: Step, w: Tid) {
    st == YieldHold(w) || st == YieldReady(w) || st == Finish(w, true) || st == Finish(w, false)
  }

  lemma StaysInside(s: State, st: Step, w: Tid)
    requires Possible(s, st) && RunningOn(s, w)
    ensures w in Next(s, st).workers && (Next(s, st).workers[w].phase == s.workers[w].phase || LetsOut(st, w))
  {
    hide FirstEligible, Without;
  }

  // ---------- the state of a fiber ----------

  /** What leaving it by this step makes of a fiber: HOLD or READY when it yields, TERM or EXCEPT when
      it ends, and INIT when it is a worker's own callback fiber and is reset. */
  predicate LeftAs(st: Step, w: Tid, cb: bool, f: FState) {
    || (st == YieldHold(w) && f == Hold)
    || (st == YieldReady(w) && f == Ready)
    || (st == Finish(w, true) && f == (if cb then Init else Term))
    || (st == Finish(w, false) && f == (if cb then Init else Except))
  }

  lemma FiberRuns(s: State, f: Fid)
    requires Core(s) && Executes(s, f)
    ensures f in s.fibers && s.fibers[f] == Exec
  {
    hide WakeInv, CacheInv;
    var w :| ExecutesOn(s, w, f);
    assert Executing(s, s.workers[w].phase.f);
  }

  lemma FiberRests(s: State, st: Step, f: Fid)
    requires Possible(s, st) && f in Next(s, st).fibers && !Executes(s, f) && !Executes(Next(s, st), f)
    ensures Next(s, st).fibers[f] == if f in s.fibers then s.fibers[f] else Init
  {
    hide FirstEligible, Without;
    var n := Next(s, st);
    if st.YieldHold? || st.YieldReady? || st.Finish? {
      assert ExecutesOn(s, st.w, s.workers[st.w].phase.f);
    } else if st.Resume? && n.workers[st.w].phase.Running? {
      assert ExecutesOn(n, st.w, n.workers[st.w].phase.f);
    }
  }

  lemma FiberLeaves(s: State, st: Step, f: Fid)
    requires Possible(s, st) && Executes(s, f) && f in Next(s, st).fibers && !Executes(Next(s, st), f)
    ensures LeavesBy(s, st, f, Next(s, st).fibers[f])
  {
    hide FirstEligible, Without;
    var n := Next(s, st);
    var w :| ExecutesOn(s, w, f);
    StaysInside(s, st, w);
    assert n.workers[w].phase == s.workers[w].phase ==> ExecutesOn(n, w, f);
    assert LeftAs(st, w, s.workers[w].phase.cb, n.fibers[f]);
  }

  ghost predicate LeavesBy(s: State, st: Step, f: Fid, x: FState) {
    exists w :: w in s.workers && RunOf(s.workers[w].phase) == Some(f) && LeftAs(st, w, s.workers[w].phase.cb, x)
  }

  /** The fiber left its worker in step `j` and has not executed since. */
  ghost predicate Exited(states: seq<State>, steps: seq<Step>, j: nat, i: nat, w: Tid, f: Fid, cb: bool) {
    && j < i < |states| && j < |steps| && w in states[j].workers && states[j].workers[w].phase == Running(f, cb)
    && forall m :: j < m <= i ==> !Executes(states[m], f)
  }

  /** The fiber's last step was one that leaves it in this state. */
  ghost predicate LastLeft(states: seq<State>, steps: seq<Step>, i: nat, f: Fid, x: FState) {
    exists j: nat, w, cb :: Exited(states, steps, j, i, w, f, cb) && LeftAs(steps[j], w, cb, x)
  }

  ghost predicate NeverEntered(states: seq<State>, i: nat, f: Fid) {
    forall m :: 0 <= m <= i && m < |states| ==> !Executes(states[m], f)
  }

  /** What the run says of the fiber's state. */
  ghost predicate Told(states: seq<State>, steps: seq<Step>, i: nat, f: Fid, x: FState)
    requires i < |states|
  {
    if x == Exec then Executes(states[i], f)
    else LastLeft(states, steps, i, f, x) || (x == Init && NeverEntered(states, i, f))
  }

  lemma {:induction false} FiberTold(states: seq<State>, steps: seq<Step>, i: nat, f: Fid)
    requires IsRun(states, steps) && i < |states|
    ensures f in states[i].fibers ==> Told(states, steps, i, f, states[i].fibers[f])
    ensures f !in states[i].fibers ==> NeverEntered(states, i, f)
    decreases i
  {
    hide Next, Core, OwnedInv, CountInv, IdleInv, DrainInv, LogInv, PinInv, LeftAs, Executes;
    RunInv(states, steps, i);
    if Executes(states[i], f) { FiberRuns(states[i], f); }
    if i == 0 {
      Fresh(states[0], f);
    } else {
      var s, st, n := states[i - 1], steps[i - 1], states[i];
      assert Enabled(s, st) && n == Next(s, st);
      RunInv(states, steps, i - 1);
      FiberTold(states, steps, i - 1, f);
      FibersStay(s, st);
      if Executes(s, f) { FiberRuns(s, f); }
      if f in n.fibers && !Executes(n, f) {
        if Executes(s, f) {
          FiberLeaves(s, st, f);
          JustLeft(states, steps, i, f);
        } else {
          FiberRests(s, st, f);
          if f in s.fibers { StillTold(states, steps, i, f, s.fibers[f]); }
        }
      }
    }
  }

  lemma Fresh(s: State, f: Fid)
    requires Initial(s)
    ensures !Executes(s, f) && (f in s.fibers ==> s.fibers[f] == Init)
  {
    forall w | w in s.workers ensures !ExecutesOn(s, w, f) { }
  }

  /** A fiber comes to exist by being created, or by being entered for a callback; none disappears. */
  lemma FibersStay(s: State, st: Step)
    requires Possible(s, st) && Core(s)
    ensures forall f: Fid :: f in Next(s, st).fibers <==>
              f in s.fibers || st == Spawn(f) || (st.Resume? && ExecutesOn(Next(s, st), st.w, f))
  {
    hide FirstEligible, Without, WakeInv, CacheInv;
  }

  lemma JustLeft(states: seq<State>, steps: seq<Step>, i: nat, f: Fid)
    requires 0 < i < |states| && i - 1 < |steps| && f in states[i].fibers && !Executes(states[i], f)
    requires LeavesBy(states[i - 1], steps[i - 1], f, states[i].fibers[f])
    ensures LastLeft(states, steps, i, f, states[i].fibers[f]) && states[i].fibers[f] != Exec
  {
    var s := states[i - 1];
    var w :| w in s.workers && RunOf(s.workers[w].phase) == Some(f) &&
             LeftAs(steps[i - 1], w, s.workers[w].phase.cb, states[i].fibers[f]);
    assert Exited(states, steps, i - 1, i, w, f, s.workers[w].phase.cb);
  }

  lemma StillTold(states: seq<State>, steps: seq<Step>, i: nat, f: Fid, x: FState)
    requires 0 < i < |states| && !Executes(states[i], f) && x != Exec && Told(states, steps, i - 1, f, x)
    ensures Told(states, steps, i, f, x)
  {
    hide LeftAs;
    if LastLeft(states, steps, i - 1, f, x) {
      var j: nat, w, cb :| Exited(states, steps, j, i - 1, w, f, cb) && LeftAs(steps[j], w, cb, x);
      assert Exited(states, steps, j, i, w, f, cb);
    }
  }

  lemma ExitOnce(states: seq<State>, steps: seq<Step>, i: nat, f: Fid,
                 j: nat, w: Tid, cb: bool, j': nat, w': Tid, cb': bool)
    requires Exited(states, steps, j, i, w, f, cb) && Exited(states, steps, j', i, w', f, cb')
    ensures j == j'
  {
    assert ExecutesOn(states[j], w, f) && ExecutesOn(states[j'], w', f);
  }

  lemma LastOnce(states: seq<State>, steps: seq<Step>, i: nat, f: Fid, x: FState, y: FState)
    requires LastLeft(states, steps, i, f, x)
    ensures LastLeft(states, steps, i, f, y) ==> x == y
    ensures i < |states| && !Executes(states[i], f) && !NeverEntered(states, i, f)
  {
    var j: nat, w, cb :| Exited(states, steps, j, i, w, f, cb) && LeftAs(steps[j], w, cb, x);
    assert ExecutesOn(states[j], w, f);
    if LastLeft(states, steps, i, f, y) {
      var j': nat, w', cb' :| Exited(states, steps, j', i, w', f, cb') && LeftAs(steps[j'], w', cb', y);
      ExitOnce(states, steps, i, f, j, w, cb, j', w', cb');
    }
  }

  /** In every state of every run a fiber executes exactly when its state is EXEC; otherwise its state
      is what its last step made of it, and INIT when it was never entered. So the state machine of
      Fiber is exact: a fiber is in HOLD exactly when it last left by YieldToHold, and so on. */
  lemma FiberExact(states: seq<State>, steps: seq<Step>, i: nat, f: Fid)
    requires IsRun(states, steps) && i < |states| && f in states[i].fibers
    ensures var x := states[i].fibers[f];
            && (x == Exec <==> Executes(states[i], f))
            && (x == Hold <==> LastLeft(states, steps, i, f, Hold))
            && (x == Ready <==> LastLeft(states, steps, i, f, Ready))
            && (x == Term <==> LastLeft(states, steps, i, f, Term))
            && (x == Except <==> LastLeft(states, steps, i, f, Except))
            && (x == Init <==> LastLeft(states, steps, i, f, Init) || NeverEntered(states, i, f))
  {
    hide LastLeft, NeverEntered, IsRun;
    FiberTold(states, steps, i, f);
    var x := states[i].fibers[f];
    forall y | LastLeft(states, steps, i, f, y) ensures x == y && !Executes(states[i], f) {
      LastOnce(states, steps, i, f, y, x);
    }
    if NeverEntered(states, i, f) { EnteredNever(states, steps, i, f, x); }
  }

  lemma EnteredNever(states: seq<State>, steps: seq<Step>, i: nat, f: Fid, x: FState)
    requires i < |states| && NeverEntered(states, i, f)
    ensures !LastLeft(states, steps, i, f, x) && !Executes(states[i], f)
  {
    if LastLeft(states, steps, i, f, x) { LastOnce(states, steps, i, f, x, x); }
  }

  // ---------- finished fibers ----------

  /** Step `j` was the end of the fiber's function. */
  predicate Finishes(states: seq<State>, steps: seq<Step>, j: nat, f: Fid) {
    && j < |steps| && j < |states| && steps[j].Finish? && steps[j].w in states[j].workers
    && states[j].workers[steps[j].w].phase == Running(f, false)
  }

  ghost predicate Finished(states: seq<State>, steps: seq<Step>, i: nat, f: Fid) {
    exists j :: 0 <= j < i && Finishes(states, steps, j, f)
  }

  lemma EndedStays(s: State, st: Step, f: Fid)
    requires Possible(s, st) && Core(s) && f in s.fibers && !Runnable(s.fibers[f])
    ensures f in Next(s, st).fibers && Next(s, st).fibers[f] == s.fibers[f]
  {
    hide FirstEligible, Without, WakeInv;
  }

  /** A fiber is in TERM or EXCEPT exactly when its function has ended in an earlier step, and stays
      so: no yield ends a fiber, and nothing revives one. */
  lemma {:induction false} EndedExact(states: seq<State>, steps: seq<Step>, i: nat, f: Fid)
    requires IsRun(states, steps) && i < |states| && f in states[i].fibers
    ensures !Runnable(states[i].fibers[f]) <==> Finished(states, steps, i, f)
  {
    if !Runnable(states[i].fibers[f]) {
      FiberExact(states, steps, i, f);
      var x := states[i].fibers[f];
      var j: nat, w, cb :| Exited(states, steps, j, i, w, f, cb) && LeftAs(steps[j], w, cb, x);
      assert Finishes(states, steps, j, f);
    }
    if Finished(states, steps, i, f) {
      var j :| 0 <= j < i && Finishes(states, steps, j, f);
      StaysEnded(states, steps, j, i, f);
    }
  }

  lemma {:induction false} StaysEnded(states: seq<State>, steps: seq<Step>, j: nat, i: nat, f: Fid)
    requires IsRun(states, steps) && Finishes(states, steps, j, f) && j < i < |states|
    ensures f in states[i].fibers && !Runnable(states[i].fibers[f])
    decreases i
  {
    hide Next, Core;
    var s, st := states[i - 1], steps[i - 1];
    assert Enabled(s, st) && states[i] == Next(s, st);
    RunInv(states, steps, i - 1);
    if j == i - 1 {
      EndsFiber(s, st);
    } else {
      StaysEnded(states, steps, j, i - 1, f);
      EndedStays(s, st, f);
    }
  }

  lemma EndsFiber(s: State, st: Step)
    requires Possible(s, st) && st.Finish? && !s.workers[st.w].phase.cb
    ensures var f := s.workers[st.w].phase.f;
            f in Next(s, st).fibers && Next(s, st).fibers[f] == if st.ok then Term else Except
  {
  }

  // ---------- the queue ----------

  /** The worker may not take the entry: it is pinned to another thread, or its fiber executes. */
  ghost predicate Blocked(s: State, w: Tid, e: Entry) {
    (e.thread != -1 && e.thread != w) || (e.task.FiberTask? && Executes(s, e.task.f))
  }

  lemma EligibleExact(s: State, w: Tid, e: Entry)
    requires Core(s) && OwnedInv(s)
    ensures Eligible(e, w, s.fibers) <==> !Blocked(s, w, e)
  {
    hide WakeInv, CacheInv;
    if e.task.FiberTask? {
      var f := e.task.f;
      if Executes(s, f) { FiberRuns(s, f); }
      if f in s.fibers && s.fibers[f] == Exec {
        var v :| v in s.workers && RunOf(s.workers[v].phase) == Some(f);
        assert ExecutesOn(s, v, f);
      }
    }
  }

  /** Entry `k` is the first that the worker may take. */
  ghost predicate FirstFree(s: State, w: Tid, k: nat) {
    k < |s.queue| && !Blocked(s, w, s.queue[k]) && forall j :: 0 <= j < k ==> Blocked(s, w, s.queue[j])
  }

  /** A pick takes the first entry that is neither pinned elsewhere nor for a fiber that executes, and
      nothing exactly when there is none; the rest of the queue keeps its order. */
  lemma PickExact(states: seq<State>, steps: seq<Step>, i: nat, w: Tid)
    requires IsRun(states, steps) && i < |steps| && steps[i] == Pick(w)
    ensures w in states[i].workers && w in states[i + 1].workers
    ensures var s, n := states[i], states[i + 1];
            if forall k :: 0 <= k < |s.queue| ==> Blocked(s, w, s.queue[k])
            then n.queue == s.queue && n.taken == s.taken && n.workers[w].phase == Empty
            else exists k: nat :: && FirstFree(s, w, k)
                                  && n.queue == s.queue[..k] + s.queue[k + 1..]
                                  && n.taken == s.taken + [(w, s.queue[k])]
                                  && n.workers[w].phase == Picked(s.queue[k])
  {
    hide Core, OwnedInv, Blocked, FirstEligible;
    RunInv(states, steps, i);
    var s := states[i];
    assert Enabled(s, steps[i]) && states[i + 1] == Next(s, steps[i]);
    forall e ensures Eligible(e, w, s.fibers) <==> !Blocked(s, w, e) { EligibleExact(s, w, e); }
    var k := FirstEligible(s.queue, w, s.fibers);
    if k < |s.queue| { assert FirstFree(s, w, k); }
  }

  /** Scheduling appends exactly the task, pinned as asked; a fiber that yielded READY is appended
      unpinned; a pick only takes; no other step touches the queue. */
  lemma QueueExact(s: State, st: Step)
    requires Possible(s, st)
    ensures var n := Next(s, st);
            if st.Schedule? then Appends(s, n, st.task, st.thread)
            else if st.PushBack? then Appends(s, n, FiberTask(s.workers[st.w].phase.f), -1)
            else n.log == s.log && (!st.Pick? ==> n.queue == s.queue)
  {
    hide FirstEligible, Without;
  }

  predicate Appends(s: State, n: State, task: Task, thread: Tid) {
    && |n.queue| == |s.queue| + 1 && n.queue[..|s.queue|] == s.queue
    && n.queue[|s.queue|].task == task && n.queue[|s.queue|].thread == thread
    && n.log == s.log + [n.queue[|s.queue|]]
  }

  // ---------- fibers that yielded ----------

  ghost predicate Returning(s: State, f: Fid) {
    || (exists i :: 0 <= i < |s.queue| && s.queue[i].task == FiberTask(f) && s.queue[i].thread == -1)
    || (exists w :: w in s.workers && WakeOf(s.workers[w].phase) == Some(f))
  }

  /** A READY fiber is queued for any worker, or in the hands of one that will queue or enter it. */
  ghost predicate ReadyInv(s: State) {
    forall f :: f in s.fibers && s.fibers[f] == Ready ==> Returning(s, f)
  }

  lemma ReadyKept(s: State, st: Step)
    requires Possible(s, st) && ReadyInv(s)
    ensures ReadyInv(Next(s, st))
  {
    hide FirstEligible, Without;
    var n := Next(s, st);
    forall f | f in n.fibers && n.fibers[f] == Ready ensures Returning(n, f) {
      if st.YieldReady? && s.workers[st.w].phase.f == f {
        assert WakeOf(n.workers[st.w].phase) == Some(f);
      } else {
        assert s.fibers[f] == Ready;
        StillReturning(s, st, f);
      }
    }
  }

  lemma StillReturning(s: State, st: Step, f: Fid)
    requires Possible(s, st) && f in s.fibers && s.fibers[f] == Ready && Returning(s, f)
    requires f in Next(s, st).fibers && Next(s, st).fibers[f] == Ready
    ensures Returning(Next(s, st), f)
  {
    hide Next;
    if i :| 0 <= i < |s.queue| && s.queue[i].task == FiberTask(f) && s.queue[i].thread == -1 {
      EntryReturns(s, st, f, i);
    } else {
      var w :| w in s.workers && WakeOf(s.workers[w].phase) == Some(f);
      WakeReturns(s, st, f, w);
    }
  }

  lemma EntryReturns(s: State, st: Step, f: Fid, i: nat)
    requires Possible(s, st) && i < |s.queue| && s.queue[i].task == FiberTask(f) && s.queue[i].thread == -1
    ensures Returning(Next(s, st), f)
  {
    hide FirstEligible;
    var n := Next(s, st);
    if st.Pick? {
      var k := FirstEligible(s.queue, st.w, s.fibers);
      if k == i {
        assert WakeOf(n.workers[st.w].phase) == Some(f);
      } else {
        assert n.queue[if i < k then i else i - 1] == s.queue[i];
      }
    } else {
      assert n.queue[i] == s.queue[i];
    }
  }

  lemma WakeReturns(s: State, st: Step, f: Fid, w: Tid)
    requires Possible(s, st) && f in s.fibers && s.fibers[f] == Ready
    requires w in s.workers && WakeOf(s.workers[w].phase) == Some(f)
    requires f in Next(s, st).fibers && Next(s, st).fibers[f] == Ready
    ensures Returning(Next(s, st), f)
  {
    hide FirstEligible, Without;
    var n := Next(s, st);
    if st == PushBack(w) {
      assert n.queue[|s.queue|].task == FiberTask(f);
    } else {
      assert WakeOf(n.workers[w].phase) == Some(f);
    }
  }

  lemma {:induction false} RunReady(states: seq<State>, steps: seq<Step>, i: nat)
    requires IsRun(states, steps) && i < |states|
    ensures ReadyInv(states[i])
  {
    hide Next, ReadyInv;
    if i == 0 {
      NoneReady(states[0]);
    } else {
      assert Enabled(states[i - 1], steps[i - 1]) && states[i] == Next(states[i - 1], steps[i - 1]);
      RunReady(states, steps, i - 1);
      ReadyKept(states[i - 1], steps[i - 1]);
    }
  }

  lemma NoneReady(s: State)
    requires Initial(s)
    ensures ReadyInv(s)
  {
  }

  /** When all workers are gone no fiber is READY or EXEC: each one was never entered, is parked in
      HOLD, or has ended. */
  lemma SettledAtEnd(states: seq<State>, steps: seq<Step>, i: nat, f: Fid)
    requires IsRun(states, steps) && i < |states| && f in states[i].fibers
    requires forall w :: w in states[i].workers ==> states[i].workers[w].phase.Left?
    ensures || LastLeft(states, steps, i, f, Hold) || Finished(states, steps, i, f)
            || LastLeft(states, steps, i, f, Init) || NeverEntered(states, i, f)
  {
    hide Core, OwnedInv, CountInv, IdleInv, LogInv, PinInv, LastLeft, NeverEntered, Finished;
    RunInv(states, steps, i);
    RunReady(states, steps, i);
    FiberExact(states, steps, i, f);
    EndedExact(states, steps, i, f);
    var s := states[i];
    assert AllCommitted(s);
    assert !Returning(s, f);
    forall w | w in s.workers ensures !ExecutesOn(s, w, f) { }
  }

  // ---------- the fiber a worker keeps for callbacks ----------

  /** The worker's last callback ended in its fiber `f`, which nobody has entered since. */
  ghost predicate KeptFiber(states: seq<State>, steps: seq<Step>, i: nat, w: Tid, f: Fid) {
    exists j :: 0 <= j < i && EndsCallback(states, steps, j, w, f) && OutOfCb(states, j + 1, i, w)
  }

  predicate EndsCallback(states: seq<State>, steps: seq<Step>, j: nat, w: Tid, f: Fid) {
    && j < |steps| && j < |states| && (steps[j] == Finish(w, true) || steps[j] == Finish(w, false))
    && w in states[j].workers && states[j].workers[w].phase == Running(f, true)
  }

  ghost predicate OutOfCb(states: seq<State>, from: int, to: int, w: Tid) {
    forall m :: 0 <= from <= m <= to && m < |states| ==>
                  w in states[m].workers && !InCb(states[m].workers[w].phase)
  }

  lemma CacheStep(s: State, st: Step, w: Tid)
    requires Possible(s, st) && CacheInv(s) && w in s.workers && w in Next(s, st).workers
    requires !InCb(Next(s, st).workers[w].phase)
    ensures var k, n := s.workers[w], Next(s, st).workers[w];
            if !InCb(k.phase) then n.cbFiber == k.cbFiber
            else if st == Finish(w, true) || st == Finish(w, false)
            then k.phase.Running? && n.cbFiber == Some(k.phase.f)
            else n.cbFiber == None
  {
    hide FirstEligible, Without, Unknown;
  }

  lemma {:induction false} CacheExact(states: seq<State>, steps: seq<Step>, i: nat, w: Tid, f: Fid)
    requires IsRun(states, steps) && i < |states|
    requires w in states[i].workers && !InCb(states[i].workers[w].phase)
    ensures states[i].workers[w].cbFiber == Some(f) <==> KeptFiber(states, steps, i, w, f)
    decreases i
  {
    hide Next, CacheInv, ExecInv, WakeInv, OwnedInv, CountInv, IdleInv, DrainInv, LogInv, PinInv;
    if i > 0 {
      var s, st, n := states[i - 1], steps[i - 1], states[i];
      assert Enabled(s, st) && n == Next(s, st);
      RunInv(states, steps, i - 1);
      KeysKept(s, st);
      CacheStep(s, st, w);
      if InCb(s.workers[w].phase) {
        JustEnded(states, steps, i, w, f);
      } else {
        CacheExact(states, steps, i - 1, w, f);
        KeptLonger(states, steps, i, w, f);
      }
    }
  }

  lemma JustEnded(states: seq<State>, steps: seq<Step>, i: nat, w: Tid, f: Fid)
    requires 0 < i < |states| && i <= |steps| && w in states[i].workers && !InCb(states[i].workers[w].phase)
    requires w in states[i - 1].workers && InCb(states[i - 1].workers[w].phase)
    ensures KeptFiber(states, steps, i, w, f) <==> EndsCallback(states, steps, i - 1, w, f)
  {
    if EndsCallback(states, steps, i - 1, w, f) { assert OutOfCb(states, i, i, w); }
  }

  lemma KeptLonger(states: seq<State>, steps: seq<Step>, i: nat, w: Tid, f: Fid)
    requires 0 < i < |states| && i <= |steps| && w in states[i].workers && !InCb(states[i].workers[w].phase)
    requires w in states[i - 1].workers && !InCb(states[i - 1].workers[w].phase)
    ensures KeptFiber(states, steps, i, w, f) <==> KeptFiber(states, steps, i - 1, w, f)
  {
    if KeptFiber(states, steps, i, w, f) {
      var j :| 0 <= j < i && EndsCallback(states, steps, j, w, f) && OutOfCb(states, j + 1, i, w);
      assert j < i - 1 && OutOfCb(states, j + 1, i - 1, w);
    }
    if KeptFiber(states, steps, i - 1, w, f) {
      var j :| 0 <= j < i - 1 && EndsCallback(states, steps, j, w, f) && OutOfCb(states, j + 1, i - 1, w);
      assert OutOfCb(states, j + 1, i, w);
    }
  }

  /** A callback runs in the fiber in which its worker's last callback ended, and otherwise (it is the
      first, or the last one yielded and took its fiber along) in one that never ran before. */
  lemma CallbackEnters(states: seq<State>, steps: seq<Step>, i: nat, w: Tid)
    requires IsRun(states, steps) && i < |steps| && steps[i].Resume? && steps[i].w == w
    requires w in states[i].workers && states[i].workers[w].phase.Picked? && states[i].workers[w].phase.e.task.CbTask?
    ensures w in states[i + 1].workers && states[i + 1].workers[w].phase.Running? && states[i + 1].workers[w].phase.cb
    ensures var g := states[i + 1].workers[w].phase.f;
            KeptFiber(states, steps, i, w, g) ||
            (NeverEntered(states, i, g) && forall f: Fid :: !KeptFiber(states, steps, i, w, f))
  {
    hide KeptFiber, NeverEntered;
    assert Enabled(states[i], steps[i]) && states[i + 1] == Next(states[i], steps[i]);
    forall f: Fid ensures states[i].workers[w].cbFiber == Some(f) <==> KeptFiber(states, steps, i, w, f) {
      CacheExact(states, steps, i, w, f);
    }
    FiberTold(states, steps, i, steps[i].spare);
  }

  // ---------- leaving ----------

  predicate StopAsked(steps: seq<Step>, i: nat)
    requires i <= |steps|
  {
    exists j :: 0 <= j < i && steps[j] == Stop
  }

  lemma StopStep(s: State, st: Step)
    requires Possible(s, st)
    ensures Next(s, st).stop == (s.stop || st == Stop)
  {
    hide FirstEligible, Without;
  }

  lemma {:induction false} StopExactly(states: seq<State>, steps: seq<Step>, i: nat)
    requires IsRun(states, steps) && i < |states|
    ensures states[i].stop <==> StopAsked(steps, i)
    decreases i
  {
    hide Next;
    if i > 0 {
      assert Enabled(states[i - 1], steps[i - 1]) && states[i] == Next(states[i - 1], steps[i - 1]);
      StopStep(states[i - 1], steps[i - 1]);
      StopExactly(states, steps, i - 1);
      if StopAsked(steps, i) {
        var j :| 0 <= j < i && steps[j] == Stop;
        assert j == i - 1 || StopAsked(steps, i - 1);
      }
    }
  }

  /** stop() was called, nothing is queued, and no worker is between a pick and the end of what it runs. */
  ghost predicate Quiet(states: seq<State>, steps: seq<Step>, i: nat) {
    && i < |states| && i <= |steps| && StopAsked(steps, i) && states[i].queue == []
    && forall v :: v in states[i].workers ==>
         !states[i].workers[v].phase.Picked? && !states[i].workers[v].phase.Running?
  }

  lemma StoppingExact(states: seq<State>, steps: seq<Step>, i: nat)
    requires IsRun(states, steps) && i < |states|
    ensures Stopping(states[i]) <==> Quiet(states, steps, i)
  {
    hide Core, OwnedInv, IdleInv, DrainInv, LogInv, PinInv, StopAsked, CountInv;
    RunInv(states, steps, i);
    StopExactly(states, steps, i);
    NobodyBusy(states[i]);
  }

  /** The idle fiber that looks whether to stop ends exactly when all is quiet, and yields otherwise;
      either way its worker looks at the queue again. */
  lemma IdleExact(states: seq<State>, steps: seq<Step>, i: nat, w: Tid)
    requires IsRun(states, steps) && i < |steps| && steps[i] == IdleCheck(w)
    ensures w in states[i + 1].workers && states[i + 1].workers[w].phase == Loop
    ensures states[i + 1].workers[w].idle == if Quiet(states, steps, i) then Term else Hold
  {
    hide Stopping, Quiet;
    StoppingExact(states, steps, i);
    assert Enabled(states[i], steps[i]) && states[i + 1] == Next(states[i], steps[i]);
  }

  lemma NobodyBusy(s: State)
    requires CountInv(s)
    ensures s.active == 0 <==>
            forall v :: v in s.workers ==> !s.workers[v].phase.Picked? && !s.workers[v].phase.Running?
  {
    var b := BusySet(s.workers);
    assert forall v :: v in b <==> v in s.workers && Busy(s.workers[v].phase);
    assert |b| == 0 <==> b == {};
    if forall v :: v in s.workers ==> !Busy(s.workers[v].phase) { assert b == {}; }
  }

  /** With nothing to run, a worker leaves exactly when its idle fiber has ended, and idles otherwise. */
  lemma LeaveExact(s: State, w: Tid)
    requires Possible(s, EnterIdle(w))
    ensures var k := Next(s, EnterIdle(w)).workers[w];
            if s.workers[w].idle == Term then k.phase == Left && k.idle == Term else k.phase == Idling && k.idle == Exec
  {
  }

  lemma EmptyStep(s: State, st: Step, w: Tid)
    requires Possible(s, st) && w in s.workers && w in Next(s, st).workers && Next(s, st).workers[w].phase.Empty?
    ensures s.workers[w].phase.Empty? || st == Pick(w)
    ensures Next(s, st).workers[w].idle == s.workers[w].idle
  {
    hide FirstEligible, Without;
  }

  /** A pick of the worker that found nothing it may take. */
  ghost predicate FoundNothing(states: seq<State>, steps: seq<Step>, j: nat, w: Tid) {
    && j < |steps| && j < |states| && steps[j] == Pick(w)
    && forall k :: 0 <= k < |states[j].queue| ==> Blocked(states[j], w, states[j].queue[k])
  }

  lemma {:induction false} EmptyHistory(states: seq<State>, steps: seq<Step>, i: nat, w: Tid) returns (j: nat)
    requires IsRun(states, steps) && i < |states| && w in states[i].workers && states[i].workers[w].phase.Empty?
    ensures j < i && FoundNothing(states, steps, j, w) && w in states[j].workers
    ensures states[j].workers[w].idle == states[i].workers[w].idle
    decreases i
  {
    hide Next, Blocked;
    j := i - 1;
    var s, st := states[i - 1], steps[i - 1];
    assert Enabled(s, st) && states[i] == Next(s, st);
    KeysKept(s, st);
    EmptyStep(s, st, w);
    if s.workers[w].phase.Empty? {
      j := EmptyHistory(states, steps, i - 1, w);
    } else {
      PickExact(states, steps, i - 1, w);
    }
  }

  /** A worker that left run() saw all quiet in its idle fiber, and a pick of its own after that found
      nothing it may take: nothing but entries pinned elsewhere or for fibers that execute. */
  lemma LeavesNothing(states: seq<State>, steps: seq<Step>, i: nat, w: Tid)
    requires IsRun(states, steps) && i < |states| && w in states[i].workers && states[i].workers[w].phase.Left?
    ensures exists j, k :: && 0 <= j < k < i && steps[j] == IdleCheck(w) && Quiet(states, steps, j)
                           && FoundNothing(states, steps, k, w)
  {
    hide Next, Quiet, Stopping, FoundNothing;
    LeftEmptyHanded(states, steps, i, w);
    var m :| && 0 <= m < i && steps[m] == EnterIdle(w) && w in states[m].workers
             && states[m].workers[w].phase.Empty? && states[m].workers[w].idle == Term;
    var k := EmptyHistory(states, steps, m, w);
    LeftAfterStop(states, steps, k, w);
    var j :| 0 <= j < k && steps[j] == IdleCheck(w) && Stopping(states[j]);
    StoppingExact(states, steps, j);
  }
}
