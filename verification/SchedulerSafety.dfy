/** What every run of the scheduler keeps: who executes a fiber, the active count, the asserts
    in swapIn and reset, the fate of every scheduled task, and what is left when all workers
    have gone. */
module SchedulerSafety {
  import opened Options
  import opened Scheduler

  /** A worker inside a fiber has it executing, and has it to itself. */
  ghost predicate ExecInv(s: State) {
    && (forall w :: w in s.workers && s.workers[w].phase.Running? ==> Executing(s, s.workers[w].phase.f))
    && (forall v, w :: v in s.workers && w in s.workers && v != w && s.workers[v].phase.Running? ==>
                         RunOf(s.workers[v].phase) != RunOf(s.workers[w].phase))
  }

  predicate Executing(s: State, f: Fid) {
    f in s.fibers && s.fibers[f] == Exec
  }

  /** A fiber executes only on the worker that entered it. */
  ghost predicate OwnedInv(s: State) {
    forall f :: f in s.fibers && s.fibers[f] == Exec ==> OnWorker(s, f)
  }

  ghost predicate OnWorker(s: State, f: Fid) {
    exists w :: w in s.workers && RunOf(s.workers[w].phase) == Some(f)
  }

  /** A fiber has at most one wake-up under way, in the queue or in a worker's hands, and none
      in a worker's hands while it executes. */
  ghost predicate WakeInv(s: State) {
    && (forall i :: 0 <= i < |s.queue| && s.queue[i].task.FiberTask? ==> s.queue[i].task.f in s.fibers)
    && (forall i, j :: 0 <= i < j < |s.queue| && s.queue[i].task.FiberTask? ==> s.queue[i].task != s.queue[j].task)
    && (forall w :: w in s.workers && WakeOf(s.workers[w].phase).Some? ==> Carried(s, WakeOf(s.workers[w].phase).value))
    && (forall v, w :: v in s.workers && w in s.workers && v != w && WakeOf(s.workers[v].phase).Some? ==>
                         WakeOf(s.workers[v].phase) != WakeOf(s.workers[w].phase))
  }

  ghost predicate Carried(s: State, f: Fid) {
    f in s.fibers && s.fibers[f] != Exec && !Queued(s.queue, f)
  }

  /** A worker's cb_fiber is the one it runs, or a reset one that nobody else knows. */
  ghost predicate CacheInv(s: State) {
    && (forall w :: w in s.workers && InCb(s.workers[w].phase) ==> s.workers[w].cbFiber == Some(s.workers[w].phase.f))
    && (forall v, w :: v in s.workers && w in s.workers && v != w && s.workers[v].cbFiber.Some? ==>
          s.workers[v].cbFiber != s.workers[w].cbFiber)
    && (forall w :: w in s.workers && s.workers[w].cbFiber.Some? ==> s.workers[w].cbFiber.value in s.fibers)
    && (forall w :: w in s.workers && s.workers[w].cbFiber.Some? && !InCb(s.workers[w].phase) ==>
                      Unknown(s, s.workers[w].cbFiber.value))
  }

  ghost predicate Unknown(s: State, f: Fid) {
    f in s.fibers && s.fibers[f] == Init && !Outstanding(s, f)
  }

  ghost function BusySet(ws: map<Tid, Worker>): set<Tid> {
    set w | w in ws && Busy(ws[w].phase)
  }

  ghost predicate CountInv(s: State) {
    s.active == |BusySet(s.workers)|
  }

  ghost predicate IdleInv(s: State) {
    forall w :: w in s.workers ==>
      && (s.workers[w].phase.Idling? <==> s.workers[w].idle == Exec)
      && (s.workers[w].phase.Left? ==> s.workers[w].idle == Term)
  }

  /** When every worker is on its way out, no unpinned task is left behind. */
  ghost predicate DrainInv(s: State) {
    AllCommitted(s) ==> forall i :: 0 <= i < |s.queue| ==> s.queue[i].thread != ANY
  }

  lemma BusyUpdate(ws: map<Tid, Worker>, w: Tid, k: Worker)
    requires w in ws
    ensures |BusySet(ws[w := k])| ==
            |BusySet(ws)| - (if Busy(ws[w].phase) then 1 else 0) + (if Busy(k.phase) then 1 else 0)
  {
    var a, b := BusySet(ws), BusySet(ws[w := k]);
    if Busy(ws[w].phase) == Busy(k.phase) {
      assert a == b;
    } else if Busy(k.phase) {
      assert b == a + {w};
    } else {
      assert a == b + {w};
    }
  }

  /** The count is exact on every branch of run(). */
  lemma CountKept(s: State, st: Step)
    requires Enabled(s, st) && CountInv(s)
    ensures CountInv(Next(s, st))
  {
    var n := Next(s, st);
    match st
    case Spawn(_) =>
    case Schedule(_, _, _) =>
    case Stop =>
    case Pick(w) => BusyUpdate(s.workers, w, n.workers[w]);
    case Resume(w, _) => BusyUpdate(s.workers, w, n.workers[w]);
    case YieldHold(w) => BusyUpdate(s.workers, w, n.workers[w]);
    case YieldReady(w) => BusyUpdate(s.workers, w, n.workers[w]);
    case PushBack(w) => BusyUpdate(s.workers, w, n.workers[w]);
    case Finish(w, _) => BusyUpdate(s.workers, w, n.workers[w]);
    case EnterIdle(w) => BusyUpdate(s.workers, w, n.workers[w]);
    case IdleCheck(w) => BusyUpdate(s.workers, w, n.workers[w]);
  }

  lemma IdleKept(s: State, st: Step)
    requires Enabled(s, st) && IdleInv(s)
    ensures IdleInv(Next(s, st))
  {
    var n := Next(s, st);
    forall v | v in n.workers
      ensures n.workers[v].phase.Idling? <==> n.workers[v].idle == Exec
      ensures n.workers[v].phase.Left? ==> n.workers[v].idle == Term
    {
      assert v in s.workers;
    }
  }

  lemma QueuedPush(q: seq<Entry>, e: Entry, f: Fid)
    ensures Queued(q + [e], f) <==> Queued(q, f) || e.task == FiberTask(f)
  {
    var r := q + [e];
    if Queued(q, f) {
      var i :| 0 <= i < |q| && q[i].task == FiberTask(f);
      assert r[i] == q[i];
    } else if e.task == FiberTask(f) {
      assert r[|q|] == e;
    }
  }

  lemma QueuedWithout(q: seq<Entry>, i: nat, f: Fid)
    requires i < |q|
    ensures Queued(Without(q, i), f) ==> Queued(q, f)
  {
  }

  /** Invariants that lean on one another. */
  ghost predicate Core(s: State) {
    ExecInv(s) && WakeInv(s) && CacheInv(s)
  }

  lemma KeptPush(s: State, task: Task, thread: Tid)
    requires Core(s)
    requires task.FiberTask? ==> task.f in s.fibers && !Outstanding(s, task.f) && !Cached(s, task.f)
    ensures Core(Push(s, task, thread))
  {
    var n := Push(s, task, thread);
    forall f: Fid { QueuedPush(s.queue, n.queue[|s.queue|], f); }
  }

  /** The phases in which a worker holds no fiber and no wake-up. */
  predicate HandsFree(p: Phase) {
    p.Loop? || p.Empty? || p.Idling? || p.Left?
  }

  ghost predicate Frees(s: State, w: Tid, k: Worker) {
    && Core(s) && w in s.workers && (HandsFree(s.workers[w].phase) || s.workers[w].phase.Picked?)
    && HandsFree(k.phase) && k.cbFiber == s.workers[w].cbFiber
  }

  lemma FreeExec(s: State, w: Tid, k: Worker)
    requires Frees(s, w, k)
    ensures ExecInv(Put(s, w, k))
  {
    hide WakeInv, CacheInv;
  }

  lemma FreeWake(s: State, w: Tid, k: Worker)
    requires Frees(s, w, k)
    ensures WakeInv(Put(s, w, k))
  {
    hide ExecInv, CacheInv;
  }

  lemma FreeCache(s: State, w: Tid, k: Worker)
    requires Frees(s, w, k)
    ensures CacheInv(Put(s, w, k))
  {
    hide ExecInv, WakeInv;
  }

  /** A worker that ends up with free hands touches none of it. */
  lemma KeptFree(s: State, w: Tid, k: Worker)
    requires Frees(s, w, k)
    ensures Core(Put(s, w, k))
  {
    hide ExecInv, WakeInv, CacheInv;
    FreeExec(s, w, k);
    FreeWake(s, w, k);
    FreeCache(s, w, k);
  }

  ghost predicate Takes(s: State, w: Tid, i: nat, n: State) {
    && Core(s) && w in s.workers && s.workers[w].phase.Loop?
    && i < |s.queue| && Eligible(s.queue[i], w, s.fibers)
    && n == Put(s.(queue := Without(s.queue, i)), w, s.workers[w].(phase := Picked(s.queue[i])))
  }

  lemma TakeExec(s: State, w: Tid, i: nat, n: State)
    requires Takes(s, w, i, n)
    ensures ExecInv(n)
  {
    hide WakeInv, CacheInv;
  }

  lemma TakeWake(s: State, w: Tid, i: nat, n: State)
    requires Takes(s, w, i, n)
    ensures WakeInv(n)
  {
    hide ExecInv, CacheInv;
    forall f: Fid { QueuedWithout(s.queue, i, f); }
  }

  lemma TakeCache(s: State, w: Tid, i: nat, n: State)
    requires Takes(s, w, i, n)
    ensures CacheInv(n)
  {
    hide ExecInv;
    forall f: Fid { QueuedWithout(s.queue, i, f); }
  }

  lemma KeptTake(s: State, w: Tid, i: nat)
    requires Core(s) && w in s.workers && s.workers[w].phase.Loop?
    requires i < |s.queue| && Eligible(s.queue[i], w, s.fibers)
    ensures var n := s.(queue := Without(s.queue, i));
            Core(Put(n, w, s.workers[w].(phase := Picked(s.queue[i]))))
  {
    hide ExecInv, WakeInv, CacheInv;
    var n := Put(s.(queue := Without(s.queue, i)), w, s.workers[w].(phase := Picked(s.queue[i])));
    TakeExec(s, w, i, n);
    TakeWake(s, w, i, n);
    TakeCache(s, w, i, n);
  }

  lemma KeptPick(s: State, w: Tid)
    requires Core(s) && w in s.workers && s.workers[w].phase.Loop?
    ensures Core(NextPick(s, w))
  {
    hide ExecInv, WakeInv, CacheInv;
    var i := FirstEligible(s.queue, w, s.fibers);
    if i == |s.queue| {
      KeptFree(s, w, s.workers[w].(phase := Empty));
    } else {
      KeptTake(s, w, i);
      SameCore(Put(s.(queue := Without(s.queue, i)), w, s.workers[w].(phase := Picked(s.queue[i]))), NextPick(s, w));
    }
  }

  /** Core speaks of the fibers, the queue and the workers only. */
  lemma SameCore(s: State, n: State)
    requires Core(s) && n.fibers == s.fibers && n.queue == s.queue && n.workers == s.workers
    ensures Core(n)
  {
  }

  /** The fiber was woken by this worker, is its cached one, or is new. */
  ghost predicate Enters(s: State, w: Tid, f: Fid, cb: bool, n: State) {
    && Core(s) && w in s.workers && s.workers[w].phase.Picked?
    && WakeOf(s.workers[w].phase) == (if cb then None else Some(f))
    && (cb ==> if s.workers[w].cbFiber.Some? then s.workers[w].cbFiber == Some(f) else f !in s.fibers)
    && n == Put(s.(fibers := s.fibers[f := Exec]), w,
                s.workers[w].(phase := Running(f, cb), cbFiber := if cb then Some(f) else s.workers[w].cbFiber))
  }

  lemma EnterExec(s: State, w: Tid, f: Fid, cb: bool, n: State)
    requires Enters(s, w, f, cb, n)
    ensures ExecInv(n)
  {
  }

  lemma EnterWake(s: State, w: Tid, f: Fid, cb: bool, n: State)
    requires Enters(s, w, f, cb, n)
    ensures WakeInv(n)
  {
    hide ExecInv;
  }

  lemma EnterCache(s: State, w: Tid, f: Fid, cb: bool, n: State)
    requires Enters(s, w, f, cb, n)
    ensures CacheInv(n)
  {
    hide ExecInv;
  }

  lemma KeptEnter(s: State, w: Tid, f: Fid, cb: bool, n: State)
    requires Enters(s, w, f, cb, n)
    ensures Core(n)
  {
    hide ExecInv, WakeInv, CacheInv, Enters;
    EnterExec(s, w, f, cb, n);
    EnterWake(s, w, f, cb, n);
    EnterCache(s, w, f, cb, n);
  }

  lemma KeptResume(s: State, w: Tid, spare: Fid)
    requires Core(s) && w in s.workers && s.workers[w].phase.Picked? && spare !in s.fibers
    ensures Core(NextResume(s, w, spare))
  {
    hide ExecInv, WakeInv, CacheInv;
    var k := s.workers[w];
    match k.phase.e.task
    case FiberTask(f) =>
      if f in s.fibers && Runnable(s.fibers[f]) {
        KeptEnter(s, w, f, false, NextResume(s, w, spare));
      } else {
        KeptFree(s, w, k.(phase := Loop));
        SameCore(Put(s, w, k.(phase := Loop)), NextResume(s, w, spare));
      }
    case CbTask(_) =>
      KeptEnter(s, w, if k.cbFiber.Some? then k.cbFiber.value else spare, true, NextResume(s, w, spare));
  }

  lemma HoldExec(s: State, w: Tid)
    requires Core(s) && RunningOn(s, w)
    ensures ExecInv(NextHold(s, w))
  {
    hide WakeInv, CacheInv;
  }

  lemma HoldWake(s: State, w: Tid)
    requires Core(s) && RunningOn(s, w)
    ensures WakeInv(NextHold(s, w))
  {
    hide CacheInv;
  }

  lemma HoldCache(s: State, w: Tid)
    requires Core(s) && RunningOn(s, w)
    ensures CacheInv(NextHold(s, w))
  {
    hide WakeInv;
  }

  lemma KeptHold(s: State, w: Tid)
    requires Core(s) && RunningOn(s, w)
    ensures Core(NextHold(s, w))
  {
    hide ExecInv, WakeInv, CacheInv, NextHold;
    HoldExec(s, w);
    HoldWake(s, w);
    HoldCache(s, w);
  }

  lemma KeptReady(s: State, w: Tid)
    requires Core(s) && RunningOn(s, w) && !Outstanding(s, s.workers[w].phase.f)
    ensures Core(NextReady(s, w))
  {
  }

  ghost predicate LetsGo(s: State, w: Tid, n: State) {
    && Core(s) && w in s.workers && s.workers[w].phase.Requeue?
    && var k := s.workers[w];
    n == Put(s, w, k.(phase := Loop, cbFiber := if k.phase.cb then None else k.cbFiber))
  }

  lemma LetGoExec(s: State, w: Tid, n: State)
    requires LetsGo(s, w, n)
    ensures ExecInv(n)
  {
    hide WakeInv, CacheInv;
  }

  lemma LetGoWake(s: State, w: Tid, n: State)
    requires LetsGo(s, w, n)
    ensures WakeInv(n) && s.workers[w].phase.f in n.fibers && !Outstanding(n, s.workers[w].phase.f)
  {
    hide ExecInv, CacheInv;
  }

  lemma LetGoCache(s: State, w: Tid, n: State)
    requires LetsGo(s, w, n)
    ensures CacheInv(n) && !Cached(n, s.workers[w].phase.f)
  {
    hide ExecInv, WakeInv;
  }

  /** A worker that lets go of a READY fiber leaves it free to be queued. */
  lemma LetGo(s: State, w: Tid, n: State)
    requires LetsGo(s, w, n)
    ensures Core(n)
    ensures var f := s.workers[w].phase.f; f in n.fibers && !Outstanding(n, f) && !Cached(n, f)
  {
    hide ExecInv, WakeInv, CacheInv, Outstanding, Cached;
    LetGoExec(s, w, n);
    LetGoWake(s, w, n);
    LetGoCache(s, w, n);
  }

  lemma KeptPushBack(s: State, w: Tid)
    requires Core(s) && w in s.workers && s.workers[w].phase.Requeue?
    ensures Core(NextPushBack(s, w))
  {
    hide Core;
    var k := s.workers[w];
    var n := Put(s, w, k.(phase := Loop, cbFiber := if k.phase.cb then None else k.cbFiber));
    LetGo(s, w, n);
    KeptPush(n, FiberTask(k.phase.f), ANY);
    assert NextPushBack(s, w) == Push(n, FiberTask(k.phase.f), ANY);
  }

  ghost predicate Finishes(s: State, w: Tid) {
    Core(s) && RunningOn(s, w) && (s.workers[w].phase.cb ==> !Outstanding(s, s.workers[w].phase.f))
  }

  lemma FinishExec(s: State, w: Tid, ok: bool)
    requires Finishes(s, w)
    ensures ExecInv(NextFinish(s, w, ok))
  {
    hide WakeInv, CacheInv;
  }

  lemma FinishWake(s: State, w: Tid, ok: bool)
    requires Finishes(s, w)
    ensures WakeInv(NextFinish(s, w, ok))
  {
    hide CacheInv;
  }

  lemma FinishCache(s: State, w: Tid, ok: bool)
    requires Finishes(s, w)
    ensures CacheInv(NextFinish(s, w, ok))
  {
    hide WakeInv;
  }

  /** A callback fiber has to end without a wake-up under way; what is left of a plain one's is
      dropped when it is picked. */
  lemma KeptFinish(s: State, w: Tid, ok: bool)
    requires Finishes(s, w)
    ensures Core(NextFinish(s, w, ok))
  {
    hide ExecInv, WakeInv, CacheInv, NextFinish;
    FinishExec(s, w, ok);
    FinishWake(s, w, ok);
    FinishCache(s, w, ok);
  }

  lemma CoreKept(s: State, st: Step)
    requires Enabled(s, st) && Core(s)
    ensures Core(Next(s, st))
  {
    hide ExecInv, WakeInv, CacheInv, NextPick, NextResume, NextHold, NextReady, NextPushBack, NextFinish;
    match st
    case Spawn(f) => KeptSpawn(s, f);
    case Schedule(task, thread, _) => KeptPush(s, task, thread);
    case Pick(w) => KeptPick(s, w);
    case Resume(w, spare) => KeptResume(s, w, spare);
    case YieldHold(w) => KeptHold(s, w);
    case YieldReady(w) => KeptReady(s, w);
    case PushBack(w) => KeptPushBack(s, w);
    case Finish(w, ok) => KeptFinish(s, w, ok);
    case EnterIdle(w) => KeptFree(s, w, NextIdle(s, w).workers[w]);
    case IdleCheck(w) => KeptFree(s, w, NextIdleCheck(s, w).workers[w]);
    case Stop => KeptStop(s);
  }

  lemma OwnedKept(s: State, st: Step)
    requires Possible(s, st) && OwnedInv(s)
    ensures OwnedInv(Next(s, st))
  {
    var n := Next(s, st);
    forall f: Fid | f in n.fibers && n.fibers[f] == Exec
      ensures OnWorker(n, f)
    {
      if Executing(s, f) {
        var v :| v in s.workers && RunOf(s.workers[v].phase) == Some(f);
        assert n.workers[v].phase == s.workers[v].phase;
      } else {
        assert RunOf(n.workers[st.w].phase) == Some(f);
      }
    }
  }

  lemma KeptSpawn(s: State, f: Fid)
    requires Core(s) && f !in s.fibers
    ensures Core(s.(fibers := s.fibers[f := Init]))
  {
  }

  lemma KeptStop(s: State)
    requires Core(s)
    ensures Core(s.(stop := true))
  {
  }

  /** The last worker to find nothing finds nothing unpinned: any entry it skipped is pinned,
      because a fiber that executes has a worker that is not on its way out. */
  lemma DrainPicked(s: State, w: Tid)
    requires Enabled(s, Pick(w)) && OwnedInv(s) && AllCommitted(Next(s, Pick(w)))
    ensures forall i :: 0 <= i < |s.queue| ==> s.queue[i].thread != ANY
  {
    var n := Next(s, Pick(w));
    forall i | 0 <= i < |s.queue|
      ensures s.queue[i].thread != ANY
    {
      var e := s.queue[i];
      assert Committed(n.workers[w]);
      assert !Eligible(e, w, s.fibers);
      if e.thread == ANY {
        assert Executing(s, e.task.f);
        var v :| v in s.workers && RunOf(s.workers[v].phase) == Some(e.task.f);
        NotLeaving(n, v);
      }
    }
  }

  lemma NotLeaving(s: State, w: Tid)
    requires w in s.workers && !Committed(s.workers[w])
    ensures !AllCommitted(s)
  {
  }

  lemma DrainKept(s: State, st: Step)
    requires Enabled(s, st) && OwnedInv(s) && DrainInv(s)
    ensures DrainInv(Next(s, st))
  {
    var n := Next(s, st);
    match st
    case Pick(w) =>
      if !Committed(n.workers[w]) {
        NotLeaving(n, w);
      } else if AllCommitted(n) {
        DrainPicked(s, w);
      }
    case Schedule(_, _, caller) => if caller.Some? { NotLeaving(n, caller.value); }
    case Spawn(_) =>
    case Stop =>
    case EnterIdle(w) =>
      if s.workers[w].idle != Term {
        NotLeaving(n, w);
      } else if AllCommitted(n) {
        forall v | v in s.workers ensures Committed(s.workers[v]) { assert Committed(n.workers[v]); }
      }
    case _ => NotLeaving(n, st.w);
  }
}
