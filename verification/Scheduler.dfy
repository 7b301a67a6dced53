/** The N-worker fiber scheduler as a state machine over the steps of Scheduler::run, with the
    fibers' states, the shared task queue and the counters that stop() depends on.

    Every step is atomic. Yielding and the bookkeeping that run() does right after swapIn are one
    step, except that a READY fiber is queued again in a step of its own, because run() first
    decrements the active count and only then takes the queue lock. */
module Scheduler {

  import opened Options

  type Tid = int
  type Fid = nat

  const ANY: Tid := -1

  datatype FState = Init | Hold | Exec | Ready | Term | Except

  datatype Task = FiberTask(f: Fid) | CbTask(c: nat)

  /** A queued task, the thread it is pinned to (or ANY), and its serial number. */
  datatype Entry = Entry(task: Task, thread: Tid, ticket: nat)

  /** Where a worker is inside run(). */
  datatype Phase =
    | Loop                          // at the top of the loop, empty-handed
    | Picked(e: Entry)              // holds an entry, counted active
    | Running(f: Fid, cb: bool)     // inside swapIn of fiber f, counted active; cb: f is its cb_fiber
    | Requeue(f: Fid, cb: bool)     // f yielded READY: no longer counted, not yet queued again
    | Empty                         // found nothing it may run
    | Idling                        // inside its idle fiber
    | Left                          // out of run()

  datatype Worker = Worker(phase: Phase, idle: FState, cbFiber: Option<Fid>)

  datatype State = State(
    fibers: map<Fid, FState>,
    queue: seq<Entry>,
    workers: map<Tid, Worker>,
    active: int,
    stop: bool,                     // m_autoStop && m_stopping
    log: seq<Entry>,                // everything ever scheduled, in order
    taken: seq<(Tid, Entry)>        // everything ever picked, by whom
  )

  datatype Step =
    | Spawn(f: Fid)
    | Schedule(task: Task, thread: Tid, caller: Option<Tid>)
    | Pick(w: Tid)
    | Resume(w: Tid, spare: Fid)
    | YieldHold(w: Tid)
    | YieldReady(w: Tid)
    | PushBack(w: Tid)
    | Finish(w: Tid, ok: bool)
    | EnterIdle(w: Tid)
    | IdleCheck(w: Tid)
    | Stop

  // ---------- the pick ----------

  /** A worker may take an entry that is not pinned elsewhere and whose fiber is not executing. */
  predicate Eligible(e: Entry, w: Tid, fibers: map<Fid, FState>) {
    && (e.thread == ANY || e.thread == w)
    && (e.task.FiberTask? && e.task.f in fibers ==> fibers[e.task.f] != Exec)
  }

  function FirstEligible(q: seq<Entry>, w: Tid, fibers: map<Fid, FState>): (i: nat)
    ensures i <= |q|
    ensures forall j :: 0 <= j < i ==> !Eligible(q[j], w, fibers)
    ensures i < |q| ==> Eligible(q[i], w, fibers)
  {
    if q == [] then 0
    else if Eligible(q[0], w, fibers) then 0
    else 1 + FirstEligible(q[1..], w, fibers)
  }

  function Without(q: seq<Entry>, i: nat): (r: seq<Entry>)
    requires i < |q|
    ensures |r| == |q| - 1
    ensures forall j :: 0 <= j < |r| ==> r[j] == if j < i then q[j] else q[j + 1]
  {
    q[..i] + q[i + 1..]
  }

  /** The scan of run() under the lock: which entry is taken, what is left, and whether another
      worker should be woken. */
  method Scan(q: seq<Entry>, w: Tid, fibers: map<Fid, FState>)
    returns (picked: Option<Entry>, rest: seq<Entry>, tickle: bool)
    ensures var i := FirstEligible(q, w, fibers);
            && (i == |q| ==> picked == None && rest == q)
            && (i < |q| ==> picked == Some(q[i]) && rest == Without(q, i))
    ensures var i := FirstEligible(q, w, fibers);
            tickle <==> i + 1 < |q| || exists j :: 0 <= j < i && q[j].thread != ANY && q[j].thread != w
  {
    tickle := false;
    var it := 0;
    while it < |q|
      invariant 0 <= it <= |q|
      invariant forall j :: 0 <= j < it ==> !Eligible(q[j], w, fibers)
      invariant tickle <==> exists j :: 0 <= j < it && q[j].thread != ANY && q[j].thread != w
    {
      if q[it].thread != ANY && q[it].thread != w {
        it := it + 1;
        tickle := true;
        continue;
      }
      if q[it].task.FiberTask? && q[it].task.f in fibers && fibers[q[it].task.f] == Exec {
        it := it + 1;
        continue;
      }
      picked := Some(q[it]);
      rest := Without(q, it);
      FirstUnique(q, w, fibers, it);
      if it + 1 < |q| {
        tickle := true;
      }
      return;
    }
    picked, rest := None, q;
    FirstUnique(q, w, fibers, it);
  }

  lemma FirstUnique(q: seq<Entry>, w: Tid, fibers: map<Fid, FState>, i: nat)
    requires i <= |q| && (forall j :: 0 <= j < i ==> !Eligible(q[j], w, fibers))
    requires i < |q| ==> Eligible(q[i], w, fibers)
    ensures FirstEligible(q, w, fibers) == i
  {
  }

  // ---------- the machine ----------

  ghost predicate Queued(q: seq<Entry>, f: Fid) {
    exists i :: 0 <= i < |q| && q[i].task == FiberTask(f)
  }

  /** The fiber whose wake-up the worker itself carries. */
  function WakeOf(p: Phase): Option<Fid> {
    match p
    case Picked(e) => if e.task.FiberTask? then Some(e.task.f) else None
    case Requeue(f, _) => Some(f)
    case _ => None
  }

  /** The fiber executing on the worker. */
  function RunOf(p: Phase): Option<Fid> {
    if p.Running? then Some(p.f) else None
  }

  /** Someone is already going to resume the fiber. */
  ghost predicate Outstanding(s: State, f: Fid) {
    Queued(s.queue, f) || exists w :: w in s.workers && WakeOf(s.workers[w].phase) == Some(f)
  }

  /** The worker is in the middle of running its cb_fiber. */
  predicate InCb(p: Phase) {
    (p.Running? || p.Requeue?) && p.cb
  }

  /** A finished cb_fiber that some worker keeps for its next callback. */
  ghost predicate Cached(s: State, f: Fid) {
    exists w :: w in s.workers && s.workers[w].cbFiber == Some(f) && !InCb(s.workers[w].phase)
  }

  /** Counted in m_activeThreadCount. */
  predicate Busy(p: Phase) {
    p.Picked? || p.Running?
  }

  /** The worker will not look at the queue again. */
  predicate Committed(k: Worker) {
    k.phase.Left? || (k.phase.Empty? && k.idle == Term)
  }

  ghost predicate AllCommitted(s: State) {
    forall w :: w in s.workers ==> Committed(s.workers[w])
  }

  predicate Stopping(s: State) {
    s.stop && s.queue == [] && s.active == 0
  }

  predicate Runnable(st: FState) {
    st != Term && st != Except
  }

  /** Code of a fiber, the idle fiber included, is executing on the worker. */
  predicate Inside(p: Phase) {
    p.Running? || p.Idling?
  }

  predicate RunningOn(s: State, w: Tid) {
    w in s.workers && s.workers[w].phase.Running?
  }

  /** Where the worker that takes the step has to be. */
  ghost predicate Possible(s: State, st: Step) {
    match st
    case Spawn(f) => f !in s.fibers
    case Schedule(task, thread, caller) =>
      && (caller.Some? ==> caller.value in s.workers && Inside(s.workers[caller.value].phase))
      && (task.FiberTask? ==> task.f in s.fibers)
    case Pick(w) => w in s.workers && s.workers[w].phase.Loop?
    case Resume(w, spare) => w in s.workers && s.workers[w].phase.Picked? && spare !in s.fibers
    case YieldHold(w) => RunningOn(s, w)
    case YieldReady(w) => RunningOn(s, w)
    case PushBack(w) => w in s.workers && s.workers[w].phase.Requeue?
    case Finish(w, _) => RunningOn(s, w)
    case EnterIdle(w) => w in s.workers && s.workers[w].phase.Empty?
    case IdleCheck(w) => w in s.workers && s.workers[w].phase.Idling?
    case Stop => true
  }

  /** What the users of the scheduler owe it: a fiber is woken at most once per suspension. */
  ghost predicate WokenOnce(s: State, st: Step)
    requires Possible(s, st)
  {
    match st
    case Schedule(task, _, _) => task.FiberTask? ==> !Outstanding(s, task.f) && !Cached(s, task.f)
    case YieldReady(w) => !Outstanding(s, s.workers[w].phase.f)
    case Finish(w, _) => s.workers[w].phase.cb ==> !Outstanding(s, s.workers[w].phase.f)
    case _ => true
  }

  /** Nobody outside hands in an unpinned task once every worker is on its way out. */
  ghost predicate InTime(s: State, st: Step) {
    st.Schedule? && st.caller.None? && st.thread == ANY ==> !AllCommitted(s)
  }

  ghost predicate Enabled(s: State, st: Step) {
    Possible(s, st) && WokenOnce(s, st) && InTime(s, st)
  }

  function Push(s: State, task: Task, thread: Tid): State {
    var e := Entry(task, thread, |s.log|);
    s.(queue := s.queue + [e], log := s.log + [e])
  }

  function Put(s: State, w: Tid, k: Worker): State {
    s.(workers := s.workers[w := k])
  }

  function Next(s: State, st: Step): State
    requires Possible(s, st)
  {
    match st
    case Spawn(f) => s.(fibers := s.fibers[f := Init])
    case Schedule(task, thread, _) => Push(s, task, thread)
    case Pick(w) => NextPick(s, w)
    case Resume(w, spare) => NextResume(s, w, spare)
    case YieldHold(w) => NextHold(s, w)
    case YieldReady(w) => NextReady(s, w)
    case PushBack(w) => NextPushBack(s, w)
    case Finish(w, ok) => NextFinish(s, w, ok)
    case EnterIdle(w) => NextIdle(s, w)
    case IdleCheck(w) => NextIdleCheck(s, w)
    case Stop => s.(stop := true)
  }

  function NextPick(s: State, w: Tid): State
    requires w in s.workers
  {
    var k, i := s.workers[w], FirstEligible(s.queue, w, s.fibers);
    if i == |s.queue| then Put(s, w, k.(phase := Empty))
    else Put(s.(queue := Without(s.queue, i), active := s.active + 1, taken := s.taken + [(w, s.queue[i])]), w,
             k.(phase := Picked(s.queue[i])))
  }

  /** A fiber is entered unless it has ended; a callback enters the worker's own fiber. */
  function NextResume(s: State, w: Tid, spare: Fid): State
    requires w in s.workers && s.workers[w].phase.Picked?
  {
    var k := s.workers[w];
    match k.phase.e.task
    case FiberTask(f) =>
      if f in s.fibers && Runnable(s.fibers[f])
      then Put(s.(fibers := s.fibers[f := Exec]), w, k.(phase := Running(f, false)))
      else Put(s.(active := s.active - 1), w, k.(phase := Loop))
    case CbTask(_) =>
      var g := if k.cbFiber.Some? then k.cbFiber.value else spare;
      Put(s.(fibers := s.fibers[g := Exec]), w, k.(phase := Running(g, true), cbFiber := Some(g)))
  }

  function NextHold(s: State, w: Tid): State
    requires RunningOn(s, w)
  {
    var k := s.workers[w];
    Put(s.(fibers := s.fibers[k.phase.f := Hold], active := s.active - 1), w,
        k.(phase := Loop, cbFiber := if k.phase.cb then None else k.cbFiber))
  }

  function NextReady(s: State, w: Tid): State
    requires RunningOn(s, w)
  {
    var k := s.workers[w];
    Put(s.(fibers := s.fibers[k.phase.f := Ready], active := s.active - 1), w,
        k.(phase := Requeue(k.phase.f, k.phase.cb)))
  }

  function NextPushBack(s: State, w: Tid): State
    requires w in s.workers && s.workers[w].phase.Requeue?
  {
    var k := s.workers[w];
    Put(Push(s, FiberTask(k.phase.f), ANY), w,
        k.(phase := Loop, cbFiber := if k.phase.cb then None else k.cbFiber))
  }

  /** A finished cb_fiber is reset at once and kept for the next callback. */
  function NextFinish(s: State, w: Tid, ok: bool): State
    requires RunningOn(s, w)
  {
    var k := s.workers[w];
    var end := if k.phase.cb then Init else if ok then Term else Except;
    Put(s.(fibers := s.fibers[k.phase.f := end], active := s.active - 1), w, k.(phase := Loop))
  }

  /** With nothing to run, a worker whose idle fiber has ended leaves, any other one idles. */
  function NextIdle(s: State, w: Tid): State
    requires w in s.workers
  {
    var k := s.workers[w];
    Put(s, w, if k.idle == Term then k.(phase := Left) else k.(phase := Idling, idle := Exec))
  }

  /** The idle fiber ends when stopping() passes and yields otherwise. */
  function NextIdleCheck(s: State, w: Tid): State
    requires w in s.workers
  {
    var k := s.workers[w];
    Put(s, w, k.(phase := Loop, idle := if Stopping(s) then Term else Hold))
  }
}
