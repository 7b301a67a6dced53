/** The reactor put together: do_io calls on one IOManager, whose event table and timer set are the
    real ones. Every step is a step of EventTable, of Timers, or of both, and at the same time a run
    of DoIo; the two sides stay linked, so what DoIo proves of its slots and timers holds of the
    event contexts and the timer set. */
module Reactors {

  import opened Options
  import opened Words
  import E = EventTable
  import T = Timers
  import D = DoIo

  datatype Reactor = Reactor(io: E.IO, tm: T.TM, d: D.State)

  // ---------- slots are events of descriptors ----------

  function Slot(fd: nat, e: E.Event): nat {
    2 * fd + if e.READ? then 0 else 1
  }

  function FdOf(slot: nat): nat {
    slot / 2
  }

  function EventOf(slot: nat): E.Event {
    if slot % 2 == 0 then E.READ else E.WRITE
  }

  lemma SlotInverse(fd: nat, e: E.Event, slot: nat)
    ensures FdOf(Slot(fd, e)) == fd && EventOf(Slot(fd, e)) == e
    ensures Slot(FdOf(slot), EventOf(slot)) == slot
  {
  }

  function SlotOf(g: E.Reg): nat {
    Slot(g.fd, g.event)
  }

  /** The waiting registrations are exactly the slots, each with its call's fiber. */
  predicate SlotsLinked(regs: seq<E.Reg>, slots: map<nat, nat>) {
    && (forall r :: 0 <= r < |regs| && regs[r].fate.Waiting? ==>
                      SlotOf(regs[r]) in slots && regs[r].task == E.FiberTask(slots[SlotOf(regs[r])]))
    && (forall slot :: slot in slots ==> Waits(regs, slot))
  }

  predicate Waits(regs: seq<E.Reg>, slot: nat) {
    exists r :: 0 <= r < |regs| && regs[r].fate.Waiting? && SlotOf(regs[r]) == slot
  }

  /** The timers in the set are exactly the live timers, each with its call's callback. */
  ghost predicate TimersLinked(tm: T.TM, d: D.State) {
    && tm.recs.Keys == d.owner.Keys
    && (forall a :: a in tm.order <==> a in d.timers)
    && (forall a :: a in tm.recs ==> !tm.recs[a].recurring)
    && (forall a :: a in d.timers && a in d.owner && a in tm.recs ==> tm.recs[a].cb == Some(d.owner[a]))
  }

  predicate CallsInRange(d: D.State) {
    forall c :: c in d.calls ==> FdOf(d.calls[c].slot) < E.MAX_FD
  }

  ghost predicate Linked(r: Reactor) {
    && E.Inv(r.io) && T.Valid(r.tm) && D.Inv(r.d)
    && SlotsLinked(r.io.regs, r.d.slots) && TimersLinked(r.tm, r.d) && CallsInRange(r.d)
  }

  // ---------- steps ----------

  datatype Step =
    | Begin(c: nat, fd: nat, e: E.Event, finite: bool)
    | Block(c: nat, a: T.Addr, ms: u64, now: u64)   // the call would block: addConditionTimer
    | Register(c: nat, ok: bool)                    // addEvent, and the yield when it succeeds
    | Report(fd: nat, report: E.Report, ok: bool)   // the idle loop handles a readiness report
    | Expire(now: u64)                              // the idle loop hands out expired timers
    | Callback(c: nat, ok: bool)                    // a queued timer callback runs
    | Resume(c: nat)
    | Return(c: nat)

  function Fd(r: Reactor, c: nat): nat
    requires c in r.d.calls
  {
    FdOf(r.d.calls[c].slot)
  }

  function Ev(r: Reactor, c: nat): E.Event
    requires c in r.d.calls
  {
    EventOf(r.d.calls[c].slot)
  }

  /** The step can be taken, and no assert in the event table fails in it. */
  ghost predicate Possible(r: Reactor, st: Step)
    requires Linked(r)
  {
    match st
    case Begin(c, fd, _, _) => c !in r.d.used && fd < E.MAX_FD
    case Block(c, a, _, _) => c in r.d.calls && r.d.calls[c].phase == D.Running && a !in r.tm.recs
    case Register(c, ok) =>
      && c in r.d.calls && r.d.calls[c].phase == D.Armed
      && E.AddEvent(r.io, Fd(r, c), Ev(r, c), E.FiberTask(c), 0, ok).1.Returned?
    case Report(fd, report, ok) => fd < |r.io.ctxs| && E.Ready(r.io, fd, report, ok).1.Returned?
    case Expire(_) => true
    case Callback(c, _) => r.d.fired[c] > 0
    case Resume(c) => r.d.woken[c] > 0 && c in r.d.calls && r.d.calls[c].phase == D.Parked
    case Return(c) => c in r.d.calls && r.d.calls[c].phase == D.Running
  }

  /** What a report wakes: what is waited for and reported, when epoll_ctl succeeds. */
  function Woken(io: E.IO, fd: nat, report: E.Report, ok: bool): E.Mask
    requires fd < |io.ctxs|
  {
    var events := io.ctxs[fd].events;
    if ok then E.And(events, E.Seen(report, events)) else E.NONE
  }

  function ReadySteps(fd: nat, mask: E.Mask): seq<D.Step> {
    (if mask.read then [D.Ready(Slot(fd, E.READ))] else []) + (if mask.write then [D.Ready(Slot(fd, E.WRITE))] else [])
  }

  function ExpireSteps(expired: seq<T.Addr>): (s: seq<D.Step>)
    ensures |s| == |expired| && forall i :: 0 <= i < |s| ==> s[i] == D.Expire(expired[i])
  {
    seq(|expired|, i requires 0 <= i < |expired| => D.Expire(expired[i]))
  }

  /** The step as DoIo sees it. */
  function Trace(r: Reactor, st: Step): seq<D.Step>
    requires Linked(r) && Possible(r, st)
  {
    match st
    case Begin(c, fd, e, finite) => [D.Begin(c, Slot(fd, e), finite)]
    case Block(c, a, _, _) => [D.AddTimer(c, a)]
    case Register(c, ok) => [if ok then D.AddEvent(c) else D.AddEventFails(c)]
    case Report(fd, report, ok) => ReadySteps(fd, Woken(r.io, fd, report, ok))
    case Expire(now) => ExpireSteps(r.tm.order[..T.Taken(r.tm, now)])
    case Callback(c, ok) => [D.RunTimer(c, ok)]
    case Resume(c) => [D.Resume(c)]
    case Return(c) => [D.Return(c)]
  }

  /** The step as the event table sees it. */
  function NextIO(r: Reactor, st: Step): E.IO
    requires Linked(r) && Possible(r, st)
  {
    match st
    case Register(c, ok) => E.AddEvent(r.io, Fd(r, c), Ev(r, c), E.FiberTask(c), 0, ok).0
    case Report(fd, report, ok) => E.Ready(r.io, fd, report, ok).0
    case Callback(c, ok) =>
      if c in r.d.calls && !r.d.calls[c].cancelled then E.Remove(r.io, Fd(r, c), Ev(r, c), true, ok).0 else r.io
    case _ => r.io
  }

  function CancelOwn(r: Reactor, c: nat): T.TM
    requires Linked(r) && c in r.d.calls
  {
    var t := r.d.calls[c].timer;
    if t.Some? && t.value in r.tm.recs then T.Cancel(r.tm, t.value) else r.tm
  }

  /** The step as the timer set sees it. */
  function NextTM(r: Reactor, st: Step): T.TM
    requires Linked(r) && Possible(r, st)
  {
    match st
    case Block(c, a, ms, now) => if r.d.calls[c].finite then T.Add(r.tm, a, ms, Some(c), false, now) else r.tm
    case Register(c, ok) => if ok then r.tm else CancelOwn(r, c)
    case Expire(now) => T.ListExpired(r.tm, now)
    case Resume(c) => CancelOwn(r, c)
    case _ => r.tm
  }

  function Next(r: Reactor, st: Step): Reactor
    requires Linked(r) && Possible(r, st) && D.IsRun(r.d, Trace(r, st))
  {
    Reactor(NextIO(r, st), NextTM(r, st), D.Last(r.d, Trace(r, st)))
  }

  // ---------- the link is kept ----------

  lemma OneStep(d: D.State, x: D.Step)
    requires D.Enabled(d, x)
    ensures D.IsRun(d, [x]) && D.Last(d, [x]) == D.Next(d, x)
  {
    hide D.Next, D.Enabled;
    assert [x][1..] == [];
  }

  /** A bit of the event table is set exactly when its slot is taken. */
  lemma BitIffSlot(r: Reactor, fd: nat, e: E.Event)
    requires Linked(r)
    ensures Slot(fd, e) in r.d.slots <==> fd < |r.io.ctxs| && E.Has(r.io.ctxs[fd].events, e)
  {
    hide E.TotalBits, E.Tally, E.KernelAgrees, D.Inv, T.Valid;
    if Slot(fd, e) in r.d.slots {
      var k :| 0 <= k < |r.io.regs| && r.io.regs[k].fate.Waiting? && SlotOf(r.io.regs[k]) == Slot(fd, e);
      SlotInverse(fd, e, 0);
      SlotInverse(r.io.regs[k].fd, r.io.regs[k].event, 0);
      assert E.Placed(r.io.ctxs, r.io.queue, r.io.regs, k);
    }
    if fd < |r.io.ctxs| && E.Has(r.io.ctxs[fd].events, e) {
      assert E.Held(r.io.ctxs, r.io.regs, fd, e);
    }
  }

  lemma BeginLinks(r: Reactor, c: nat, fd: nat, e: E.Event, finite: bool)
    requires Linked(r) && Possible(r, Begin(c, fd, e, finite))
    ensures var st := Begin(c, fd, e, finite); D.IsRun(r.d, Trace(r, st)) && Linked(Next(r, st))
  {
    hide E.Inv, T.Valid, D.Inv;
    var x := D.Begin(c, Slot(fd, e), finite);
    OneStep(r.d, x);
    D.NextKept(r.d, x);
    SlotInverse(fd, e, 0);
  }

  lemma ReturnLinks(r: Reactor, c: nat)
    requires Linked(r) && Possible(r, Return(c))
    ensures D.IsRun(r.d, Trace(r, Return(c))) && Linked(Next(r, Return(c)))
  {
    hide E.Inv, T.Valid, D.Inv;
    OneStep(r.d, D.Return(c));
    D.NextKept(r.d, D.Return(c));
  }

  lemma BlockLinks(r: Reactor, c: nat, a: T.Addr, ms: u64, now: u64)
    requires Linked(r) && Possible(r, Block(c, a, ms, now))
    ensures var st := Block(c, a, ms, now); D.IsRun(r.d, Trace(r, st)) && Linked(Next(r, st))
  {
    hide E.Inv, T.Valid, D.Inv, T.Add, SlotsLinked;
    OneStep(r.d, D.AddTimer(c, a));
    D.NextKept(r.d, D.AddTimer(c, a));
    T.AddValid(r.tm, a, ms, Some(c), false, now);
  }

  /** Cancelling the call's own timer takes exactly that one out. */
  lemma CancelLinks(r: Reactor, c: nat)
    requires Linked(r) && c in r.d.calls
    ensures var t := CancelOwn(r, c);
            && T.Valid(t) && t.recs.Keys == r.tm.recs.Keys
            && (forall a :: a in t.recs ==> !t.recs[a].recurring)
            && (forall a :: a in t.order <==> a in D.CancelTimer(r.d, c).timers)
            && (forall a :: a in D.CancelTimer(r.d, c).timers && a in t.recs ==> t.recs[a] == r.tm.recs[a])
  {
    hide E.Inv, D.Inv, T.Cancel;
    var t := r.d.calls[c].timer;
    assert t.Some? ==> t.value in r.d.owner by { assert D.CallOk(r.d, c) by { OwnOk(r.d, c); } }
    if t.Some? { T.CancelValid(r.tm, t.value); }
  }

  lemma OwnOk(d: D.State, c: nat)
    requires D.Inv(d) && c in d.calls
    ensures D.CallOk(d, c)
  {
  }

  /** No call was added, and none changed its descriptor or event. */
  ghost predicate NoNewCalls(d: D.State, n: D.State) {
    && n.calls.Keys <= d.calls.Keys && n.owner == d.owner
    && forall c :: c in n.calls ==> n.calls[c].slot == d.calls[c].slot
  }

  lemma ResumeStep(d: D.State, c: nat)
    requires D.Enabled(d, D.Resume(c))
    ensures var n := D.Next(d, D.Resume(c));
            n.slots == d.slots && n.timers == D.CancelTimer(d, c).timers && NoNewCalls(d, n)
  {
    hide D.Finish, D.CancelTimer;
    var d1 := d.(woken := d.woken - multiset{c});
    CancelEffect(d1, c);
    CancelEffect(d, c);
    FinishEffect(D.CancelTimer(d1, c), c);
  }

  lemma CancelEffect(d: D.State, c: nat)
    requires c in d.calls
    ensures var n := D.CancelTimer(d, c);
            && n.calls == d.calls && n.slots == d.slots && n.owner == d.owner
            && n.timers == if d.calls[c].timer.Some? then d.timers - {d.calls[c].timer.value} else d.timers
  {
  }

  lemma FinishEffect(d: D.State, c: nat)
    requires c in d.calls
    ensures forall out :: var n := D.Finish(d, c, out);
                          n.calls == d.calls - {c} && n.slots == d.slots && n.owner == d.owner && n.timers == d.timers
  {
  }

  lemma ResumeLinks(r: Reactor, c: nat)
    requires Linked(r) && Possible(r, Resume(c))
    ensures D.IsRun(r.d, Trace(r, Resume(c))) && Linked(Next(r, Resume(c)))
  {
    hide E.Inv, T.Valid, D.Inv, CancelOwn, SlotsLinked, D.Next;
    OneStep(r.d, D.Resume(c));
    D.NextKept(r.d, D.Resume(c));
    ResumeStep(r.d, c);
    CancelLinks(r, c);
  }

  lemma SlotsAdded(regs: seq<E.Reg>, slots: map<nat, nat>, g: E.Reg, c: nat)
    requires SlotsLinked(regs, slots) && SlotOf(g) !in slots && g.fate.Waiting? && g.task == E.FiberTask(c)
    ensures SlotsLinked(regs + [g], slots[SlotOf(g) := c])
  {
    var all := regs + [g];
    forall slot | slot in slots[SlotOf(g) := c] ensures Waits(all, slot) {
      if slot == SlotOf(g) {
        assert all[|regs|] == g;
      } else {
        var r :| 0 <= r < |regs| && regs[r].fate.Waiting? && SlotOf(regs[r]) == slot;
        assert all[r] == regs[r];
      }
    }
  }

  lemma RegisterLinks(r: Reactor, c: nat, ok: bool)
    requires Linked(r) && Possible(r, Register(c, ok))
    ensures D.IsRun(r.d, Trace(r, Register(c, ok))) && Linked(Next(r, Register(c, ok)))
  {
    hide E.Inv, T.Valid, D.Inv, CancelOwn, E.AddEvent, SlotsLinked;
    var fd, e := Fd(r, c), Ev(r, c);
    SlotInverse(fd, e, r.d.calls[c].slot);
    E.AddEventExact(r.io, fd, e, E.FiberTask(c), 0, ok);
    BitIffSlot(r, fd, e);
    var x := if ok then D.AddEvent(c) else D.AddEventFails(c);
    OneStep(r.d, x);
    D.NextKept(r.d, x);
    if ok {
      SlotsAdded(r.io.regs, r.d.slots, E.Reg(fd, e, 0, E.FiberTask(c), E.Waiting), c);
    } else {
      CancelLinks(r, c);
      assert r.io.regs + [] == r.io.regs;
    }
  }

  function MaskSlots(fd: nat, mask: E.Mask): set<nat> {
    (if mask.read then {Slot(fd, E.READ)} else {}) + (if mask.write then {Slot(fd, E.WRITE)} else {})
  }

  /** Settling the events of a mask frees exactly their slots. */
  lemma SlotsSettled(io: E.IO, t: E.IO, slots: map<nat, nat>, fd: nat, mask: E.Mask)
    requires SlotsLinked(io.regs, slots) && E.Settled(io, t, fd, mask, true)
    ensures SlotsLinked(t.regs, slots - MaskSlots(fd, mask))
  {
    forall r | 0 <= r < |io.regs|
      ensures SlotOf(io.regs[r]) in MaskSlots(fd, mask) <==> io.regs[r].fd == fd && E.Has(mask, io.regs[r].event)
    {
      SlotInverse(io.regs[r].fd, io.regs[r].event, 0);
      SlotInverse(fd, io.regs[r].event, 0);
    }
    forall slot | slot in slots - MaskSlots(fd, mask) ensures Waits(t.regs, slot) {
      var r :| 0 <= r < |io.regs| && io.regs[r].fate.Waiting? && SlotOf(io.regs[r]) == slot;
      assert t.regs[r] == io.regs[r];
    }
  }

  lemma Owners(d: D.State)
    requires D.Inv(d)
    ensures D.SlotsOk(d)
  {
  }

  lemma CallbackStep(d: D.State, c: nat, ok: bool)
    requires D.SlotsOk(d) && D.Enabled(d, D.RunTimer(c, ok))
    ensures var n, acts := D.Next(d, D.RunTimer(c, ok)), c in d.calls && !d.calls[c].cancelled && ok;
            && n.slots == (if acts then d.slots - {d.calls[c].slot} else d.slots)
            && n.timers == d.timers && NoNewCalls(d, n)
  {
    hide D.Trigger, NoNewCalls;
    if c in d.calls && !d.calls[c].cancelled {
      Flagging(d, c, ok);
      TriggerEffect(D.Flagged(d, c, false), d.calls[c].slot);
      NoNewTwice(d, D.Flagged(d, c, false), D.Trigger(D.Flagged(d, c, false), d.calls[c].slot));
    } else {
      SameIsNoNew(d, D.Next(d, D.RunTimer(c, ok)));
    }
  }

  lemma Flagging(d: D.State, c: nat, ok: bool)
    requires D.SlotsOk(d) && c in d.calls
    ensures D.SlotsOk(D.Flagged(d, c, false))
    ensures forall lost :: NoNewCalls(d, D.Flagged(d, c, lost))
  {
  }

  lemma TriggerEffect(d: D.State, slot: nat)
    requires D.SlotsOk(d)
    ensures var n := D.Trigger(d, slot); n.slots == d.slots - {slot} && n.timers == d.timers && NoNewCalls(d, n)
  {
    if slot !in d.slots { assert d.slots - {slot} == d.slots; }
  }

  lemma NoNewTwice(d: D.State, m: D.State, n: D.State)
    requires NoNewCalls(d, m) && NoNewCalls(m, n)
    ensures NoNewCalls(d, n)
  {
  }

  lemma SameIsNoNew(d: D.State, n: D.State)
    requires n.calls == d.calls && n.owner == d.owner
    ensures NoNewCalls(d, n)
  {
  }

  lemma CallbackLinks(r: Reactor, c: nat, ok: bool)
    requires Linked(r) && Possible(r, Callback(c, ok))
    ensures D.IsRun(r.d, Trace(r, Callback(c, ok))) && Linked(Next(r, Callback(c, ok)))
  {
    hide E.Inv, T.Valid, D.Inv, E.Remove, SlotsLinked, E.Settled, D.Next;
    OneStep(r.d, D.RunTimer(c, ok));
    D.NextKept(r.d, D.RunTimer(c, ok));
    Owners(r.d);
    CallbackStep(r.d, c, ok);
    if c in r.d.calls && !r.d.calls[c].cancelled {
      var fd, e := Fd(r, c), Ev(r, c);
      SlotInverse(fd, e, r.d.calls[c].slot);
      BitIffSlot(r, fd, e);
      E.RemoveExact(r.io, fd, e, true, ok);
      var t := E.Remove(r.io, fd, e, true, ok).0;
      if Slot(fd, e) in r.d.slots && ok {
        SlotsSettled(r.io, t, r.d.slots, fd, E.With(E.NONE, e));
        assert MaskSlots(fd, E.With(E.NONE, e)) == {Slot(fd, e)};
      } else {
        assert r.d.slots - {Slot(fd, e)} == r.d.slots || !ok;
      }
    }
  }

  /** What runs of Ready and Expire steps leave alone. */
  ghost predicate SameCalls(d: D.State, n: D.State) {
    && n.calls.Keys == d.calls.Keys && n.owner == d.owner && n.woken >= d.woken
    && forall c :: c in d.calls ==> n.calls[c].slot == d.calls[c].slot && n.calls[c].phase == d.calls[c].phase
  }

  lemma ReadyStep(d: D.State, slot: nat)
    requires D.Inv(d) && slot in d.slots
    ensures D.Enabled(d, D.Ready(slot))
    ensures var n := D.Next(d, D.Ready(slot));
            D.Inv(n) && n.slots == d.slots - {slot} && n.timers == d.timers && SameCalls(d, n)
  {
    D.NextKept(d, D.Ready(slot));
  }

  lemma ReadyRun(d: D.State, fd: nat, mask: E.Mask)
    requires D.Inv(d) && MaskSlots(fd, mask) <= d.slots.Keys
    ensures D.IsRun(d, ReadySteps(fd, mask))
    ensures var n := D.Last(d, ReadySteps(fd, mask));
            D.Inv(n) && n.slots == d.slots - MaskSlots(fd, mask) && n.timers == d.timers && SameCalls(d, n)
  {
    hide D.Inv, D.Next, D.Enabled;
    var a, b := Slot(fd, E.READ), Slot(fd, E.WRITE);
    var d1 := d;
    if mask.read {
      ReadyStep(d, a);
      OneStep(d, D.Ready(a));
      d1 := D.Next(d, D.Ready(a));
    }
    if mask.write {
      ReadyStep(d1, b);
      OneStep(d1, D.Ready(b));
    }
    if mask.read && mask.write {
      assert ReadySteps(fd, mask)[1..] == [D.Ready(b)];
    }
  }

  lemma ReportLinks(r: Reactor, fd: nat, report: E.Report, ok: bool)
    requires Linked(r) && Possible(r, Report(fd, report, ok))
    ensures D.IsRun(r.d, Trace(r, Report(fd, report, ok))) && Linked(Next(r, Report(fd, report, ok)))
  {
    hide E.Inv, T.Valid, D.Inv, E.Ready, SlotsLinked, E.Settled, D.IsRun, D.Last;
    var mask := Woken(r.io, fd, report, ok);
    var seen := E.Seen(report, r.io.ctxs[fd].events);
    BitIffSlot(r, fd, E.READ);
    BitIffSlot(r, fd, E.WRITE);
    E.ReadyExact(r.io, fd, report, ok);
    ReadyRun(r.d, fd, mask);
    if ok && seen != E.NONE {
      SlotsSettled(r.io, E.Ready(r.io, fd, report, ok).0, r.d.slots, fd, seen);
      assert r.d.slots - MaskSlots(fd, seen) == r.d.slots - MaskSlots(fd, mask);
    } else {
      assert r.d.slots - MaskSlots(fd, mask) == r.d.slots;
    }
  }

  lemma ExpireStep(d: D.State, a: nat)
    requires D.Inv(d) && a in d.timers
    ensures D.Enabled(d, D.Expire(a))
    ensures var n := D.Next(d, D.Expire(a));
            D.Inv(n) && n.slots == d.slots && n.timers == d.timers - {a} && SameCalls(d, n)
  {
    D.NextKept(d, D.Expire(a));
  }

  lemma {:induction false} ExpireRun(d: D.State, expired: seq<T.Addr>)
    requires D.Inv(d) && forall i :: 0 <= i < |expired| ==> expired[i] in d.timers
    requires forall i, j :: 0 <= i < j < |expired| ==> expired[i] != expired[j]
    ensures D.IsRun(d, ExpireSteps(expired))
    ensures var n := D.Last(d, ExpireSteps(expired));
            && D.Inv(n) && n.slots == d.slots && SameCalls(d, n)
            && (forall a :: a in n.timers <==> a in d.timers && a !in expired)
    decreases |expired|
  {
    hide D.Inv, D.Next, D.Enabled;
    if expired != [] {
      ExpireStep(d, expired[0]);
      var n := D.Next(d, D.Expire(expired[0]));
      ExpireRun(n, expired[1..]);
      assert ExpireSteps(expired)[1..] == ExpireSteps(expired[1..]);
      assert forall a :: a in expired <==> a == expired[0] || a in expired[1..];
    }
  }

  lemma ExpireLinks(r: Reactor, now: u64)
    requires Linked(r) && Possible(r, Expire(now))
    ensures D.IsRun(r.d, Trace(r, Expire(now))) && Linked(Next(r, Expire(now)))
  {
    hide E.Inv, D.Inv, SlotsLinked, T.ListExpired, T.Taken, D.IsRun, D.Last;
    var out := r.tm.order[..T.Taken(r.tm, now)];
    forall i, j | 0 <= i < j < |out| ensures out[i] != out[j] {
      assert T.Less(r.tm.recs, r.tm.order[i], r.tm.order[j]);
    }
    ExpireRun(r.d, out);
    if r.tm.order != [] { T.ListExpiredExact(r.tm, now); } else { NothingExpires(r.tm, now); }
  }

  lemma NothingExpires(tm: T.TM, now: u64)
    requires T.Valid(tm) && tm.order == []
    ensures T.ListExpired(tm, now) == tm
  {
  }

  /** Every step of the reactor is a run of DoIo, and leaves the two sides linked. */
  lemma StepLinks(r: Reactor, st: Step)
    requires Linked(r) && Possible(r, st)
    ensures D.IsRun(r.d, Trace(r, st)) && Linked(Next(r, st))
  {
    hide Linked, Possible, D.IsRun;
    match st
    case Begin(c, fd, e, finite) => BeginLinks(r, c, fd, e, finite);
    case Block(c, a, ms, now) => BlockLinks(r, c, a, ms, now);
    case Register(c, ok) => RegisterLinks(r, c, ok);
    case Report(fd, report, ok) => ReportLinks(r, fd, report, ok);
    case Expire(now) => ExpireLinks(r, now);
    case Callback(c, ok) => CallbackLinks(r, c, ok);
    case Resume(c) => ResumeLinks(r, c);
    case Return(c) => ReturnLinks(r, c);
  }

  // ---------- runs ----------

  ghost predicate IsRun(r: Reactor, run: seq<Step>)
    requires Linked(r)
    decreases |run|
  {
    run == [] ||
    (Possible(r, run[0]) && (StepLinks(r, run[0]); IsRun(Next(r, run[0]), run[1..])))
  }

  ghost function Last(r: Reactor, run: seq<Step>): (t: Reactor)
    requires Linked(r) && IsRun(r, run)
    ensures Linked(t)
    decreases |run|
  {
    if run == [] then r else
    StepLinks(r, run[0]);
    Last(Next(r, run[0]), run[1..])
  }

  /** The whole run as DoIo sees it. */
  ghost function Traces(r: Reactor, run: seq<Step>): seq<D.Step>
    requires Linked(r) && IsRun(r, run)
    decreases |run|
  {
    if run == [] then [] else
    StepLinks(r, run[0]);
    Trace(r, run[0]) + Traces(Next(r, run[0]), run[1..])
  }

  lemma {:induction false} RunsJoin(d: D.State, a: seq<D.Step>, b: seq<D.Step>)
    requires D.IsRun(d, a) && D.IsRun(D.Last(d, a), b)
    ensures D.IsRun(d, a + b) && D.Last(d, a + b) == D.Last(D.Last(d, a), b)
    ensures D.OneWorker(d, a) && D.OneWorker(D.Last(d, a), b) ==> D.OneWorker(d, a + b)
    decreases |a|
  {
    hide D.Next, D.Enabled, D.Alone;
    if a == [] {
      assert a + b == b;
    } else {
      assert (a + b)[1..] == a[1..] + b;
      RunsJoin(D.Next(d, a[0]), a[1..], b);
    }
  }

  /** Every run of the reactor is a run of DoIo to the same state. */
  lemma {:induction false} RunProjects(r: Reactor, run: seq<Step>)
    requires Linked(r) && IsRun(r, run)
    ensures D.IsRun(r.d, Traces(r, run)) && D.Last(r.d, Traces(r, run)) == Last(r, run).d
    decreases |run|
  {
    if run != [] {
      hide Linked, Possible, D.IsRun, D.Last;
      StepLinks(r, run[0]);
      RunProjects(Next(r, run[0]), run[1..]);
      RunsJoin(r.d, Trace(r, run[0]), Traces(Next(r, run[0]), run[1..]));
    }
  }

  // ---------- one worker ----------

  predicate Inside(st: Step, c: nat) {
    (st.Block? || st.Register? || st.Return?) && st.c == c
  }

  /** One worker: while a call is not parked, only it takes steps. */
  predicate Alone(d: D.State, st: Step) {
    forall c :: c in d.calls && d.calls[c].phase != D.Parked ==> Inside(st, c)
  }

  predicate AllParked(d: D.State) {
    forall c :: c in d.calls ==> d.calls[c].phase == D.Parked
  }

  lemma ParkedAlone(d: D.State, x: D.Step)
    requires AllParked(d)
    ensures D.Alone(d, x)
  {
  }

  lemma OneStepAlone(d: D.State, x: D.Step)
    requires D.Enabled(d, x) && D.IsRun(d, [x]) && D.Alone(d, x)
    ensures D.OneWorker(d, [x])
  {
    hide D.Next, D.Enabled, D.Alone;
    assert [x][1..] == [];
  }

  lemma ReadyAlone(d: D.State, fd: nat, mask: E.Mask)
    requires D.Inv(d) && MaskSlots(fd, mask) <= d.slots.Keys && AllParked(d)
    requires D.IsRun(d, ReadySteps(fd, mask))
    ensures D.OneWorker(d, ReadySteps(fd, mask))
  {
    hide D.Inv, D.Next, D.Enabled, D.Alone;
    var a, b := Slot(fd, E.READ), Slot(fd, E.WRITE);
    var d1 := d;
    if mask.read {
      ReadyStep(d, a);
      ParkedAlone(d, D.Ready(a));
      d1 := D.Next(d, D.Ready(a));
    }
    if mask.write {
      ReadyStep(d1, b);
      OneStep(d1, D.Ready(b));
      ParkedAlone(d1, D.Ready(b));
      OneStepAlone(d1, D.Ready(b));
    }
    if mask.read {
      assert ReadySteps(fd, mask)[1..] == if mask.write then [D.Ready(b)] else [];
    }
  }

  lemma {:induction false} ExpireAlone(d: D.State, expired: seq<T.Addr>)
    requires D.Inv(d) && forall i :: 0 <= i < |expired| ==> expired[i] in d.timers
    requires forall i, j :: 0 <= i < j < |expired| ==> expired[i] != expired[j]
    requires AllParked(d) && D.IsRun(d, ExpireSteps(expired))
    ensures D.OneWorker(d, ExpireSteps(expired))
    decreases |expired|
  {
    hide D.Inv, D.Next, D.Enabled, D.Alone;
    if expired != [] {
      ExpireStep(d, expired[0]);
      ParkedAlone(d, D.Expire(expired[0]));
      assert ExpireSteps(expired)[1..] == ExpireSteps(expired[1..]);
      ExpireAlone(D.Next(d, D.Expire(expired[0])), expired[1..]);
    }
  }

  lemma TraceAlone(r: Reactor, st: Step)
    requires Linked(r) && Possible(r, st) && Alone(r.d, st) && D.IsRun(r.d, Trace(r, st))
    ensures D.OneWorker(r.d, Trace(r, st))
  {
    hide E.Inv, T.Valid, D.Inv, D.Next, D.Enabled, D.IsRun, D.OneWorker;
    if st.Report? {
      BitIffSlot(r, st.fd, E.READ);
      BitIffSlot(r, st.fd, E.WRITE);
      ReadyAlone(r.d, st.fd, Woken(r.io, st.fd, st.report, st.ok));
    } else if st.Expire? {
      OutDistinct(r, st.now);
      ExpireAlone(r.d, r.tm.order[..T.Taken(r.tm, st.now)]);
    } else {
      var x := Trace(r, st)[0];
      assert Trace(r, st) == [x];
      assert D.Enabled(r.d, x) by { SingleEnabled(r.d, x); }
      OneStepAlone(r.d, x);
    }
  }

  lemma SingleEnabled(d: D.State, x: D.Step)
    requires D.IsRun(d, [x])
    ensures D.Enabled(d, x)
  {
  }

  lemma OutDistinct(r: Reactor, now: u64)
    requires Linked(r)
    ensures var out := r.tm.order[..T.Taken(r.tm, now)];
            && (forall i :: 0 <= i < |out| ==> out[i] in r.d.timers)
            && (forall i, j :: 0 <= i < j < |out| ==> out[i] != out[j])
  {
    hide E.Inv, D.Inv, T.Taken;
    var out := r.tm.order[..T.Taken(r.tm, now)];
    forall i, j | 0 <= i < j < |out| ensures out[i] != out[j] {
      assert T.Less(r.tm.recs, r.tm.order[i], r.tm.order[j]);
    }
  }

  ghost predicate OneWorker(r: Reactor, run: seq<Step>)
    requires Linked(r) && IsRun(r, run)
    decreases |run|
  {
    run == [] ||
    (Alone(r.d, run[0]) && (StepLinks(r, run[0]); OneWorker(Next(r, run[0]), run[1..])))
  }

  /** epoll_ctl refuses no timer callback. */
  predicate Accepted(run: seq<Step>) {
    forall i :: 0 <= i < |run| && run[i].Callback? ==> run[i].ok
  }

  lemma {:induction false} RunAlone(r: Reactor, run: seq<Step>)
    requires Linked(r) && IsRun(r, run) && OneWorker(r, run) && Accepted(run)
    ensures D.IsRun(r.d, Traces(r, run)) && D.OneWorker(r.d, Traces(r, run)) && D.Accepted(Traces(r, run))
    decreases |run|
  {
    hide Linked, Possible, Alone, Trace, Next, NextIO, NextTM, D.IsRun, D.Last, D.OneWorker, D.Accepted;
    if run != [] {
      StepLinks(r, run[0]);
      var n := Next(r, run[0]);
      LastOfNext(r, run[0]);
      assert Accepted(run[1..]) && (run[0].Callback? ==> run[0].ok);
      RunAlone(n, run[1..]);
      TraceAlone(r, run[0]);
      TraceAccepted(r, run[0]);
      RunsJoin(r.d, Trace(r, run[0]), Traces(n, run[1..]));
      AcceptedJoin(Trace(r, run[0]), Traces(n, run[1..]));
    } else {
      Nothing(r.d);
    }
  }

  lemma LastOfNext(r: Reactor, st: Step)
    requires Linked(r) && Possible(r, st) && D.IsRun(r.d, Trace(r, st))
    ensures Next(r, st).d == D.Last(r.d, Trace(r, st))
  {
    hide Linked, Possible, Trace, D.IsRun;
  }

  lemma TraceAccepted(r: Reactor, st: Step)
    requires Linked(r) && Possible(r, st) && (st.Callback? ==> st.ok)
    ensures D.Accepted(Trace(r, st))
  {
    hide Linked;
  }

  lemma AcceptedJoin(a: seq<D.Step>, b: seq<D.Step>)
    requires D.Accepted(a) && D.Accepted(b)
    ensures D.Accepted(a + b)
  {
  }

  lemma Nothing(d: D.State)
    ensures D.IsRun(d, []) && D.OneWorker(d, []) && D.Accepted([])
  {
  }

  // ---------- the result ----------

  ghost predicate Start(r: Reactor) {
    E.Started(r.io) && r.tm.recs == map[] && r.tm.order == [] && r.d == D.START
  }

  lemma StartLinked(r: Reactor)
    requires Start(r)
    ensures Linked(r)
  {
    E.StartAgrees(r.io);
  }

  /** A one-shot timer in the set carries the call's callback, and a poller that reads the clock now
      is not told to sleep past it. */
  ghost predicate Timed(tm: T.TM, c: nat)
    requires T.Valid(tm)
  {
    exists a :: && a in tm.order && a in tm.recs && tm.recs[a].cb == Some(c) && !tm.recs[a].recurring
                && forall now: u64 :: now + T.NextTimer(tm, now) <= tm.recs[a].next || T.NextTimer(tm, now) == 0
  }

  /** The call's fiber waits in the event context of its descriptor. */
  ghost predicate InTable(r: Reactor, c: nat)
    requires c in r.d.calls
  {
    && Fd(r, c) < |r.io.ctxs| && E.Has(r.io.ctxs[Fd(r, c)].events, Ev(r, c))
    && E.Filled(E.Get(r.io.ctxs[Fd(r, c)], Ev(r, c)))
    && E.TaskOf(E.Get(r.io.ctxs[Fd(r, c)], Ev(r, c))) == E.FiberTask(c)
  }

  lemma TimerStands(r: Reactor, c: nat)
    requires Linked(r) && c in r.d.calls && D.Live(r.d, c)
    ensures Timed(r.tm, c)
  {
    hide E.Inv;
    assert D.CallOk(r.d, c);
    var a := r.d.calls[c].timer.value;
    assert a in r.tm.order && a in r.tm.recs && r.tm.recs[a].cb == Some(c);
    forall now: u64 ensures now + T.NextTimer(r.tm, now) <= r.tm.recs[a].next || T.NextTimer(r.tm, now) == 0 {
      T.NextTimerExact(r.tm, now);
    }
  }

  lemma TableHolds(r: Reactor, c: nat)
    requires Linked(r) && c in r.d.calls && D.Registered(r.d, c)
    ensures InTable(r, c)
  {
    hide E.TotalBits, E.Tally, E.KernelAgrees, D.Inv, T.Valid;
    var fd, e := Fd(r, c), Ev(r, c);
    SlotInverse(fd, e, r.d.calls[c].slot);
    BitIffSlot(r, fd, e);
    assert E.Held(r.io.ctxs, r.io.regs, fd, e);
    var g := E.Get(r.io.ctxs[fd], e).reg;
    assert SlotOf(r.io.regs[g]) == r.d.calls[c].slot;
  }

  /** The reactor with one worker, from the start, epoll_ctl refusing no timer callback: at the end of
      every run, a call parked with a timeout has its fiber queued, its timer callback queued, or a
      timer in the set that no poller is told to sleep past; and unless its fiber is queued, it waits
      in the event context of its descriptor. */
  lemma ReactorCovered(r: Reactor, run: seq<Step>)
    requires Start(r) && (Linked(r) ==> IsRun(r, run) && OneWorker(r, run)) && Accepted(run)
    ensures Linked(r)
    ensures var t := Last(r, run);
            forall c :: c in t.d.calls && t.d.calls[c].finite && t.d.calls[c].phase == D.Parked ==>
                          && (t.d.woken[c] > 0 || t.d.fired[c] > 0 || Timed(t.tm, c))
                          && (t.d.woken[c] > 0 || InTable(t, c))
  {
    StartLinked(r);
    RunProjects(r, run);
    RunAlone(r, run);
    var t := Last(r, run);
    D.OneWorkerFromStart(Traces(r, run));
    forall c | c in t.d.calls && t.d.calls[c].finite && t.d.calls[c].phase == D.Parked
      ensures t.d.woken[c] > 0 || t.d.fired[c] > 0 || Timed(t.tm, c)
      ensures t.d.woken[c] > 0 || InTable(t, c)
    {
      assert D.Covered(t.d, c);
      OwnOk(t.d, c);
      if t.d.woken[c] == 0 {
        if t.d.fired[c] == 0 { TimerStands(t, c); }
        TableHolds(t, c);
      }
    }
  }
}
