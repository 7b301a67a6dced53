/** The IOManager object: the operations of EventTable as they update its fields in place. */
module IOManagers {

  import opened Options
  import opened EventTable

  class IOManager {
    var ctxs: seq<FdCtx>
    var pending: int
    var queue: seq<Entry>
    var kernel: map<nat, Mask>
    var regs: seq<Reg>   // the record of all registrations

    function State(): IO
      reads this
    {
      IO(ctxs, kernel, pending, queue, regs)
    }

    constructor ()
      ensures Inv(State()) && regs == [] && queue == []
    {
      ctxs, pending, queue, kernel, regs := [], 0, [], map[], [];
      new;
      ContextResize(32);
      StartAgrees(State());
    }

    /** The new entries of the vector are given empty contexts one by one. */
    method ContextResize(size: nat)
      modifies `ctxs
      ensures var n := if size > MAX_FD then MAX_FD else size;
              ctxs == if n <= |old(ctxs)| then old(ctxs)[..n] else old(ctxs) + seq(n - |old(ctxs)|, _ => NEW_FD)
    {
      var n := if size > MAX_FD then MAX_FD else size;
      if n <= |ctxs| {
        ctxs := ctxs[..n];
      }
      while |ctxs| < n
        invariant |ctxs| <= n
        invariant n > |old(ctxs)| ==>
                    |ctxs| >= |old(ctxs)| && ctxs == old(ctxs) + seq(|ctxs| - |old(ctxs)|, _ => NEW_FD)
        invariant n <= |old(ctxs)| ==> ctxs == old(ctxs)[..n]
      {
        ctxs := ctxs + [NEW_FD];
      }
    }

    /** epoll_ctl; the answer is what the call returns. */
    method EpollCtl(op: CtlOp, fd: nat, mask: Mask, ok: bool) returns (rt: int)
      modifies `kernel
      ensures var k := Ctl(old(kernel), op, fd, mask, ok);
              rt == (if k.Some? then 0 else -1) && kernel == if k.Some? then k.value else old(kernel)
    {
      var k := Ctl(kernel, op, fd, mask, ok);
      if k.None? {
        return -1;
      }
      kernel := k.value;
      return 0;
    }

    /** The current fiber waits when no callback is given. */
    method AddEventAt(fd: int, e: Event, cb: Option<nat>, self: nat, scheduler: nat, ok: bool) returns (out: Outcome)
      requires Inv(State())
      modifies this
      ensures Inv(State())
      ensures (State(), out) ==
              AddEvent(old(State()), fd, e, if cb.Some? then CbTask(cb.value) else FiberTask(self), scheduler, ok)
    {
      hide Inv, CtxAgrees, Filled;
      ghost var task := if cb.Some? then CbTask(cb.value) else FiberTask(self);
      AddEventExact(State(), fd, e, task, scheduler, ok);
      if fd < 0 || fd > MAX_FD {
        return Returned(0);
      }
      Grown(State(), fd);
      if |ctxs| <= fd {
        assert ctxs[..|ctxs|] == ctxs;
        ContextResize(fd + fd / 2);
      }
      if |ctxs| <= fd {
        return OutOfBounds;
      }
      if Has(ctxs[fd].events, e) {
        return Aborted;
      }
      assert Empty(Get(ctxs[fd], e));
      var rt := EpollCtl(if ctxs[fd].events == NONE then ADD else MOD, fd, With(ctxs[fd].events, e), ok);
      if rt != 0 {
        return Returned(-1);
      }
      FillContext(fd, e, cb, self, scheduler);
      return Returned(0);
    }

    method FillContext(fd: nat, e: Event, cb: Option<nat>, self: nat, scheduler: nat)
      requires fd < |ctxs| && Empty(Get(ctxs[fd], e))
      modifies `ctxs, `regs, `pending
      ensures State() ==
              Register(old(State()), fd, e, if cb.Some? then CbTask(cb.value) else FiberTask(self), scheduler)
    {
      ghost var task := if cb.Some? then CbTask(cb.value) else FiberTask(self);
      ghost var was := ctxs;
      pending := pending + 1;
      ctxs := ctxs[fd := ctxs[fd].(events := With(ctxs[fd].events, e))];
      var x := Get(ctxs[fd], e).(scheduler := Some(scheduler), reg := |regs|);
      if cb.Some? {
        x := x.(cb := cb);
      } else {
        x := x.(fiber := Some(self));
      }
      ctxs := ctxs[fd := Set(ctxs[fd], e, x)];
      assert ctxs == was[fd := Set(was[fd].(events := With(was[fd].events, e)), e, Fill(task, scheduler, |regs|))];
      regs := regs + [Reg(fd, e, scheduler, if cb.Some? then CbTask(cb.value) else FiberTask(self), Waiting)];
    }

    /** triggerEvent: the waiter is moved from its context to the queue. */
    method TriggerEvent(fd: nat, e: Event)
      requires fd < |ctxs| && Has(ctxs[fd].events, e) && Filled(Get(ctxs[fd], e)) && Get(ctxs[fd], e).reg < |regs|
      modifies `ctxs, `queue, `regs
      ensures State() == Trigger(old(State()), fd, e).(pending := pending)
    {
      var x := Get(ctxs[fd], e);
      ctxs := ctxs[fd := ctxs[fd].(events := Without(ctxs[fd].events, e))];
      regs := regs[x.reg := regs[x.reg].(fate := Queued(|queue|))];
      if x.cb.Some? {
        queue := queue + [Entry(x.reg, x.scheduler.value, CbTask(x.cb.value))];
        x := x.(cb := None);
      } else {
        queue := queue + [Entry(x.reg, x.scheduler.value, FiberTask(x.fiber.value))];
        x := x.(fiber := None);
      }
      x := x.(scheduler := None);
      ctxs := ctxs[fd := Set(ctxs[fd], e, x)];
    }

    /** delEvent, which drops the waiter, and cancelEvent, which queues it. */
    method RemoveEvent(fd: int, e: Event, cancel: bool, ok: bool) returns (out: Outcome)
      requires Inv(State())
      modifies this
      ensures Inv(State())
      ensures (State(), out) == Remove(old(State()), fd, e, cancel, ok)
    {
      hide Table, KernelAgrees, TaskOf;
      RemoveExact(State(), fd, e, cancel, ok);
      if |ctxs| <= fd {
        return Returned(0);
      }
      if fd < 0 {
        return OutOfBounds;
      }
      if !Has(ctxs[fd].events, e) {
        return Returned(0);
      }
      HeldHere(State(), fd, e);
      var left := Without(ctxs[fd].events, e);
      var rt := EpollCtl(if left == NONE then DEL else MOD, fd, left, ok);
      if rt != 0 {
        return Returned(0);
      }
      if cancel {
        TriggerEvent(fd, e);
        pending := pending - 1;
      } else {
        ghost var was := ctxs;
        pending := pending - 1;
        ctxs := ctxs[fd := ctxs[fd].(events := left)];
        var x := Get(ctxs[fd], e);
        regs := regs[x.reg := regs[x.reg].(fate := Dropped)];
        ctxs := ctxs[fd := Set(ctxs[fd], e, x.(scheduler := None, fiber := None, cb := None))];
        assert ctxs == was[fd := ClearBit(was[fd], e)];
      }
      return Returned(1);
    }

    method CancelAllOf(fd: int, ok: bool) returns (out: Outcome)
      requires Inv(State())
      modifies this
      ensures Inv(State())
      ensures (State(), out) == CancelAll(old(State()), fd, ok)
    {
      hide Table, KernelAgrees, TaskOf, Trigger;
      CancelAllExact(State(), fd, ok);
      if |ctxs| <= fd {
        return Returned(0);
      }
      if fd < 0 {
        return OutOfBounds;
      }
      if ctxs[fd].events == NONE {
        return Returned(0);
      }
      TableFrame(State());
      var rt := EpollCtl(DEL, fd, NONE, ok);
      if rt != 0 {
        return Returned(0);
      }
      TriggerKeeps(State(), fd, READ);
      TriggerWhenSet(fd, READ);
      TriggerWhenSet(fd, WRITE);
      assert ctxs[fd].events == NONE;
      return Returned(1);
    }

    method TriggerWhenSet(fd: nat, e: Event)
      requires Table(State()) && fd < |ctxs|
      modifies `ctxs, `queue, `regs, `pending
      ensures State() == TriggerIf(old(State()), fd, e)
    {
      if Has(ctxs[fd].events, e) {
        HeldHere(State(), fd, e);
        TriggerEvent(fd, e);
        pending := pending - 1;
      }
    }

    /** The body of the idle loop for one report. */
    method HandleReport(fd: nat, report: Report, ok: bool) returns (out: Outcome)
      requires Inv(State()) && fd < |ctxs|
      modifies this
      ensures out == Ready(old(State()), fd, report, ok).1
      ensures out != Aborted ==> State() == Ready(old(State()), fd, report, ok).0 && Inv(State())
    {
      hide Table, KernelAgrees, TaskOf, Trigger, TriggerIf;
      ReadyExact(State(), fd, report, ok);
      var seen := Mask(report.readable, report.writable);
      if report.error {
        seen := Mask(seen.read || ctxs[fd].events.read, seen.write || ctxs[fd].events.write);
      }
      if And(ctxs[fd].events, seen) == NONE {
        return Returned(0);
      }
      var left := Minus(ctxs[fd].events, seen);
      TableFrame(State());
      var rt := EpollCtl(if left == NONE then DEL else MOD, fd, left, ok);
      if rt != 0 {
        return Returned(0);
      }
      TriggerKeeps(State(), fd, READ);
      if seen.read {
        if !ctxs[fd].events.read {
          return Aborted;
        }
        TriggerWhenSet(fd, READ);
      }
      if seen.write {
        if !ctxs[fd].events.write {
          return Aborted;
        }
        TriggerWhenSet(fd, WRITE);
      }
      return Returned(0);
    }
  }

  lemma HeldHere(io: IO, fd: nat, e: Event)
    requires Table(io) && fd < |io.ctxs| && Has(io.ctxs[fd].events, e)
    ensures Filled(Get(io.ctxs[fd], e)) && Get(io.ctxs[fd], e).reg < |io.regs|
  {
    assert Held(io.ctxs, io.regs, fd, e);
  }

  /** What the vector holds once it reaches the descriptor. */
  lemma Grown(io: IO, fd: nat)
    requires Inv(io) && fd <= MAX_FD
    ensures 32 <= |io.ctxs| <= MAX_FD
    ensures fd < |Resized(io.ctxs, fd)| ==> CtxAgrees(Resized(io.ctxs, fd)[fd])
  {
    ResizeKeeps(io, fd);
  }
}
