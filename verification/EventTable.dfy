/** IOManager: the event contexts of the file descriptors, the kernel's epoll interest, the count
    of pending events and the waiters put on the run queue.

    The outcome of each epoll_ctl call is an argument; the kernel also refuses to add what it holds
    and to change or delete what it does not hold. Every registration gets a number, so that the
    fate of its waiter can be followed. */
module EventTable {

  import opened Options

  const MAX_FD := 65535

  datatype Event = READ | WRITE

  /** The event bits: READ is 0x1 and WRITE 0x4. */
  datatype Mask = Mask(read: bool, write: bool)

  const NONE := Mask(false, false)

  predicate Has(m: Mask, e: Event) {
    if e.READ? then m.read else m.write
  }

  function With(m: Mask, e: Event): Mask {
    if e.READ? then m.(read := true) else m.(write := true)
  }

  function Without(m: Mask, e: Event): Mask {
    if e.READ? then m.(read := false) else m.(write := false)
  }

  function And(m: Mask, n: Mask): Mask {
    Mask(m.read && n.read, m.write && n.write)
  }

  function Minus(m: Mask, n: Mask): Mask {
    Mask(m.read && !n.read, m.write && !n.write)
  }

  function Bits(m: Mask): nat {
    (if m.read then 1 else 0) + (if m.write then 1 else 0)
  }

  datatype Task = FiberTask(fiber: nat) | CbTask(cb: nat)

  /** One event context: who waits and where it is to be queued; `reg` is the registration. */
  datatype Ctx = Ctx(scheduler: Option<nat>, fiber: Option<nat>, cb: Option<nat>, reg: nat)

  datatype FdCtx = FdCtx(read: Ctx, write: Ctx, events: Mask)

  function Get(c: FdCtx, e: Event): Ctx {
    if e.READ? then c.read else c.write
  }

  function Set(c: FdCtx, e: Event, x: Ctx): FdCtx {
    if e.READ? then c.(read := x) else c.(write := x)
  }

  const EMPTY_CTX := Ctx(None, None, None, 0)
  const NEW_FD := FdCtx(EMPTY_CTX, EMPTY_CTX, NONE)

  predicate Empty(x: Ctx) {
    x.scheduler.None? && x.fiber.None? && x.cb.None?
  }

  /** A scheduler and exactly one of a fiber and a callback. */
  predicate Filled(x: Ctx) {
    x.scheduler.Some? && (x.fiber.Some? <==> x.cb.None?)
  }

  function TaskOf(x: Ctx): Task
    requires Filled(x)
  {
    if x.cb.Some? then CbTask(x.cb.value) else FiberTask(x.fiber.value)
  }

  function Fill(task: Task, scheduler: nat, reg: nat): (x: Ctx)
    ensures Filled(x) && TaskOf(x) == task && x.scheduler == Some(scheduler) && x.reg == reg
  {
    match task
    case FiberTask(f) => Ctx(Some(scheduler), Some(f), None, reg)
    case CbTask(c) => Ctx(Some(scheduler), None, Some(c), reg)
  }

  datatype Fate = Waiting | Queued(at: nat) | Dropped

  /** How many registrations wait, were queued, were dropped. */
  function Tally(regs: seq<Reg>): (int, int, int) {
    if regs == [] then (0, 0, 0) else
    var (w, q, d) := Tally(regs[1..]);
    match regs[0].fate
    case Waiting => (w + 1, q, d)
    case Queued(_) => (w, q + 1, d)
    case Dropped => (w, q, d + 1)
  }

  datatype Reg = Reg(fd: nat, event: Event, scheduler: nat, task: Task, fate: Fate)

  datatype Entry = Entry(reg: nat, scheduler: nat, task: Task)

  datatype IO = IO(ctxs: seq<FdCtx>, kernel: map<nat, Mask>, pending: int, queue: seq<Entry>, regs: seq<Reg>)

  datatype Outcome = Returned(value: int) | Aborted | OutOfBounds

  // ---------- the invariant ----------

  function TotalBits(ctxs: seq<FdCtx>): nat {
    if ctxs == [] then 0 else Bits(ctxs[0].events) + TotalBits(ctxs[1..])
  }

  /** The bits and the contexts of one descriptor agree. */
  predicate CtxAgrees(c: FdCtx) {
    && (if c.events.read then Filled(c.read) else Empty(c.read))
    && (if c.events.write then Filled(c.write) else Empty(c.write))
  }

  /** The kernel's interest is the bits, and no interest is held for a descriptor without any. */
  predicate KernelAgrees(ctxs: seq<FdCtx>, kernel: map<nat, Mask>) {
    && (forall fd :: fd in kernel ==> fd < |ctxs|)
    && forall fd :: 0 <= fd < |ctxs| ==>
                      if ctxs[fd].events == NONE then fd !in kernel else fd in kernel && kernel[fd] == ctxs[fd].events
  }

  /** A set bit is the registration its context names, still waiting. */
  predicate Held(ctxs: seq<FdCtx>, regs: seq<Reg>, fd: nat, e: Event)
    requires fd < |ctxs| && CtxAgrees(ctxs[fd])
  {
    Has(ctxs[fd].events, e) ==>
      var x := Get(ctxs[fd], e);
      x.reg < |regs| && regs[x.reg] == Reg(fd, e, x.scheduler.value, TaskOf(x), Waiting)
  }

  /** A registration is in the place its fate says, and nowhere else. */
  predicate Placed(ctxs: seq<FdCtx>, queue: seq<Entry>, regs: seq<Reg>, r: nat)
    requires r < |regs|
  {
    var g := regs[r];
    match g.fate
    case Waiting => g.fd < |ctxs| && Has(ctxs[g.fd].events, g.event) && Get(ctxs[g.fd], g.event).reg == r
    case Queued(k) => k < |queue| && queue[k] == Entry(r, g.scheduler, g.task)
    case Dropped => true
  }

  /** Everything but the kernel's view. */
  predicate Table(io: IO) {
    && 32 <= |io.ctxs| <= MAX_FD
    && (forall fd :: 0 <= fd < |io.ctxs| ==> CtxAgrees(io.ctxs[fd]))
    && io.pending == TotalBits(io.ctxs)
    && (var (w, q, d) := Tally(io.regs); io.pending == w && |io.queue| == q && w + q + d == |io.regs|)
    && (forall fd, e :: 0 <= fd < |io.ctxs| ==> Held(io.ctxs, io.regs, fd, e))
    && (forall r :: 0 <= r < |io.regs| ==> Placed(io.ctxs, io.queue, io.regs, r))
    && (forall k :: 0 <= k < |io.queue| ==>
                      io.queue[k].reg < |io.regs| && io.regs[io.queue[k].reg].fate == Queued(k))
  }

  predicate Inv(io: IO) {
    Table(io) && KernelAgrees(io.ctxs, io.kernel)
  }

  lemma {:induction false} TotalUpdate(ctxs: seq<FdCtx>, i: nat, c: FdCtx)
    requires i < |ctxs|
    ensures TotalBits(ctxs[i := c]) == TotalBits(ctxs) - Bits(ctxs[i].events) + Bits(c.events)
    decreases |ctxs|
  {
    if i == 0 {
      assert ctxs[i := c][1..] == ctxs[1..];
    } else {
      assert ctxs[i := c][1..] == ctxs[1..][i - 1 := c];
      TotalUpdate(ctxs[1..], i - 1, c);
    }
  }

  lemma {:induction false} TallySnoc(regs: seq<Reg>, g: Reg)
    requires g.fate.Waiting?
    ensures var (w, q, d) := Tally(regs); Tally(regs + [g]) == (w + 1, q, d)
    decreases |regs|
  {
    if regs == [] {
      assert regs + [g] == [g];
    } else {
      assert (regs + [g])[1..] == regs[1..] + [g];
      TallySnoc(regs[1..], g);
    }
  }

  lemma {:induction false} TallySettle(regs: seq<Reg>, r: nat, f: Fate)
    requires r < |regs| && regs[r].fate.Waiting? && !f.Waiting?
    ensures var (w, q, d) := Tally(regs);
            Tally(regs[r := regs[r].(fate := f)]) == if f.Queued? then (w - 1, q + 1, d) else (w - 1, q, d + 1)
    decreases |regs|
  {
    var regs' := regs[r := regs[r].(fate := f)];
    if r == 0 {
      assert regs'[1..] == regs[1..];
    } else {
      assert regs'[1..] == regs[1..][r - 1 := regs'[r]];
      TallySettle(regs[1..], r - 1, f);
    }
  }

  lemma {:induction false} TotalGrow(ctxs: seq<FdCtx>, n: nat)
    ensures TotalBits(ctxs + seq(n, _ => NEW_FD)) == TotalBits(ctxs)
    decreases |ctxs| + n
  {
    var more := seq(n, _ => NEW_FD);
    if ctxs != [] {
      assert (ctxs + more)[1..] == ctxs[1..] + more;
      TotalGrow(ctxs[1..], n);
    } else if n > 0 {
      assert more[1..] == seq(n - 1, _ => NEW_FD) && ctxs + more == more;
      TotalGrow([], n - 1);
      assert [] + more[1..] == more[1..];
    }
  }

  // ---------- the operations ----------

  datatype CtlOp = ADD | MOD | DEL

  /** epoll_ctl: None when it fails, and then the interest is unchanged. */
  function Ctl(kernel: map<nat, Mask>, op: CtlOp, fd: nat, mask: Mask, ok: bool): Option<map<nat, Mask>> {
    if !ok || (op.ADD? <==> fd in kernel) then None
    else if op.DEL? then Some(kernel - {fd})
    else Some(kernel[fd := mask])
  }

  /** contextResize when the descriptor is beyond the vector. */
  function Resized(ctxs: seq<FdCtx>, fd: nat): (r: seq<FdCtx>)
    ensures ctxs <= r
  {
    if fd < |ctxs| then ctxs else
    var n := if fd + fd / 2 > MAX_FD then MAX_FD else fd + fd / 2;
    if n <= |ctxs| then ctxs else ctxs + seq(n - |ctxs|, _ => NEW_FD)
  }

  /** The part of addEvent after a successful epoll_ctl. */
  function Register(io: IO, fd: nat, e: Event, task: Task, scheduler: nat): IO
    requires fd < |io.ctxs|
  {
    var c := io.ctxs[fd];
    io.(pending := io.pending + 1,
        ctxs := io.ctxs[fd := Set(c.(events := With(c.events, e)), e, Fill(task, scheduler, |io.regs|))],
        regs := io.regs + [Reg(fd, e, scheduler, task, Waiting)])
  }

  function ClearBit(c: FdCtx, e: Event): FdCtx {
    Set(c.(events := Without(c.events, e)), e, Get(c, e).(scheduler := None, fiber := None, cb := None))
  }

  /** The part of delEvent after a successful epoll_ctl. */
  function Drop(io: IO, fd: nat, e: Event): IO
    requires fd < |io.ctxs| && Get(io.ctxs[fd], e).reg < |io.regs|
  {
    var r := Get(io.ctxs[fd], e).reg;
    io.(pending := io.pending - 1,
        ctxs := io.ctxs[fd := ClearBit(io.ctxs[fd], e)],
        regs := io.regs[r := io.regs[r].(fate := Dropped)])
  }

  /** triggerEvent and the decrement after it. */
  function Trigger(io: IO, fd: nat, e: Event): IO
    requires fd < |io.ctxs| && Filled(Get(io.ctxs[fd], e)) && Get(io.ctxs[fd], e).reg < |io.regs|
  {
    var x := Get(io.ctxs[fd], e);
    io.(pending := io.pending - 1,
        ctxs := io.ctxs[fd := ClearBit(io.ctxs[fd], e)],
        queue := io.queue + [Entry(x.reg, x.scheduler.value, TaskOf(x))],
        regs := io.regs[x.reg := io.regs[x.reg].(fate := Queued(|io.queue|))])
  }

  function AddEvent(io: IO, fd: int, e: Event, task: Task, scheduler: nat, ok: bool): (IO, Outcome)
    requires Inv(io)
  {
    if fd < 0 || fd > MAX_FD then (io, Returned(0)) else
    var io1 := io.(ctxs := Resized(io.ctxs, fd));
    if |io1.ctxs| <= fd then (io1, OutOfBounds) else
    var c := io1.ctxs[fd];
    if Has(c.events, e) then (io1, Aborted) else
    var k := Ctl(io1.kernel, if c.events == NONE then ADD else MOD, fd, With(c.events, e), ok);
    if k.None? then (io1, Returned(-1))
    else (Register(io1.(kernel := k.value), fd, e, task, scheduler), Returned(0))
  }

  /** delEvent and cancelEvent, which differ in what becomes of the waiter. */
  function Remove(io: IO, fd: int, e: Event, cancel: bool, ok: bool): (IO, Outcome)
    requires Inv(io)
  {
    if |io.ctxs| <= fd then (io, Returned(0)) else
    if fd < 0 then (io, OutOfBounds) else
    var c := io.ctxs[fd];
    if !Has(c.events, e) then (io, Returned(0)) else
    var left := Without(c.events, e);
    var k := Ctl(io.kernel, if left == NONE then DEL else MOD, fd, left, ok);
    if k.None? then (io, Returned(0)) else
    assert Held(io.ctxs, io.regs, fd, e);
    var io1 := io.(kernel := k.value);
    (if cancel then Trigger(io1, fd, e) else Drop(io1, fd, e), Returned(1))
  }

  /** Trigger the event if its bit is set. */
  function TriggerIf(io: IO, fd: nat, e: Event): IO
    requires Table(io) && fd < |io.ctxs|
  {
    if Has(io.ctxs[fd].events, e) then assert Held(io.ctxs, io.regs, fd, e); Trigger(io, fd, e) else io
  }

  /** Trigger the events of the mask that are waited for, READ first. */
  function TriggerMask(io: IO, fd: nat, mask: Mask): IO
    requires Table(io) && fd < |io.ctxs|
  {
    TriggerKeeps(io, fd, READ);
    var io1 := if mask.read then TriggerIf(io, fd, READ) else io;
    if mask.write then TriggerIf(io1, fd, WRITE) else io1
  }

  function CancelAll(io: IO, fd: int, ok: bool): (IO, Outcome)
    requires Inv(io)
  {
    if |io.ctxs| <= fd then (io, Returned(0)) else
    if fd < 0 then (io, OutOfBounds) else
    if io.ctxs[fd].events == NONE then (io, Returned(0)) else
    var k := Ctl(io.kernel, DEL, fd, NONE, ok);
    if k.None? then (io, Returned(0)) else
    (TriggerMask(io.(kernel := k.value), fd, Mask(true, true)), Returned(1))
  }

  /** What epoll_wait reported for a descriptor. */
  datatype Report = Report(readable: bool, writable: bool, error: bool)

  /** The events a report stands for: an error counts as everything that is waited for. */
  function Seen(r: Report, events: Mask): Mask {
    Mask(r.readable || (r.error && events.read), r.writable || (r.error && events.write))
  }

  /** One report handled by the idle loop. */
  function Ready(io: IO, fd: nat, report: Report, ok: bool): (IO, Outcome)
    requires Inv(io) && fd < |io.ctxs|
  {
    var events := io.ctxs[fd].events;
    var seen := Seen(report, events);
    if And(events, seen) == NONE then (io, Returned(0)) else
    var left := Minus(events, seen);
    var k := Ctl(io.kernel, if left == NONE then DEL else MOD, fd, left, ok);
    if k.None? then (io, Returned(0)) else
    var io1 := io.(kernel := k.value);
    if Minus(seen, events) != NONE then (io1, Aborted)
    else (TriggerMask(io1, fd, seen), Returned(0))
  }

  // ---------- what each part keeps ----------

  lemma RegisterKeeps(io: IO, fd: nat, e: Event, task: Task, scheduler: nat)
    requires Table(io) && fd < |io.ctxs| && !Has(io.ctxs[fd].events, e)
    ensures Table(Register(io, fd, e, task, scheduler))
  {
    hide TotalBits, Tally;
    var t := Register(io, fd, e, task, scheduler);
    TallySnoc(io.regs, t.regs[|io.regs|]);
    TotalUpdate(io.ctxs, fd, t.ctxs[fd]);
    forall f, g | 0 <= f < |t.ctxs| ensures Held(t.ctxs, t.regs, f, g) {
      assert Held(io.ctxs, io.regs, f, g);
    }
    forall r | 0 <= r < |t.regs| ensures Placed(t.ctxs, t.queue, t.regs, r) {
      if r < |io.regs| { assert Placed(io.ctxs, io.queue, io.regs, r); }
    }
  }

  /** One registration waits for an event of a descriptor: the one its context names. */
  lemma HeldOnce(io: IO, fd: nat, e: Event)
    requires Table(io) && fd < |io.ctxs| && Has(io.ctxs[fd].events, e)
    ensures forall r :: 0 <= r < |io.regs| ==>
                          (io.regs[r].fate.Waiting? && io.regs[r].fd == fd && io.regs[r].event == e <==>
                           r == Get(io.ctxs[fd], e).reg)
  {
    hide TotalBits, Tally;
    assert Held(io.ctxs, io.regs, fd, e);
    forall r | 0 <= r < |io.regs| && io.regs[r].fate.Waiting? && io.regs[r].fd == fd && io.regs[r].event == e
      ensures r == Get(io.ctxs[fd], e).reg
    {
      assert Placed(io.ctxs, io.queue, io.regs, r);
    }
  }

  lemma DropKeeps(io: IO, fd: nat, e: Event)
    requires Table(io) && fd < |io.ctxs| && Has(io.ctxs[fd].events, e)
    ensures Held(io.ctxs, io.regs, fd, e) && Table(Drop(io, fd, e))
    ensures Settled(io, Drop(io, fd, e), fd, With(NONE, e), false)
  {
    hide TotalBits, Tally;
    assert Held(io.ctxs, io.regs, fd, e);
    HeldOnce(io, fd, e);
    var t := Drop(io, fd, e);
    TallySettle(io.regs, Get(io.ctxs[fd], e).reg, Dropped);
    TotalUpdate(io.ctxs, fd, t.ctxs[fd]);
    forall f, g | 0 <= f < |t.ctxs| ensures Held(t.ctxs, t.regs, f, g) {
      assert Held(io.ctxs, io.regs, f, g);
    }
    forall r | 0 <= r < |t.regs| ensures Placed(t.ctxs, t.queue, t.regs, r) {
      assert Placed(io.ctxs, io.queue, io.regs, r);
    }
  }

  lemma TriggerTable(io: IO, fd: nat, e: Event)
    requires Table(io) && fd < |io.ctxs| && Has(io.ctxs[fd].events, e)
    ensures Held(io.ctxs, io.regs, fd, e) && Table(Trigger(io, fd, e))
  {
    hide TotalBits, Tally;
    assert Held(io.ctxs, io.regs, fd, e);
    var t := Trigger(io, fd, e);
    TallySettle(io.regs, Get(io.ctxs[fd], e).reg, Queued(|io.queue|));
    TotalUpdate(io.ctxs, fd, t.ctxs[fd]);
    forall f, g | 0 <= f < |t.ctxs| ensures Held(t.ctxs, t.regs, f, g) {
      assert Held(io.ctxs, io.regs, f, g);
    }
    forall r | 0 <= r < |t.regs| ensures Placed(t.ctxs, t.queue, t.regs, r) {
      assert Placed(io.ctxs, io.queue, io.regs, r);
    }
  }

  lemma TriggerKeeps(io: IO, fd: nat, e: Event)
    requires Table(io) && fd < |io.ctxs|
    ensures var t := TriggerIf(io, fd, e);
            && Table(t) && OnlyFd(io, t, fd) && t.kernel == io.kernel
            && t.ctxs[fd].events == Without(io.ctxs[fd].events, e)
            && t.pending == io.pending - (if Has(io.ctxs[fd].events, e) then 1 else 0)
            && Settled(io, t, fd, With(NONE, e), true)
  {
    if Has(io.ctxs[fd].events, e) {
      TriggerTable(io, fd, e);
      HeldOnce(io, fd, e);
    } else {
      forall r | 0 <= r < |io.regs| && io.regs[r].fate.Waiting? && io.regs[r].fd == fd ensures io.regs[r].event != e {
        assert Placed(io.ctxs, io.queue, io.regs, r);
      }
    }
  }

  lemma MaskKeeps(io: IO, fd: nat, mask: Mask)
    requires Table(io) && fd < |io.ctxs|
    ensures var t := TriggerMask(io, fd, mask);
            && Table(t) && OnlyFd(io, t, fd) && t.kernel == io.kernel
            && t.ctxs[fd].events == Minus(io.ctxs[fd].events, mask)
            && t.pending == io.pending - Bits(And(io.ctxs[fd].events, mask))
            && Settled(io, t, fd, mask, true)
  {
    hide Table, TriggerIf;
    TriggerKeeps(io, fd, READ);
    var io1 := if mask.read then TriggerIf(io, fd, READ) else io;
    TriggerKeeps(io1, fd, WRITE);
  }

  predicate OnlyFd(io: IO, t: IO, fd: nat) {
    |t.ctxs| == |io.ctxs| && forall f :: 0 <= f < |io.ctxs| && f != fd ==> t.ctxs[f] == io.ctxs[f]
  }

  /** Exactly the waiters of these events of this descriptor left the table, and all to the queue
      or none of them; nothing that was queued moved. */
  predicate Settled(io: IO, t: IO, fd: nat, mask: Mask, queued: bool) {
    && |t.regs| == |io.regs| && io.queue <= t.queue && (!queued ==> t.queue == io.queue)
    && forall r :: 0 <= r < |io.regs| ==>
                     if io.regs[r].fate.Waiting? && io.regs[r].fd == fd && Has(mask, io.regs[r].event)
                     then t.regs[r].fate != Waiting && t.regs[r].fate.Queued? == queued &&
                          t.regs[r] == io.regs[r].(fate := t.regs[r].fate)
                     else t.regs[r] == io.regs[r]
  }

  /** With the kernel's interest equal to the bits, the choice between ADD, MOD and DEL is always
      the one the kernel accepts, and the new interest is the new bits. */
  lemma CtlAgrees(ctxs: seq<FdCtx>, kernel: map<nat, Mask>, fd: nat, ctxs': seq<FdCtx>, ok: bool)
    requires KernelAgrees(ctxs, kernel) && fd < |ctxs| == |ctxs'| && ctxs'[fd].events != ctxs[fd].events
    requires forall f :: 0 <= f < |ctxs| && f != fd ==> ctxs'[f] == ctxs[f]
    ensures var bits := ctxs'[fd].events;
            var op := if bits == NONE then DEL else if ctxs[fd].events == NONE then ADD else MOD;
            var k := Ctl(kernel, op, fd, bits, ok);
            (k.Some? <==> ok) && (ok ==> KernelAgrees(ctxs', k.value))
  {
  }

  lemma ResizeKeeps(io: IO, fd: nat)
    requires Inv(io) && fd <= MAX_FD
    ensures Inv(io.(ctxs := Resized(io.ctxs, fd)))
    ensures |Resized(io.ctxs, fd)| > fd <==> fd < 65535
    ensures |Resized(io.ctxs, fd)| ==
            if fd < |io.ctxs| then |io.ctxs| else if 3 * fd / 2 > 65535 then 65535 else 3 * fd / 2
  {
    hide TotalBits, Tally;
    var t := io.(ctxs := Resized(io.ctxs, fd));
    var n := |t.ctxs| - |io.ctxs|;
    assert t.ctxs == io.ctxs + seq(n, _ => NEW_FD);
    TotalGrow(io.ctxs, n);
    forall f, g | 0 <= f < |t.ctxs| ensures Held(t.ctxs, t.regs, f, g) {
      if f < |io.ctxs| { assert Held(io.ctxs, io.regs, f, g); }
    }
    forall r | 0 <= r < |t.regs| ensures Placed(t.ctxs, t.queue, t.regs, r) {
      assert Placed(io.ctxs, io.queue, io.regs, r);
    }
  }

  // ---------- what each operation does ----------

  /** addEvent keeps every view in agreement whatever it returns. It registers exactly when the
      descriptor is below MAX_FD, the event is not yet waited for and epoll_ctl succeeds; beyond
      MAX_FD (and for a negative descriptor) it reports success without registering, at MAX_FD it
      indexes past the vector. */
  lemma AddEventExact(io: IO, fd: int, e: Event, task: Task, scheduler: nat, ok: bool)
    requires Inv(io)
    ensures var (t, out) := AddEvent(io, fd, e, task, scheduler, ok);
            var taken := 0 <= fd < |io.ctxs| && Has(io.ctxs[fd].events, e);
            && Inv(t) && t.queue == io.queue
            && out == (if fd < 0 || fd > 65535 then Returned(0) else if fd == 65535 then OutOfBounds
                       else if taken then Aborted else if ok then Returned(0) else Returned(-1))
            && t.regs == io.regs +
                         (if 0 <= fd < 65535 && !taken && ok then [Reg(fd, e, scheduler, task, Waiting)] else [])
            && t.pending == io.pending + |t.regs| - |io.regs|
  {
    hide Table, TotalBits, Resized, KernelAgrees, Ctl, Set, Fill;
    if 0 <= fd <= MAX_FD {
      ResizeKeeps(io, fd);
      var io1 := io.(ctxs := Resized(io.ctxs, fd));
      if fd < MAX_FD { ResizeBits(io, fd, e); }
      if fd < MAX_FD && !Has(io1.ctxs[fd].events, e) {
        CtlAdds(io1, fd, e, task, scheduler, ok);
        RegisterKeeps(io1, fd, e, task, scheduler);
        TableFrame(Register(io1, fd, e, task, scheduler));
      }
    }
  }

  lemma CtlAdds(io: IO, fd: nat, e: Event, task: Task, scheduler: nat, ok: bool)
    requires KernelAgrees(io.ctxs, io.kernel) && fd < |io.ctxs| && !Has(io.ctxs[fd].events, e)
    ensures var events := io.ctxs[fd].events;
            var k := Ctl(io.kernel, if events == NONE then ADD else MOD, fd, With(events, e), ok);
            (k.Some? <==> ok) && (ok ==> KernelAgrees(Register(io, fd, e, task, scheduler).ctxs, k.value))
  {
    hide KernelAgrees, Ctl;
    CtlAgrees(io.ctxs, io.kernel, fd, Register(io, fd, e, task, scheduler).ctxs, ok);
  }

  /** The vector grows with empty contexts. */
  lemma ResizeBits(io: IO, fd: nat, e: Event)
    requires Inv(io) && fd < |Resized(io.ctxs, fd)|
    ensures Has(Resized(io.ctxs, fd)[fd].events, e) <==> fd < |io.ctxs| && Has(io.ctxs[fd].events, e)
  {
  }

  lemma TableFrame(io: IO)
    requires Table(io)
    ensures forall k :: Table(io.(kernel := k))
  {
  }

  lemma TakeOut(io: IO, fd: nat, e: Event, cancel: bool)
    requires Table(io) && fd < |io.ctxs| && Has(io.ctxs[fd].events, e)
    ensures Filled(Get(io.ctxs[fd], e)) && Get(io.ctxs[fd], e).reg < |io.regs|
    ensures var t := if cancel then Trigger(io, fd, e) else Drop(io, fd, e);
            && Table(t) && |t.ctxs| == |io.ctxs| && t.ctxs[fd].events == Without(io.ctxs[fd].events, e)
            && (forall f :: 0 <= f < |io.ctxs| && f != fd ==> t.ctxs[f] == io.ctxs[f])
            && forall k :: Settled(io, t.(kernel := k), fd, With(NONE, e), cancel)
  {
    hide TotalBits, Tally;
    if cancel { TriggerKeeps(io, fd, e); TriggerTable(io, fd, e); } else { DropKeeps(io, fd, e); }
  }

  /** delEvent and cancelEvent: the one waiter is dropped, or queued, exactly when the event was
      waited for and epoll_ctl succeeds; otherwise nothing changes. */
  lemma RemoveExact(io: IO, fd: int, e: Event, cancel: bool, ok: bool)
    requires Inv(io)
    ensures var (t, out) := Remove(io, fd, e, cancel, ok);
            var does := 0 <= fd < |io.ctxs| && Has(io.ctxs[fd].events, e) && ok;
            && Inv(t) && (!does ==> t == io)
            && out == (if fd < 0 then OutOfBounds else Returned(if does then 1 else 0))
            && (does ==> Settled(io, t, fd, With(NONE, e), cancel) && t.pending == io.pending - 1)
  {
    hide Table, KernelAgrees, Settled, OnlyFd, ClearBit, TaskOf, Ctl, Get, Filled, Held;
    if 0 <= fd < |io.ctxs| && Has(io.ctxs[fd].events, e) {
      TakeOut(io, fd, e, cancel);
      var t := if cancel then Trigger(io, fd, e) else Drop(io, fd, e);
      CtlAgrees(io.ctxs, io.kernel, fd, t.ctxs, ok);
      TableFrame(t);
    }
  }

  lemma MaskOut(io: IO, fd: nat, mask: Mask, ok: bool)
    requires Inv(io) && fd < |io.ctxs| && And(io.ctxs[fd].events, mask) != NONE
    ensures var bits := Minus(io.ctxs[fd].events, mask);
            var k := Ctl(io.kernel, if bits == NONE then DEL else MOD, fd, bits, ok);
            && (k.Some? <==> ok)
            && (ok ==> Table(io.(kernel := k.value)) &&
                       var t := TriggerMask(io.(kernel := k.value), fd, mask);
                       && Inv(t) && Settled(io, t, fd, mask, true) && OnlyFd(io, t, fd) && t.ctxs[fd].events == bits
                       && t.pending == io.pending - Bits(And(io.ctxs[fd].events, mask)))
  {
    hide Table, KernelAgrees, TriggerMask, Ctl;
    var events := io.ctxs[fd].events;
    var bits := Minus(events, mask);
    CtlAgrees(io.ctxs, io.kernel, fd, io.ctxs[fd := io.ctxs[fd].(events := bits)], ok);
    if ok {
      var k := Ctl(io.kernel, if bits == NONE then DEL else MOD, fd, bits, ok);
      TableFrame(io);
      MaskKeeps(io.(kernel := k.value), fd, mask);
      CtlAgrees(io.ctxs, io.kernel, fd, TriggerMask(io.(kernel := k.value), fd, mask).ctxs, ok);
    }
  }

  /** cancelAll queues every waiter of the descriptor and empties it, when there is one and
      epoll_ctl succeeds; otherwise nothing changes. */
  lemma CancelAllExact(io: IO, fd: int, ok: bool)
    requires Inv(io)
    ensures var (t, out) := CancelAll(io, fd, ok);
            var does := 0 <= fd < |io.ctxs| && io.ctxs[fd].events != NONE && ok;
            && Inv(t) && (!does ==> t == io)
            && out == (if fd < 0 then OutOfBounds else Returned(if does then 1 else 0))
            && (does ==> && |t.ctxs| == |io.ctxs| && t.ctxs[fd].events == NONE
                         && Settled(io, t, fd, Mask(true, true), true)
                         && t.pending == io.pending - Bits(io.ctxs[fd].events))
  {
    hide Table, KernelAgrees, Settled, Ctl, TriggerMask;
    if 0 <= fd < |io.ctxs| && io.ctxs[fd].events != NONE {
      MaskOut(io, fd, Mask(true, true), ok);
    }
  }

  /** One readiness report. The asserts in triggerEvent fail exactly when the report names an event
      that is waited for and one that is not, and epoll_ctl succeeds; otherwise exactly the waiters
      of the reported events are queued, or nothing changes. */
  lemma ReadyExact(io: IO, fd: nat, report: Report, ok: bool)
    requires Inv(io) && fd < |io.ctxs|
    ensures var (t, out) := Ready(io, fd, report, ok);
            var events := io.ctxs[fd].events;
            var seen := Seen(report, events);
            && (out == Aborted <==> ok && And(events, seen) != NONE && Minus(seen, events) != NONE)
            && (out != Aborted ==> Inv(t) && out == Returned(0))
            && (out != Aborted && ok && seen != NONE ==>
                  && |t.ctxs| == |io.ctxs| && t.ctxs[fd].events == Minus(events, seen)
                  && Settled(io, t, fd, seen, true) && t.pending == io.pending - Bits(And(events, seen)))
            && (!ok || seen == NONE ==> t == io)
  {
    hide Table, KernelAgrees, Settled, Ctl, TriggerMask;
    var seen := Seen(report, io.ctxs[fd].events);
    if And(io.ctxs[fd].events, seen) != NONE {
      MaskOut(io, fd, seen, ok);
    } else {
      Untouched(io, fd, seen);
    }
  }

  lemma Untouched(io: IO, fd: nat, mask: Mask)
    requires Inv(io) && fd < |io.ctxs| && And(io.ctxs[fd].events, mask) == NONE
    ensures Settled(io, io, fd, mask, true)
  {
    hide TotalBits, Tally, KernelAgrees;
    forall r | 0 <= r < |io.regs| && io.regs[r].fate.Waiting? && io.regs[r].fd == fd
      ensures !Has(mask, io.regs[r].event)
    {
      assert Placed(io.ctxs, io.queue, io.regs, r);
    }
  }

  // ---------- in terms of the registrations ----------

  predicate WaitsFor(io: IO, fd: nat, e: Event) {
    exists r :: 0 <= r < |io.regs| && Pends(io.regs[r], fd, e)
  }

  predicate Pends(g: Reg, fd: nat, e: Event) {
    g.fate.Waiting? && g.fd == fd && g.event == e
  }

  lemma BitIffWaits(io: IO, fd: nat, e: Event)
    requires Table(io)
    ensures WaitsFor(io, fd, e) <==> fd < |io.ctxs| && Has(io.ctxs[fd].events, e)
  {
    hide TotalBits, Tally;
    if WaitsFor(io, fd, e) {
      var r :| 0 <= r < |io.regs| && Pends(io.regs[r], fd, e);
      assert Placed(io.ctxs, io.queue, io.regs, r);
    }
    if fd < |io.ctxs| && Has(io.ctxs[fd].events, e) {
      assert Held(io.ctxs, io.regs, fd, e);
      assert Pends(io.regs[Get(io.ctxs[fd], e).reg], fd, e);
    }
  }

  /** The kernel watches a descriptor exactly when someone waits for it, for reading exactly when a
      reader waits and for writing exactly when a writer does. */
  lemma KernelExact(io: IO, fd: nat)
    requires Inv(io)
    ensures fd in io.kernel <==> WaitsFor(io, fd, READ) || WaitsFor(io, fd, WRITE)
    ensures fd in io.kernel ==>
              && (io.kernel[fd].read <==> WaitsFor(io, fd, READ))
              && (io.kernel[fd].write <==> WaitsFor(io, fd, WRITE))
  {
    hide Table;
    BitIffWaits(io, fd, READ);
    BitIffWaits(io, fd, WRITE);
  }

  /** The context's fields stand for the waiter: its scheduler, and its fiber or its callback alone. */
  predicate StandsFor(x: Ctx, g: Reg) {
    && x.scheduler == Some(g.scheduler)
    && (if g.task.FiberTask? then x.fiber == Some(g.task.fiber) && x.cb == None
        else x.fiber == None && x.cb == Some(g.task.cb))
  }

  /** An event context holds the scheduler and the fiber or callback of the one who waits for the event,
      and nothing at all when nobody does. */
  lemma ContextExact(io: IO, fd: nat, e: Event)
    requires Inv(io) && fd < |io.ctxs|
    ensures var x := if e == READ then io.ctxs[fd].read else io.ctxs[fd].write;
            if WaitsFor(io, fd, e)
            then exists r :: 0 <= r < |io.regs| && Pends(io.regs[r], fd, e) && StandsFor(x, io.regs[r])
            else x.scheduler == None && x.fiber == None && x.cb == None
  {
    hide TotalBits, Tally;
    BitIffWaits(io, fd, e);
    assert CtxAgrees(io.ctxs[fd]);
    if Has(io.ctxs[fd].events, e) {
      var x := Get(io.ctxs[fd], e);
      assert Held(io.ctxs, io.regs, fd, e);
      assert Pends(io.regs[x.reg], fd, e) && StandsFor(x, io.regs[x.reg]);
    }
  }

  /** The report names the event: readable for a reader, writable for a writer. */
  predicate Names(report: Report, e: Event) {
    (e == READ && report.readable) || (e == WRITE && report.writable)
  }

  /** One readiness report, in terms of the report and the registrations. An assert fails exactly when
      someone waits for a named event, or waits at all and there is an error, while nobody waits for
      another named event, and epoll_ctl succeeds. Otherwise a waiter of the descriptor is queued
      exactly when its event is named or there is an error; nobody else is touched, and without
      epoll_ctl nobody at all. */
  lemma ReportWakes(io: IO, fd: nat, report: Report, ok: bool)
    requires Inv(io) && fd < |io.ctxs|
    ensures var (t, out) := Ready(io, fd, report, ok);
            && (out == Aborted <==>
                  && ok
                  && (exists e :: WaitsFor(io, fd, e) && (Names(report, e) || report.error))
                  && (exists e :: Names(report, e) && !WaitsFor(io, fd, e)))
            && (out != Aborted ==> |t.regs| == |io.regs|)
            && (out != Aborted ==>
                  forall r :: 0 <= r < |io.regs| ==>
                    if && ok && io.regs[r].fate.Waiting? && io.regs[r].fd == fd
                       && (Names(report, io.regs[r].event) || report.error)
                    then t.regs[r].fate.Queued? && t.regs[r] == io.regs[r].(fate := t.regs[r].fate)
                    else t.regs[r] == io.regs[r])
  {
    hide Inv, Ready;
    ReadyExact(io, fd, report, ok);
    assert Table(io) by { InvTable(io); }
    BitIffWaits(io, fd, READ);
    BitIffWaits(io, fd, WRITE);
    var events := io.ctxs[fd].events;
    var seen := Seen(report, events);
    forall r | 0 <= r < |io.regs| && Pends(io.regs[r], fd, io.regs[r].event)
      ensures Has(seen, io.regs[r].event) <==> Names(report, io.regs[r].event) || report.error
    {
      BitIffWaits(io, fd, io.regs[r].event);
    }
    AnyEvent(io, fd, report);
    hide WaitsFor;
    var (t, out) := Ready(io, fd, report, ok);
    if out != Aborted && ok && seen == NONE {
      forall r | 0 <= r < |io.regs| && Pends(io.regs[r], fd, io.regs[r].event)
        ensures !Names(report, io.regs[r].event) && !report.error
      {
        assert !Has(seen, io.regs[r].event);
      }
    }
  }

  lemma InvTable(io: IO)
    requires Inv(io)
    ensures Table(io)
  {
  }

  lemma AnyEvent(io: IO, fd: nat, report: Report)
    ensures (exists e :: WaitsFor(io, fd, e) && (Names(report, e) || report.error)) <==>
            || (WaitsFor(io, fd, READ) && (report.readable || report.error))
            || (WaitsFor(io, fd, WRITE) && (report.writable || report.error))
    ensures (exists e :: Names(report, e) && !WaitsFor(io, fd, e)) <==>
            (report.readable && !WaitsFor(io, fd, READ)) || (report.writable && !WaitsFor(io, fd, WRITE))
  {
    hide WaitsFor;
    assert Names(report, READ) == report.readable && Names(report, WRITE) == report.writable;
    if WaitsFor(io, fd, READ) && (report.readable || report.error) {
      assert WaitsFor(io, fd, READ) && (Names(report, READ) || report.error);
    }
    if WaitsFor(io, fd, WRITE) && (report.writable || report.error) {
      assert WaitsFor(io, fd, WRITE) && (Names(report, WRITE) || report.error);
    }
    if exists e :: WaitsFor(io, fd, e) && (Names(report, e) || report.error) {
      var e :| WaitsFor(io, fd, e) && (Names(report, e) || report.error);
      assert e == READ || e == WRITE;
    }
    if exists e :: Names(report, e) && !WaitsFor(io, fd, e) {
      var e :| Names(report, e) && !WaitsFor(io, fd, e);
      assert e == READ || e == WRITE;
    }
  }

  lemma TriggerPlace(io: IO, fd: nat, e: Event, r: nat)
    requires Table(io) && fd < |io.ctxs| && r < |io.regs| && Pends(io.regs[r], fd, e)
    ensures var t := TriggerIf(io, fd, e);
            Table(t) && |t.regs| == |io.regs| && |t.queue| == |io.queue| + 1 && t.regs[r].fate == Queued(|io.queue|)
  {
    hide TotalBits, Tally;
    BitIffWaits(io, fd, e);
    HeldOnce(io, fd, e);
    TriggerKeeps(io, fd, e);
  }

  /** When a reader and a writer of a descriptor are queued together, the reader comes right before the
      writer, at the end of the queue. */
  lemma ReaderFirst(io: IO, fd: nat, r: nat, w: nat)
    requires Inv(io) && fd < |io.ctxs| && r < |io.regs| && w < |io.regs|
    requires Pends(io.regs[r], fd, READ) && Pends(io.regs[w], fd, WRITE)
    ensures var t := CancelAll(io, fd, true).0;
            && |t.regs| == |io.regs|
            && t.regs[r].fate == Queued(|io.queue|) && t.regs[w].fate == Queued(|io.queue| + 1)
    ensures forall report: Report :: report.error || (report.readable && report.writable) ==>
              Ready(io, fd, report, true).0 == CancelAll(io, fd, true).0
  {
    hide Table, KernelAgrees, TriggerIf;
    InvTable(io);
    BitIffWaits(io, fd, READ);
    BitIffWaits(io, fd, WRITE);
    MaskOut(io, fd, Mask(true, true), true);
    var k := Ctl(io.kernel, DEL, fd, NONE, true);
    var io1 := io.(kernel := k.value);
    TableFrame(io);
    TriggerPlace(io1, fd, READ, r);
    var io2 := TriggerIf(io1, fd, READ);
    TriggerKeeps(io1, fd, READ);
    assert Pends(io2.regs[w], fd, WRITE);
    TriggerPlace(io2, fd, WRITE, w);
    TriggerKeeps(io2, fd, WRITE);
    assert !Pends(io2.regs[r], fd, WRITE);
  }

  // ---------- runs ----------

  datatype Step =
    | AddStep(fd: int, e: Event, task: Task, scheduler: nat, ok: bool)
    | RemoveStep(fd: int, e: Event, cancel: bool, ok: bool)
    | CancelAllStep(fd: int, ok: bool)
    | ReadyStep(at: nat, report: Report, ok: bool)

  /** The kernel reports only descriptors it was given. */
  predicate Possible(io: IO, st: Step) {
    st.ReadyStep? ==> st.at < |io.ctxs|
  }

  function Do(io: IO, st: Step): (IO, Outcome)
    requires Inv(io) && Possible(io, st)
  {
    match st
    case AddStep(fd, e, task, scheduler, ok) => AddEvent(io, fd, e, task, scheduler, ok)
    case RemoveStep(fd, e, cancel, ok) => Remove(io, fd, e, cancel, ok)
    case CancelAllStep(fd, ok) => CancelAll(io, fd, ok)
    case ReadyStep(fd, report, ok) => Ready(io, fd, report, ok)
  }

  /** Registrations are only added, what was registered does not change, and a waiter that was
      queued or dropped stays where it is. */
  predicate Onward(io: IO, t: IO) {
    && |io.regs| <= |t.regs| && io.queue <= t.queue
    && forall r :: 0 <= r < |io.regs| ==>
                     && t.regs[r].(fate := Waiting) == io.regs[r].(fate := Waiting)
                     && (!io.regs[r].fate.Waiting? ==> t.regs[r] == io.regs[r])
  }

  lemma DoKeeps(io: IO, st: Step)
    requires Inv(io) && Possible(io, st)
    ensures var (t, out) := Do(io, st); out.Returned? ==> Inv(t) && Onward(io, t)
  {
    hide Inv, AddEvent, Remove, CancelAll, Ready;
    match st
    case AddStep(fd, e, task, scheduler, ok) => AddEventExact(io, fd, e, task, scheduler, ok);
    case RemoveStep(fd, e, cancel, ok) => RemoveExact(io, fd, e, cancel, ok);
    case CancelAllStep(fd, ok) => CancelAllExact(io, fd, ok);
    case ReadyStep(fd, report, ok) => ReadyExact(io, fd, report, ok);
  }

  /** A run in which no assert fails and no index is out of bounds. */
  predicate IsRun(io: IO, run: seq<Step>)
    requires Inv(io)
    decreases |run|
  {
    run == [] ||
    (Possible(io, run[0]) && Do(io, run[0]).1.Returned? && (DoKeeps(io, run[0]); IsRun(Do(io, run[0]).0, run[1..])))
  }

  function Last(io: IO, run: seq<Step>): IO
    requires Inv(io) && IsRun(io, run)
    decreases |run|
  {
    if run == [] then io else
    DoKeeps(io, run[0]);
    Last(Do(io, run[0]).0, run[1..])
  }

  /** Over every run, epoll_ctl failures included, all views agree at the end: bits, contexts,
      kernel interest and pending count; and every registration made on the way waits in its
      context, is in the queue at exactly one place, or was dropped. */
  lemma {:induction false} RunAgrees(io: IO, run: seq<Step>)
    requires Inv(io) && IsRun(io, run)
    ensures Inv(Last(io, run)) && Onward(io, Last(io, run))
    decreases |run|
  {
    if run != [] {
      hide Inv, Do, Possible;
      DoKeeps(io, run[0]);
      RunAgrees(Do(io, run[0]).0, run[1..]);
    }
  }

  /** No registration is queued twice, and one that was dropped or still waits is not queued. */
  lemma QueuedOnce(io: IO, k: nat, r: nat)
    requires Inv(io) && k < |io.queue| && r < |io.regs|
    ensures io.queue[k].reg == r <==> io.regs[r].fate == Queued(k)
    ensures forall j :: 0 <= j < |io.queue| && io.queue[j].reg == io.queue[k].reg ==> j == k
    ensures io.queue[k].task == io.regs[io.queue[k].reg].task
  {
    hide TotalBits, Tally, KernelAgrees;
    assert Placed(io.ctxs, io.queue, io.regs, r);
    assert Placed(io.ctxs, io.queue, io.regs, io.queue[k].reg);
  }

  /** A manager as constructed. */
  predicate Started(io: IO) {
    && |io.ctxs| == 32 && (forall fd :: 0 <= fd < 32 ==> io.ctxs[fd] == NEW_FD)
    && io.kernel == map[] && io.pending == 0 && io.queue == [] && io.regs == []
  }

  lemma StartAgrees(io: IO)
    requires Started(io)
    ensures Inv(io)
  {
    hide TotalBits;
    NothingSet(io.ctxs);
  }

  lemma {:induction false} NothingSet(ctxs: seq<FdCtx>)
    requires forall fd :: 0 <= fd < |ctxs| ==> ctxs[fd] == NEW_FD
    ensures TotalBits(ctxs) == 0
    decreases |ctxs|
  {
    if ctxs != [] { NothingSet(ctxs[1..]); }
  }

  /** All views agree after every run from construction on. */
  lemma RunFromStart(io: IO, run: seq<Step>)
    requires Started(io) && (Inv(io) ==> IsRun(io, run))
    ensures Inv(io) && Inv(Last(io, run))
  {
    hide Inv;
    StartAgrees(io);
    RunAgrees(io, run);
  }

  /** A report can be stale: both events are waited for and reported, one is removed before the
      report is handled, and handling it then fails an assert. */
  lemma StaleReportAborts(io: IO, fd: nat, e: Event, cancel: bool)
    requires Inv(io) && fd < |io.ctxs| && io.ctxs[fd].events == Mask(true, true)
    ensures var (t, out) := Remove(io, fd, e, cancel, true);
            out == Returned(1) && Inv(t) && fd < |t.ctxs| && Ready(t, fd, Report(true, true, false), true).1 == Aborted
  {
    hide Table, KernelAgrees, Settled;
    RemoveExact(io, fd, e, cancel, true);
    TakeOut(io, fd, e, cancel);
    ReadyExact(Remove(io, fd, e, cancel, true).0, fd, Report(true, true, false), true);
  }
}
