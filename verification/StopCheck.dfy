/** The decision to stop, at the grain of single counter updates.

    IOManager::stopping reads the pending count and only then, in Scheduler::stopping, the queue and
    the active count. addEvent counts before it registers; triggerEvent queues before the count goes
    down. A waiter is a fiber, or a callback registered by one. */
module StopCheck {

  import opened Options

  /** The sets say where the waiters are; the three counters are what the program reads. */
  datatype State = State(announced: set<nat>, registered: set<nat>, queued: set<nat>, running: set<nat>,
                         owed: nat, pending: nat, length: nat, active: nat)

  datatype Step =
    | Announce(w: nat, who: Option<nat>)   // the pending count goes up
    | Register(w: nat)                     // the context is filled
    | Enqueue(w: nat)                      // triggerEvent
    | Decrement                            // the count goes down for an earlier Enqueue
    | Withdraw(w: nat)                     // delEvent
    | Schedule(w: nat)
    | Pick(w: nat)
    | Leave(w: nat)                        // back in the worker: finished or parked

  function Alive(s: State): set<nat> {
    s.announced + s.registered + s.queued + s.running
  }

  predicate Enabled(s: State, st: Step) {
    match st
    case Announce(w, who) => && w !in s.announced + s.registered + s.queued
                             && (who.Some? ==> who.value in s.running)
    case Register(w) => w in s.announced
    case Enqueue(w) => w in s.registered
    case Decrement => s.owed > 0
    case Withdraw(w) => w in s.registered
    case Schedule(w) => w !in Alive(s)
    case Pick(w) => w in s.queued && w !in s.running
    case Leave(w) => w in s.running
  }

  function Next(s: State, st: Step): State
    requires Inv(s) && Enabled(s, st)
  {
    match st
    case Announce(w, _) => s.(announced := s.announced + {w}, pending := s.pending + 1)
    case Register(w) => s.(announced := s.announced - {w}, registered := s.registered + {w})
    case Enqueue(w) =>
      s.(registered := s.registered - {w}, queued := s.queued + {w}, length := s.length + 1, owed := s.owed + 1)
    case Decrement => s.(owed := s.owed - 1, pending := s.pending - 1)
    case Withdraw(w) => s.(registered := s.registered - {w}, pending := s.pending - 1)
    case Schedule(w) => s.(queued := s.queued + {w}, length := s.length + 1)
    case Pick(w) =>
      s.(queued := s.queued - {w}, length := s.length - 1, running := s.running + {w}, active := s.active + 1)
    case Leave(w) => s.(running := s.running - {w}, active := s.active - 1)
  }

  predicate Apart(s: State) {
    && (forall w :: w in s.announced ==> w !in s.registered && w !in s.queued)
    && (forall w :: w in s.registered ==> w !in s.queued)
  }

  predicate Counted(s: State) {
    s.pending == |s.announced| + |s.registered| + s.owed
  }

  predicate Listed(s: State) {
    s.length == |s.queued| && s.active == |s.running|
  }

  predicate Inv(s: State) {
    Apart(s) && Counted(s) && Listed(s)
  }

  const START := State({}, {}, {}, {}, 0, 0, 0, 0)

  /** Every step keeps the counters equal to what they count. */
  lemma InvKept(s: State, st: Step)
    requires Inv(s) && Enabled(s, st)
    ensures Inv(Next(s, st))
  {
    hide Apart, Counted, Listed;
    ApartKept(s, st);
    CountedKept(s, st);
    ListedKept(s, st);
  }

  lemma ApartKept(s: State, st: Step)
    requires Inv(s) && Enabled(s, st)
    ensures Apart(Next(s, st))
  {
    hide Counted, Listed;
  }

  lemma CountedKept(s: State, st: Step)
    requires Inv(s) && Enabled(s, st)
    ensures Counted(Next(s, st))
  {
    hide Listed;
  }

  lemma ListedKept(s: State, st: Step)
    requires Inv(s) && Enabled(s, st)
    ensures Listed(Next(s, st))
  {
    hide Counted;
  }

  /** At every step every waiter shows in one of the counters. */
  lemma Covered(s: State, w: nat)
    requires Inv(s) && w in Alive(s)
    ensures s.pending > 0 || s.length > 0 || s.active > 0
  {
    if s.pending == 0 { assert s.announced == {} && s.registered == {}; }
    if s.length == 0 { assert s.queued == {}; }
  }

  /** A waiter is lost only by returning to its worker with nothing registered, or by delEvent. */
  lemma StaysAlive(s: State, st: Step, w: nat)
    requires Inv(s) && Enabled(s, st) && w in Alive(s)
    ensures w in Alive(Next(s, st)) || st == Leave(w) || st == Withdraw(w)
  {
  }

  predicate IsRun(s: State, run: seq<Step>)
    requires Inv(s)
    decreases |run|
  {
    run == [] || (Enabled(s, run[0]) && (InvKept(s, run[0]); IsRun(Next(s, run[0]), run[1..])))
  }

  function Last(s: State, run: seq<Step>): (t: State)
    requires Inv(s) && IsRun(s, run)
    ensures Inv(t)
    decreases |run|
  {
    if run == [] then s else
    InvKept(s, run[0]);
    Last(Next(s, run[0]), run[1..])
  }

  /** Nothing in the run wakes the waiter or takes it back. */
  predicate Untouched(run: seq<Step>, w: nat) {
    forall i :: 0 <= i < |run| ==> run[i] != Enqueue(w) && run[i] != Withdraw(w)
  }

  /** The waiter was announced in the run and not woken or taken back since. */
  predicate Unsettled(run: seq<Step>, w: nat) {
    exists i :: 0 <= i < |run| && AnnouncedAt(run, i, w) && Untouched(run[i + 1..], w)
  }

  predicate AnnouncedAt(run: seq<Step>, i: nat, w: nat)
    requires i < |run|
  {
    run[i].Announce? && run[i].w == w
  }

  lemma UnsettledCons(run: seq<Step>, w: nat)
    requires run != []
    ensures Unsettled(run, w) <==> Unsettled(run[1..], w) || (AnnouncedAt(run, 0, w) && Untouched(run[1..], w))
  {
    if Unsettled(run, w) {
      var i :| 0 <= i < |run| && AnnouncedAt(run, i, w) && Untouched(run[i + 1..], w);
      if i > 0 {
        assert AnnouncedAt(run[1..], i - 1, w) && run[1..][i..] == run[i + 1..];
      }
    }
    if Unsettled(run[1..], w) {
      var i :| 0 <= i < |run[1..]| && AnnouncedAt(run[1..], i, w) && Untouched(run[1..][i + 1..], w);
      assert AnnouncedAt(run, i + 1, w) && run[1..][i + 1..] == run[i + 2..];
    }
  }

  lemma UntouchedCons(run: seq<Step>, w: nat)
    requires run != []
    ensures Untouched(run, w) <==> run[0] != Enqueue(w) && run[0] != Withdraw(w) && Untouched(run[1..], w)
  {
    if Untouched(run[1..], w) && run[0] != Enqueue(w) && run[0] != Withdraw(w) {
      forall i | 0 <= i < |run| ensures run[i] != Enqueue(w) && run[i] != Withdraw(w) {
        if i > 0 { assert run[1..][i - 1] == run[i]; }
      }
    }
  }

  /** Who waits at the end: whoever waited at the start or was announced on the way, and was not
      woken or taken back since. */
  lemma {:induction false} WaitingExact(s: State, run: seq<Step>, w: nat)
    requires Inv(s) && IsRun(s, run)
    ensures w in Last(s, run).announced + Last(s, run).registered <==>
            Unsettled(run, w) || (w in s.announced + s.registered && Untouched(run, w))
    decreases |run|
  {
    if run != [] {
      hide Inv, Unsettled, Untouched;
      InvKept(s, run[0]);
      WaitingExact(Next(s, run[0]), run[1..], w);
      UnsettledCons(run, w);
      UntouchedCons(run, w);
      WaitingStep(s, run[0], w);
    }
  }

  lemma WaitingStep(s: State, st: Step, w: nat)
    requires Inv(s) && Enabled(s, st)
    ensures w in Next(s, st).announced + Next(s, st).registered <==>
            (st.Announce? && st.w == w) || (w in s.announced + s.registered && st != Enqueue(w) && st != Withdraw(w))
  {
  }

  /** The check passes: the pending count was zero at the first read, and at the second, any number
      of steps later, the queue was empty and nobody was active. */
  predicate Passes(s: State, run: seq<Step>)
    requires Inv(s) && IsRun(s, run)
  {
    s.pending == 0 && Last(s, run).length == 0 && Last(s, run).active == 0
  }

  /** Who is left when the check passes: exactly the waiters announced between the two reads and not
      woken or taken back since. When nobody was announced, nobody is left at all. */
  lemma StopExact(s: State, run: seq<Step>)
    requires Inv(s) && IsRun(s, run) && Passes(s, run)
    ensures forall w :: w in Alive(Last(s, run)) <==> Unsettled(run, w)
    ensures (forall i :: 0 <= i < |run| ==> !run[i].Announce?) ==> Alive(Last(s, run)) == {}
  {
    assert s.announced == {} && s.registered == {};
    assert Last(s, run).queued == {} && Last(s, run).running == {};
    forall w ensures w in Alive(Last(s, run)) <==> Unsettled(run, w) {
      WaitingExact(s, run, w);
    }
  }

  /** The same from the empty reactor: `before` leads to the first read, `run` from there to the
      second. */
  lemma StopFromStart(before: seq<Step>, run: seq<Step>)
    requires IsRun(START, before) && IsRun(Last(START, before), run) && Passes(Last(START, before), run)
    ensures forall w :: w in Alive(Last(Last(START, before), run)) <==> Unsettled(run, w)
  {
    StopExact(Last(START, before), run);
  }

  /** It does happen: a fiber that was active at the first read registers and parks before the
      second, and the check passes over it. */
  lemma PassedOver(s: State, w: nat)
    requires Inv(s) && s.pending == 0 && s.queued == {} && s.running == {w}
    ensures var run := [Announce(w, Some(w)), Register(w), Leave(w)];
            IsRun(s, run) && Passes(s, run) && w in Alive(Last(s, run))
  {
    assert s.announced == {} && s.registered == {};
    var run := [Announce(w, Some(w)), Register(w), Leave(w)];
    var s1 := Next(s, run[0]);
    assert run[1..] == [Register(w), Leave(w)];
    var s2 := Next(s1, run[1]);
    assert run[1..][1..] == [Leave(w)];
    var s3 := Next(s2, run[2]);
    assert s3.running == {} && w in s3.registered;
    assert run[1..][1..][1..] == [];
    assert Last(s2, [Leave(w)]) == s3;
    assert Last(s1, run[1..]) == s3;
  }

  predicate NobodyElse(run: seq<Step>) {
    forall i :: 0 <= i < |run| ==> !run[i].Pick? && (run[i].Announce? ==> run[i].who.Some?)
  }

  /** With one worker, which is the one that checks, nobody is picked or running meanwhile, and the
      check is exact as long as no other thread registers. */
  lemma {:induction false} OneWorkerExact(s: State, run: seq<Step>)
    requires Inv(s) && IsRun(s, run) && s.running == {} && NobodyElse(run)
    ensures (forall i :: 0 <= i < |run| ==> !run[i].Announce?) && Last(s, run).running == {}
    ensures Passes(s, run) ==> Alive(Last(s, run)) == {}
    decreases |run|
  {
    if run != [] {
      InvKept(s, run[0]);
      OneWorkerExact(Next(s, run[0]), run[1..]);
      forall i | 0 <= i < |run| ensures !run[i].Announce? {
        if i > 0 { assert run[i] == run[1..][i - 1]; }
      }
    }
    if Passes(s, run) { StopExact(s, run); }
  }
}
