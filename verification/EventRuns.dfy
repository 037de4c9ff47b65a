/** Runs of the monitor in which a promise is broken. */
module EventRuns {
  import opened EventMonitor
  import opened EventThreads
  import opened EventGuarantees

  lemma Take(steps: seq<Step>, step: Step, w: World) returns (more: seq<Step>)
    requires Next(Run(steps), step) == w
    ensures more == steps + [step] && Run(more) == w
  {
    more := steps + [step];
    AfterOneMore(Initial(), steps, step);
  }

  /** A system without events: only the shared state, the threads and the subscriptions matter. */
  function Quiet(shared: Shared, threads: seq<Pc>, registrations: seq<Registration>): World {
    World(shared, false, [], 0, threads, registrations, map[], [], 0)
  }

  /** One subscriber, in the first place, for events of type 1. */
  function Only(): seq<Slot> { NoSubscribers()[0 := Taken(0, 1)] }

  lemma OneCall(id: nat)
    ensures Calls(Only(), Event(id, 1)) == [Delivery(0, id)]
  {
    var s := Only();
    assert Calls(s[1..], Event(id, 1)) == [] by { FreeCalls(s[1..], Event(id, 1)); }
  }

  lemma {:induction false} FreeCalls(slots: seq<Slot>, e: Event)
    requires forall k | 0 <= k < |slots| :: slots[k] == Free
    ensures Calls(slots, e) == []
  {
    if slots != [] { FreeCalls(slots[1..], e); }
  }

  lemma OneEvent(e: Event)
    requires e.id > 0
    ensures Deliveries([e], 0, Only()) == Calls(Only(), e)
  {
    hide Calls;
    assert [e][1..] == [];
  }

  lemma TwoEvents(e: Event, f: Event)
    requires e.id > 0 && f.id > 0
    ensures Deliveries([e, f], 0, Only()) == Calls(Only(), e) + Calls(Only(), f)
  {
    hide Calls;
    assert [e, f][1..] == [f];
    OneEvent(f);
  }

  function AddedOneWorld(): World {
    Quiet(Shared(true, 0, Only()), [Idle, Idle, PollCheck], [Registration(1, 0, 0)])
  }

  /** Two threads, the first subscribed, and the poller it started. */
  lemma AddedOne() returns (steps: seq<Step>)
    ensures Run(steps) == AddedOneWorld() && NoQueryFails(steps)
    ensures |steps| == 6 && forall step | step in steps :: !step.Insert?
  {
    hide Run;
    var go := Advance(0, true);
    RunNothing();
    assert Initial() == Quiet(Shared(false, 0, NoSubscribers()), [], []);
    steps := Take([], NewThread, Quiet(Shared(false, 0, NoSubscribers()), [Idle], []));
    steps := Take(steps, NewThread, Quiet(Shared(false, 0, NoSubscribers()), [Idle, Idle], []));
    steps := Take(steps, CallAdd(0, 1), Quiet(Shared(false, 0, NoSubscribers()), [AddInit(1), Idle], []));
    steps := Take(steps, go, Quiet(Shared(true, 0, NoSubscribers()), [AddSpawn(1), Idle], []));
    steps := Take(steps, go, Quiet(Shared(true, 0, NoSubscribers()), [AddOccupy(1), Idle, PollCheck], []));
    steps := Take(steps, go, Quiet(Shared(true, 0, Only()), [Idle, Idle, PollCheck], [Registration(1, 0, 0)]));
  }

  /** All steps' queries succeed. */
  predicate NoQueryFails(steps: seq<Step>) {
    forall i | 0 <= i < |steps| && steps[i].Advance? :: steps[i].ok
  }

  /** What such a poll leaves: both events delivered, the second above the watermark. */
  function LateDelivered(): World {
    var w := TwoStored();
    w.(shared := w.shared.(current := 1), log := [Delivery(0, 2), Delivery(0, 1)])
  }

  lemma StoredDuringPoll() returns (steps: seq<Step>)
    ensures Run(steps) == LateDelivered() && NoQueryFails(steps)
  {
    hide Run, After, Next, Within, Deliveries, Inv;
    var w, w2, poll := OneStored(), TwoStored(), Advance(2, true);
    steps := PollBegun();
    steps := Take(steps, Insert(1, 0), Within(w2, 2, FirstCount(1))) by { StoreWithin(w, 2, FirstCount(1)); }
    Counts(w2, 2, 1);
    steps := Take(steps, poll, Within(w2, 2, FirstRows(1, 2)));
    steps := Take(steps, poll, Within(w2, 2, SecondCount(1, 2)));
    steps := Take(steps, poll, Within(w2, 2, SecondRows(1, 2, 2)));
    OneCall(2);
    OneCall(1);
    TwoEvents(Event(2, 1), Event(1, 1));
    Leaves(w2, 2, 1);
    steps := Take(steps, poll, LateDelivered());
  }

  /** An event stored after a poll read the newest id and before it counts the events is delivered by that poll
      and again by the next, although no query fails. */
  lemma StoredDuringPollRepeats()
    ensures exists steps :: NoQueryFails(steps) && !NoRepeats(Run(steps).log)
  {
    hide Run;
    var steps := StoredDuringPoll();
    assert Delivered(LateDelivered(), 0, Event(2, 1));
    Again(steps, 2, 0, Event(2, 1));
  }

  /** What was delivered and lies above the watermark is delivered again. */
  lemma Again(steps: seq<Step>, t: nat, k: nat, e: Event)
    requires t < |Run(steps).threads| && Run(steps).threads[t] == PollCheck && !Run(steps).locked && Run(steps).shared.polling
    requires NoRepeats(Run(steps).log) && Delivered(Run(steps), k, e) && Run(steps).shared.current < e.id
    ensures !NoRepeats(Run(steps + Round(t)).log)
  {
    hide Run, After, Inv, Round;
    RunInv(steps);
    ExposedRepeats(Run(steps), t);
    AfterBoth(Initial(), steps, Round(t));
    RunIs(steps);
    RunIs(steps + Round(t));
  }

  function OneStored(): World {
    AddedOneWorld().(store := [Event(1, 1)], lastId := 1, history := map[1 := 1])
  }

  function TwoStored(): World {
    OneStored().(store := [Event(2, 1), Event(1, 1)], lastId := 2, history := map[1 := 1, 2 := 1])
  }

  lemma StoreWithin(w: World, t: nat, pc: Pc)
    requires w == OneStored() && t < |w.threads|
    ensures Next(Within(w, t, pc), Insert(1, 0)) == Within(TwoStored(), t, pc)
  {
  }

  /** One event is stored, and the poller has read its id as the newest. */
  lemma PollBegun() returns (steps: seq<Step>)
    ensures Run(steps) == Within(OneStored(), 2, FirstCount(1)) && NoQueryFails(steps)
  {
    hide Run;
    steps := AddedOne();
    steps := Take(steps, Insert(1, 0), OneStored());
    Enters(OneStored(), 2);
    steps := Take(steps, Advance(2, true), Goto(OneStored(), 2, PollRun));
    steps := Take(steps, Advance(2, true), Within(OneStored(), 2, FirstCount(1)));
  }

  /** An event stored after a poll's last count and before its rows are read pushes the oldest event out of the
      rows: it is passed over undelivered, although no query fails. */
  lemma StoredBeforeRowsLoses()
    ensures exists steps :: NoQueryFails(steps) && !NoneLost(Run(steps))
  {
    hide Run, Next, Within;
    var w1, w2, poll := OneStored(), TwoStored(), Advance(2, true);
    var steps := PollBegun();
    Counts(w1, 2, 1);
    steps := Take(steps, poll, Within(w1, 2, FirstRows(1, 1)));
    steps := Take(steps, poll, Within(w1, 2, SecondCount(1, 1)));
    steps := Take(steps, poll, Within(w1, 2, SecondRows(1, 1, 1)));
    StoreWithin(w1, 2, SecondRows(1, 1, 1));
    steps := Take(steps, Insert(1, 0), Within(w2, 2, SecondRows(1, 1, 1)));
    LeavesOne();
    var end := w2.(shared := w2.shared.(current := 1), log := [Delivery(0, 2)]);
    steps := Take(steps, poll, end);
    assert Owed(end, 0, w2.store[1]) && Delivery(0, 1) !in end.log;
  }

  lemma LeavesOne()
    ensures var w := TwoStored();
      Next(Within(w, 2, SecondRows(1, 1, 1)), Advance(2, true)) ==
      w.(shared := w.shared.(current := 1), log := [Delivery(0, 2)])
  {
    hide Deliveries;
    var w := TwoStored();
    OneCall(2);
    OneEvent(w.store[0]);
    assert w.store[..1] == [Event(2, 1)];
    assert w.threads[2 := PollCheck] == w.threads;
  }

  /** A failed query for the newest id makes the next poll repeat what was delivered, although nothing is stored
      while a poll is under way. */
  lemma FailedQueryRepeats()
    ensures exists steps :: CalmRun(steps) && !NoRepeats(Run(steps).log)
  {
    hide Run, After, Next, Inv;
    var w1, w2 := OneStored(), OneDelivered();
    var first := AddedOne();
    var steps := Take(first, Insert(1, 0), w1) by { StoreOne(); }
    PolledOnce(steps);
    steps := steps + Round(2);
    FailedQuery(w2);
    steps := Take(steps, Advance(2, true), Goto(w2, 2, PollRun));
    var end := w2.(shared := w2.shared.(current := 0));
    steps := Take(steps, Advance(2, false), end);
    assert Delivered(end, 0, w1.store[0]);
    Again(steps, 2, 0, w1.store[0]);
    OneInsert(first, steps + Round(2));
  }

  function OneDelivered(): World {
    var w := OneStored();
    w.(shared := w.shared.(current := 1), log := [Delivery(0, 1)])
  }

  lemma PolledOnce(steps: seq<Step>)
    requires Run(steps) == OneStored()
    ensures Run(steps + Round(2)) == OneDelivered()
  {
    hide Run, After, Inv, Deliveries;
    RunInv(steps);
    OneCall(1);
    OneEvent(Event(1, 1));
    UndisturbedPoll(OneStored(), 2);
    AfterBoth(Initial(), steps, Round(2));
    RunIs(steps);
    RunIs(steps + Round(2));
  }

  lemma RunIs(steps: seq<Step>)
    ensures Run(steps) == After(Initial(), steps)
  {
  }

  lemma StoreOne()
    ensures Next(AddedOneWorld(), Insert(1, 0)) == OneStored()
  {
  }

  lemma FailedQuery(w: World)
    requires w.threads == [Idle, Idle, PollCheck] && |w.shared.slots| == MAX_SUBSCRIBERS && !w.locked
    requires w.shared.polling && w.shared.current > 0
    ensures Next(w, Advance(2, true)) == Goto(w, 2, PollRun)
    ensures Next(Goto(w, 2, PollRun), Advance(2, false)) == w.(shared := w.shared.(current := 0))
  {
  }

  lemma OneInsert(first: seq<Step>, steps: seq<Step>)
    requires |first| < |steps| && first == steps[..|first|] && !Run(first).locked
    requires forall i | 0 <= i < |steps| && steps[i].Insert? :: i == |first|
    ensures CalmRun(steps)
  {
    hide Run;
  }

  /** Between a removal's scan and its stop another thread can subscribe; polling is then off although
      someone is subscribed. */
  lemma StopLosesASubscriber()
    ensures exists steps, step ::
      Covered(Run(steps)) && RemovesStop(Run(steps), step) && !Covered(Next(Run(steps), step))
  {
    hide Run;
    var two, r, other := NoSubscribers()[0 := Taken(1, 1)], [Registration(1, 0, 0)], Advance(1, true);
    var steps := AddedAndRemoving();
    steps := Take(steps, other, Quiet(Shared(true, 0, NoSubscribers()), [RemoveStop, AddOccupy(1), PollCheck], r));
    steps := Take(steps, other, Quiet(Shared(true, 0, two), [RemoveStop, Idle, PollCheck], r + r));
    var end := Quiet(Shared(false, 0, two), [Idle, Idle, PollCheck], r + r);
    assert Next(Run(steps), Advance(0, true)) == end;
    assert end.shared.slots[0].Taken?;
  }

  /** A thread that found polling on can subscribe after the stop. */
  lemma LateSubscriberIsLost()
    ensures exists steps, step ::
      Covered(Run(steps)) && Occupies(Run(steps), step) && !Covered(Next(Run(steps), step))
  {
    hide Run;
    var two, r, other := NoSubscribers()[0 := Taken(1, 1)], [Registration(1, 0, 0)], Advance(1, true);
    var steps := AddedAndRemoving();
    steps := Take(steps, other, Quiet(Shared(true, 0, NoSubscribers()), [RemoveStop, AddOccupy(1), PollCheck], r));
    steps := Take(steps, Advance(0, true), Quiet(Shared(false, 0, NoSubscribers()), [Idle, AddOccupy(1), PollCheck], r));
    var end := Quiet(Shared(false, 0, two), [Idle, Idle, PollCheck], r + r);
    assert Next(Run(steps), other) == end;
    assert end.shared.slots[0].Taken?;
  }

  predicate RemovesStop(w: World, step: Step) { step.Advance? && step.thread < |w.threads| && w.threads[step.thread].RemoveStop? }

  predicate Occupies(w: World, step: Step) { step.Advance? && step.thread < |w.threads| && w.threads[step.thread].AddOccupy? }

  /** The subscriber left, its thread is about to stop the poller, and another thread begins to subscribe. */
  lemma AddedAndRemoving() returns (steps: seq<Step>)
    ensures Run(steps) == Quiet(Shared(true, 0, NoSubscribers()), [RemoveStop, AddInit(1), PollCheck], [Registration(1, 0, 0)])
  {
    hide Run;
    var r := [Registration(1, 0, 0)];
    steps := AddedOne();
    steps := Take(steps, CallRemove(0, 0), Quiet(Shared(true, 0, Only()), [RemoveVacate(0), Idle, PollCheck], r));
    steps := Take(steps, CallAdd(1, 1), Quiet(Shared(true, 0, Only()), [RemoveVacate(0), AddInit(1), PollCheck], r));
    assert Only()[0 := Free] == NoSubscribers();
    steps := Take(steps, Advance(0, true), Quiet(Shared(true, 0, NoSubscribers()), [RemoveStop, AddInit(1), PollCheck], r));
  }
}
