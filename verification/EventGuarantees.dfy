/** What the monitor promises its subscribers, and exactly which steps break it: nothing is delivered twice,
    nothing owed is lost, and polling is on while someone is subscribed. */
module EventGuarantees {
  import opened EventMonitor
  import opened EventThreads
  import opened Runs

  // ---------------------------------------------------------------------------------------------
  // At most once

  /** The event was delivered to the subscriber in place k and is still stored. */
  ghost predicate Delivered(w: World, k: nat, e: Event) {
    && k < |w.shared.slots| && w.shared.slots[k].Taken? && e in w.store
    && Delivery(w.shared.slots[k].registration, e.id) in w.log
  }

  /** Nothing was called twice, and nothing is about to be: what a live subscriber got lies at or below the
      watermark. */
  ghost predicate OnceInv(w: World) {
    NoRepeats(w.log) && forall k, e | Delivered(w, k, e) :: e.id <= w.shared.current
  }

  /** The step's poll delivers these rows. */
  ghost predicate Delivers(w: World, step: Step, max: nat, rows: seq<Event>) {
    && step.Advance? && step.ok && step.thread < |w.threads| && w.threads[step.thread].SecondRows?
    && var pc := w.threads[step.thread];
    && max == pc.max && rows == Rows(w, pc.count) && |rows| <= pc.size
  }

  /** The step reads the newest id for a poll. */
  predicate ReadsNewest(w: World, step: Step) {
    step.Advance? && step.thread < |w.threads| && w.threads[step.thread] == PollRun && !w.locked
  }

  /** The two ways to forget what was delivered: the newest id reads lower than a delivered event, or a
      delivered event is newer than the newest id read before. */
  ghost predicate Exposes(w: World, step: Step) {
    || (&& ReadsNewest(w, step) && Newest(w, step.ok) < w.shared.current
        && exists k, e :: Delivered(w, k, e) && e.id > Newest(w, step.ok))
    || exists max, rows, k, e ::
         Delivers(w, step, max, rows) && 0 <= k < |w.shared.slots| && e in rows && w.shared.slots[k].Wants(e) && e.id > max
  }

  /** The newest id reads lower than a delivered event exactly when its query fails and a live subscriber was
      delivered an event that is still stored. */
  lemma FailedQueryExposes(w: World, step: Step)
    requires Inv(w) && OnceInv(w) && ReadsNewest(w, step)
    ensures Exposes(w, step) <==> !step.ok && exists k, e :: Delivered(w, k, e)
  {
    if k, e :| Delivered(w, k, e) { assert 0 < e.id <= w.shared.current; }
  }

  lemma OldCallIsNotMade(w: World, rows: seq<Event>, d: Delivery)
    requires Inv(w) && OnceInv(w) && d in w.log && forall e | e in rows :: e in w.store
    ensures d !in Deliveries(rows, w.shared.current, w.shared.slots)
  {
    hide Deliveries;
    CallIs(w, rows, d);
    forall e, k: nat | e in rows && k < |w.shared.slots| && w.shared.slots[k].Wants(e)
                       && d == Delivery(w.shared.slots[k].registration, e.id)
      ensures e.id <= w.shared.current
    {
      assert Delivered(w, k, e);
    }
  }

  lemma EndOnce(w: World, t: nat, max: nat, rows: seq<Event>)
    requires Inv(w) && OnceInv(w) && t < |w.threads| && w.threads[t].Querying() && w.threads[t].max == max
    requires DistinctIds(rows) && forall e | e in rows :: e in w.store
    ensures OnceInv(EndPoll(w, t, max, Fetched(rows))) <==>
            forall k, e | 0 <= k < |w.shared.slots| && e in rows && w.shared.slots[k].Wants(e) :: e.id <= max
  {
    hide Deliveries;
    var v, calls := EndPoll(w, t, max, Fetched(rows)), Deliveries(rows, w.shared.current, w.shared.slots);
    assert v.log == w.log + calls && v.shared == w.shared.(current := max) && v.store == w.store;
    DeliveriesNoRepeats(rows, w.shared.current, w.shared.slots);
    forall d | d in w.log ensures d !in calls { OldCallIsNotMade(w, rows, d); }
    NoRepeatsConcat(w.log, calls);
    forall k: nat, e | Delivered(v, k, e) && e.id > max
      ensures exists k, e :: 0 <= k < |w.shared.slots| && e in rows && w.shared.slots[k].Wants(e) && e.id > max
    {
      var d := Delivery(w.shared.slots[k].registration, e.id);
      assert d in w.log ==> Delivered(w, k, e);
      CallIs(w, rows, d);
    }
    forall k, e | 0 <= k < |w.shared.slots| && e in rows && w.shared.slots[k].Wants(e) && e.id > max
      ensures Delivered(v, k, e)
    {
      CallIs(w, rows, Delivery(w.shared.slots[k].registration, e.id));
    }
  }

  /** A step that only takes subscribers, events or nothing away, or adds what was never delivered, keeps it. */
  lemma FewerDelivered(w: World, v: World)
    requires OnceInv(w) && v.log == w.log && v.shared.current == w.shared.current
    requires forall k, e | Delivered(v, k, e) :: Delivered(w, k, e)
    ensures OnceInv(v)
  {
  }

  /** A step keeps that nothing is called twice, or about to be, exactly if it is none of the two ways. */
  lemma OnceExactly(w: World, step: Step)
    requires Inv(w) && OnceInv(w)
    ensures OnceInv(Next(w, step)) <==> !Exposes(w, step)
  {
    hide OnceInv, EndPoll, BeginPoll, Exposes;
    var v := Next(w, step);
    if step.Advance? && step.thread < |w.threads| {
      AdvanceOnce(w, step.thread, step.ok);
    } else {
      NotExposed(w, step);
      if step.Insert? {
        assert forall k, e | Delivered(v, k, e) :: e in w.store;
      }
      FewerDelivered(w, v);
    }
  }

  lemma NotExposed(w: World, step: Step)
    requires !step.Advance? || step.thread >= |w.threads| || !(w.threads[step.thread].PollRun? || w.threads[step.thread].SecondRows?)
    ensures !Exposes(w, step)
  {
  }

  lemma AdvanceOnce(w: World, t: nat, ok: bool)
    requires Inv(w) && OnceInv(w) && t < |w.threads|
    ensures OnceInv(AdvanceThread(w, t, ok)) <==> !Exposes(w, Advance(t, ok))
  {
    hide OnceInv, EndPoll, BeginPoll, Exposes, Deliveries;
    var v, pc := AdvanceThread(w, t, ok), w.threads[t];
    if pc.PollRun? {
      BeginOnce(w, t, ok);
    } else if pc.Querying() {
      QueryOnce(w, t, ok);
    } else {
      NotExposed(w, Advance(t, ok));
      if pc.AddInit? && !w.locked && !w.shared.polling {
        assert forall k, e :: !Delivered(v, k, e);
        NothingLive(w, v);
      } else {
        if pc.AddOccupy? && !w.locked { NewcomerGotNothing(w, v, pc.kind); }
        FewerDelivered(w, v);
      }
    }
  }

  lemma NothingLive(w: World, v: World)
    requires OnceInv(w) && v.log == w.log && forall k, e :: !Delivered(v, k, e)
    ensures OnceInv(v)
  {
  }

  lemma NewcomerGotNothing(w: World, v: World, kind: EventType)
    requires Inv(w) && v.shared == OccupySection(w.shared, |w.registrations|, kind).0 && v.log == w.log && v.store == w.store
    ensures forall k, e | Delivered(v, k, e) :: Delivered(w, k, e)
  {
    var slots := v.shared.slots;
    assert forall k | 0 <= k < |slots| :: slots[k] == w.shared.slots[k] || slots[k] == Taken(|w.registrations|, kind);
  }

  lemma BeginOnce(w: World, t: nat, ok: bool)
    requires Inv(w) && OnceInv(w) && t < |w.threads| && w.threads[t] == PollRun
    ensures OnceInv(AdvanceThread(w, t, ok)) <==> !Exposes(w, Advance(t, ok))
  {
    hide Delivers;
    var v := AdvanceThread(w, t, ok);
    assert forall max, rows :: !Delivers(w, Advance(t, ok), max, rows) by { assert !w.threads[t].SecondRows?; NoneDelivered(w, t, ok); }
    assert v.log == w.log && v.store == w.store && v.shared.slots == w.shared.slots;
    assert forall k, e :: Delivered(v, k, e) <==> Delivered(w, k, e);
  }

  lemma NoneDelivered(w: World, t: nat, ok: bool)
    requires t < |w.threads| && !w.threads[t].SecondRows?
    ensures forall max, rows :: !Delivers(w, Advance(t, ok), max, rows)
  {
  }

  lemma QueryOnce(w: World, t: nat, ok: bool)
    requires Inv(w) && OnceInv(w) && t < |w.threads| && w.threads[t].Querying()
    ensures OnceInv(AdvanceThread(w, t, ok)) <==> !Exposes(w, Advance(t, ok))
  {
    hide OnceInv, Deliveries;
    var v, pc, step := AdvanceThread(w, t, ok), w.threads[t], Advance(t, ok);
    EndOnce(w, t, pc.max, []);
    if pc.SecondRows? && ok && |Rows(w, pc.count)| <= pc.size {
      var rows := Rows(w, pc.count);
      RowsAreStored(w, pc.count);
      EndOnce(w, t, pc.max, rows);
      assert Delivers(w, step, pc.max, rows);
    } else {
      NoRowsDelivered(w, t, ok);
      if pc.SecondCount? && ok && w.store == [] {
        assert v == EndPoll(w, t, pc.max, Fetched([]));
      } else {
        FewerDelivered(w, v);
      }
    }
  }

  lemma NoRowsDelivered(w: World, t: nat, ok: bool)
    requires t < |w.threads| && w.threads[t].Querying()
    requires !(w.threads[t].SecondRows? && ok && |Rows(w, w.threads[t].count)| <= w.threads[t].size)
    ensures !Exposes(w, Advance(t, ok))
  {
  }

  /** Over a run nothing is called twice, or about to be, at any point exactly if no step is one of the two ways. */
  lemma {:induction false} OnceAlways(steps: seq<Step>)
    ensures (forall i | 0 <= i <= |steps| :: OnceInv(Run(steps[..i]))) <==>
            (forall i | 0 <= i < |steps| :: !Exposes(Run(steps[..i]), steps[i]))
  {
    hide OnceInv, Exposes, Inv, Next, Run;
    forall i | 0 <= i < |steps| && OnceInv(Run(steps[..i]))
      ensures OnceInv(Run(steps[..i + 1])) <==> !Exposes(Run(steps[..i]), steps[i])
    {
      RunInv(steps[..i]);
      RunOn(steps, i);
      OnceExactly(Run(steps[..i]), steps[i]);
    }
    OnceAtStart();
    assert steps[..0] == [];
    var good := (i: nat) => i <= |steps| && OnceInv(Run(steps[..i]));
    var bad := (i: nat) => i < |steps| && Exposes(Run(steps[..i]), steps[i]);
    AllAlong(|steps|, good, bad);
    forall i: nat | i <= |steps| ensures good(i) <==> OnceInv(Run(steps[..i])) {}
    forall i: nat | i < |steps| ensures bad(i) <==> Exposes(Run(steps[..i]), steps[i]) {}
  }

  lemma OnceAtStart()
    ensures OnceInv(Run([]))
  {
    RunNothing();
  }

  // ---------------------------------------------------------------------------------------------
  // None lost

  /** The subscriber in place k is owed the stored event: it asked for its type, before it was stored. */
  ghost predicate Owed(w: World, k: nat, e: Event) {
    && k < |w.shared.slots| && e in w.store && w.shared.slots[k].Taken?
    && w.shared.slots[k].registration < |w.registrations|
    && var registration := w.registrations[w.shared.slots[k].registration];
    && (registration.kind == e.kind || registration.kind == ALL_TYPES) && registration.since < e.id
  }

  /** Every stored event at or below the watermark has been delivered to every subscriber it is owed to. */
  ghost predicate NoneLost(w: World) {
    forall k: nat, e | Owed(w, k, e) && e.id <= w.shared.current :: Delivery(w.shared.slots[k].registration, e.id) in w.log
  }

  /** The way to lose an event: the watermark moves past an owed event that is not among the rows read. */
  ghost predicate Loses(w: World, step: Step) {
    exists max, rows, k: nat, e ::
      && Delivers(w, step, max, rows) && Owed(w, k, e) && w.shared.current < e.id <= max
      && e !in rows && Delivery(w.shared.slots[k].registration, e.id) !in w.log
  }

  /** A step keeps that no event is lost exactly if it is not that way. */
  lemma NoneLostExactly(w: World, step: Step)
    requires Inv(w) && NoneLost(w)
    ensures NoneLost(Next(w, step)) <==> !Loses(w, step)
  {
    hide NoneLost, EndPoll, BeginPoll, Loses;
    var v := Next(w, step);
    if step.Advance? && step.thread < |w.threads| {
      AdvanceNoneLost(w, step.thread, step.ok);
    } else {
      NothingLostBy(w, step);
      FewerOwed(w, v);
    }
  }

  lemma NothingLostBy(w: World, step: Step)
    requires forall max, rows :: !Delivers(w, step, max, rows)
    ensures !Loses(w, step)
  {
  }

  /** A step after which nothing more is owed below the watermark keeps it. */
  lemma FewerOwed(w: World, v: World)
    requires NoneLost(w) && v.log == w.log
    requires forall k: nat, e | Owed(v, k, e) && e.id <= v.shared.current ::
               Owed(w, k, e) && e.id <= w.shared.current && v.shared.slots[k] == w.shared.slots[k]
    ensures NoneLost(v)
  {
  }

  lemma AdvanceNoneLost(w: World, t: nat, ok: bool)
    requires Inv(w) && NoneLost(w) && t < |w.threads|
    ensures NoneLost(AdvanceThread(w, t, ok)) <==> !Loses(w, Advance(t, ok))
  {
    hide NoneLost, EndPoll, Loses, Deliveries;
    var v, pc := AdvanceThread(w, t, ok), w.threads[t];
    if pc.Querying() {
      QueryNoneLost(w, t, ok);
    } else {
      NothingLostBy(w, Advance(t, ok));
      if pc.AddOccupy? && !w.locked {
        NewcomerOwedNothing(w, v, pc.kind);
      }
      FewerOwed(w, v);
    }
  }

  lemma NewcomerOwedNothing(w: World, v: World, kind: EventType)
    requires Inv(w) && v.shared == OccupySection(w.shared, |w.registrations|, kind).0 && v.store == w.store
    requires v.registrations == if FirstFree(w.shared.slots) < |w.shared.slots| then w.registrations + [Registration(kind, w.lastId, w.begun)] else w.registrations
    ensures forall k: nat, e | Owed(v, k, e) :: Owed(w, k, e) && v.shared.slots[k] == w.shared.slots[k]
  {
    var slots := v.shared.slots;
    assert forall k | 0 <= k < |slots| :: slots[k] == w.shared.slots[k] || slots[k] == Taken(|w.registrations|, kind);
  }

  lemma QueryNoneLost(w: World, t: nat, ok: bool)
    requires Inv(w) && NoneLost(w) && t < |w.threads| && w.threads[t].Querying()
    ensures NoneLost(AdvanceThread(w, t, ok)) <==> !Loses(w, Advance(t, ok))
  {
    hide NoneLost, Loses, Deliveries;
    var v, pc := AdvanceThread(w, t, ok), w.threads[t];
    if pc.SecondRows? && ok && |Rows(w, pc.count)| <= pc.size {
      RowsAreStored(w, pc.count);
      EndNoneLost(w, t, pc.count);
    } else {
      NothingLostBy(w, Advance(t, ok));
      EndOfNothing(w, t, pc.max);
      FewerOwed(w, v);
    }
  }

  lemma EndOfNothing(w: World, t: nat, max: nat)
    requires t < |w.threads|
    ensures EndPoll(w, t, max, Fetched([])).log == w.log
  {
  }

  lemma EndNoneLost(w: World, t: nat, count: nat)
    requires Inv(w) && NoneLost(w) && t < |w.threads| && w.threads[t].SecondRows? && w.threads[t].count == count
    requires |Rows(w, count)| <= w.threads[t].size
    ensures NoneLost(EndPoll(w, t, w.threads[t].max, Fetched(Rows(w, count)))) <==> !Loses(w, Advance(t, true))
  {
    hide Deliveries;
    var max, rows := w.threads[t].max, Rows(w, count);
    var v, calls := EndPoll(w, t, max, Fetched(rows)), Deliveries(rows, w.shared.current, w.shared.slots);
    assert v.log == w.log + calls && v.shared == w.shared.(current := max) && v.store == w.store;
    assert Delivers(w, Advance(t, true), max, rows);
    forall k: nat, e | Owed(w, k, e) && e.id <= max
      ensures Delivery(w.shared.slots[k].registration, e.id) in calls <==> e in rows && e.id > w.shared.current
    {
      CallIs(w, rows, Delivery(w.shared.slots[k].registration, e.id));
    }
    assert forall k: nat, e :: Owed(v, k, e) <==> Owed(w, k, e);
    if !Loses(w, Advance(t, true)) {
      forall k: nat, e | Owed(v, k, e) && e.id <= max ensures Delivery(v.shared.slots[k].registration, e.id) in v.log {
        assert Owed(w, k, e);
      }
    } else {
      var max', rows', k: nat, e :|
        && Delivers(w, Advance(t, true), max', rows') && Owed(w, k, e) && w.shared.current < e.id <= max'
        && e !in rows' && Delivery(w.shared.slots[k].registration, e.id) !in w.log;
      assert Owed(v, k, e) && Delivery(v.shared.slots[k].registration, e.id) !in v.log;
    }
  }

  /** Over a run no event is lost at any point exactly if no step is the way to lose one. */
  lemma NoneLostAlways(steps: seq<Step>)
    ensures (forall i: nat | i <= |steps| :: NoneLost(Run(steps[..i]))) <==>
            (forall i: nat | i < |steps| :: !Loses(Run(steps[..i]), steps[i]))
  {
    hide NoneLost, Loses, Inv, Next, Run;
    forall i | 0 <= i < |steps| && NoneLost(Run(steps[..i]))
      ensures NoneLost(Run(steps[..i + 1])) <==> !Loses(Run(steps[..i]), steps[i])
    {
      RunInv(steps[..i]);
      RunOn(steps, i);
      NoneLostExactly(Run(steps[..i]), steps[i]);
    }
    assert NoneLost(Run(steps[..0])) by { RunNothing(); NoneLostAtStart(); assert steps[..0] == []; }
    var good := (i: nat) => i <= |steps| && NoneLost(Run(steps[..i]));
    var bad := (i: nat) => i < |steps| && Loses(Run(steps[..i]), steps[i]);
    AllAlong(|steps|, good, bad);
    forall i: nat | i <= |steps| ensures good(i) <==> NoneLost(Run(steps[..i])) {}
    forall i: nat | i < |steps| ensures bad(i) <==> Loses(Run(steps[..i]), steps[i]) {}
  }

  lemma NoneLostAtStart()
    ensures NoneLost(Initial())
  {
  }

  // ---------------------------------------------------------------------------------------------
  // Runs in which nothing is stored while a poll is under way

  /** Nothing is stored while the mutex is taken. */
  predicate Calm(w: World, step: Step) { step.Insert? ==> !w.locked }

  /** The poller's counts still cover the table, and its newest id every event. */
  ghost predicate CountsCover(w: World, pc: Pc) {
    && !pc.Overread?
    && (pc.Querying() ==> forall e | e in w.store :: e.id <= pc.max)
    && (pc.FirstRows? ==> |w.store| <= pc.count)
    && (pc.SecondCount? ==> |w.store| <= pc.size)
    && (pc.SecondRows? ==> |w.store| <= pc.size && |w.store| <= pc.count)
  }

  ghost predicate CalmInv(w: World) {
    forall t | 0 <= t < |w.threads| :: CountsCover(w, w.threads[t])
  }

  lemma OutsideCovers(w: World, pc: Pc)
    requires !pc.Inside()
    ensures CountsCover(w, pc)
  {
  }

  lemma FewerCovers(w: World, v: World, pc: Pc)
    requires CountsCover(w, pc) && |v.store| <= |w.store| && forall e | e in v.store :: e in w.store
    ensures CountsCover(v, pc)
  {
  }

  lemma AdvanceCovers(w: World, t: nat, ok: bool)
    requires t < |w.threads| && |w.shared.slots| == MAX_SUBSCRIBERS && CountsCover(w, w.threads[t])
    ensures var v := AdvanceThread(w, t, ok); CountsCover(v, v.threads[t])
  {
    hide PollSection, OccupySection;
  }

  lemma OthersStay(w: World, t: nat, ok: bool)
    requires t < |w.threads| && |w.shared.slots| == MAX_SUBSCRIBERS
    ensures var v := AdvanceThread(w, t, ok);
      && v.store == w.store && |w.threads| <= |v.threads|
      && forall u | 0 <= u < |v.threads| && u != t :: v.threads[u] == if u < |w.threads| then w.threads[u] else PollCheck
  {
    hide PollSection, InitSection, OccupySection, VacateSection, MaxId, Rows;
  }

  /** Such steps keep the poller's counts covering the table, whatever else any thread does. */
  lemma CalmKept(w: World, step: Step)
    requires Inv(w) && CalmInv(w) && Calm(w, step)
    ensures CalmInv(Next(w, step))
  {
    hide CountsCover, AdvanceThread;
    var v := Next(w, step);
    if step.Advance? && step.thread < |w.threads| {
      AdvanceCovers(w, step.thread, step.ok);
      OthersStay(w, step.thread, step.ok);
    }
    forall t | 0 <= t < |v.threads| && !(step.Advance? && t == step.thread) ensures CountsCover(v, v.threads[t]) {
      if !v.threads[t].Inside() {
        OutsideCovers(v, v.threads[t]);
      } else {
        FewerCovers(w, v, v.threads[t]);
      }
    }
  }

  /** A run of such steps. */
  ghost predicate CalmRun(steps: seq<Step>) {
    forall i: nat | i < |steps| :: Calm(Run(steps[..i]), steps[i])
  }

  lemma {:induction false} CalmRunInv(steps: seq<Step>, n: nat)
    requires CalmRun(steps) && n <= |steps|
    ensures Inv(Run(steps[..n])) && CalmInv(Run(steps[..n]))
  {
    hide Inv, Next, Run, CountsCover;
    RunInv(steps[..n]);
    if n == 0 {
      RunNothing();
      assert steps[..0] == [];
      assert CalmInv(Initial());
    } else {
      CalmRunInv(steps, n - 1);
      RunOn(steps, n - 1);
      CalmKept(Run(steps[..n - 1]), steps[n - 1]);
    }
  }

  /** Then a poll delivers the whole table, and its newest id covers every event. */
  lemma CalmDelivers(w: World, step: Step, max: nat, rows: seq<Event>)
    requires CalmInv(w) && Delivers(w, step, max, rows)
    ensures rows == w.store && forall e | e in w.store :: e.id <= max
  {
    assert CountsCover(w, w.threads[step.thread]);
  }

  /** Over such a run nothing is called twice, or about to be, at any point exactly if the newest id is never
      lost to a failed query while a live subscriber was delivered an event that is still stored. */
  lemma OnceWhenCalm(steps: seq<Step>)
    requires CalmRun(steps)
    ensures (forall i: nat | i <= |steps| :: OnceInv(Run(steps[..i]))) <==>
            (forall i: nat | i < |steps| :: !Forgets(Run(steps[..i]), steps[i]))
  {
    hide Run, OnceInv, Exposes, Forgets, Inv, CountsCover;
    OnceAlways(steps);
    forall i: nat | i < |steps|
      ensures OnceInv(Run(steps[..i])) && Exposes(Run(steps[..i]), steps[i]) ==> Forgets(Run(steps[..i]), steps[i])
      ensures OnceInv(Run(steps[..i])) && Forgets(Run(steps[..i]), steps[i]) ==> Exposes(Run(steps[..i]), steps[i])
      ensures !Forgets(Run(steps[..i]), steps[i]) ==> !Exposes(Run(steps[..i]), steps[i])
    {
      CalmRunInv(steps, i);
      CalmExposes(Run(steps[..i]), steps[i]);
    }
  }

  /** The query for the newest id fails, and a live subscriber was delivered an event that is still stored. */
  ghost predicate Forgets(w: World, step: Step) {
    ReadsNewest(w, step) && !step.ok && exists k, e :: Delivered(w, k, e)
  }

  lemma CalmExposes(w: World, step: Step)
    requires Inv(w) && CalmInv(w)
    ensures Exposes(w, step) ==> Forgets(w, step)
    ensures OnceInv(w) && Forgets(w, step) ==> Exposes(w, step)
  {
    hide CountsCover, CalmInv, Delivers;
    if max, rows :| Delivers(w, step, max, rows) { CalmDelivers(w, step, max, rows); }
    forall max, rows | Delivers(w, step, max, rows) ensures rows == w.store && forall e | e in w.store :: e.id <= max {
      CalmDelivers(w, step, max, rows);
    }
    if OnceInv(w) && ReadsNewest(w, step) { FailedQueryExposes(w, step); }
  }

  /** With every query for the newest id answered, nothing is delivered twice over such a run, and what a live
      subscriber got lies at or below the watermark. */
  lemma AtMostOnce(steps: seq<Step>)
    requires CalmRun(steps)
    requires forall i: nat | i < |steps| && ReadsNewest(Run(steps[..i]), steps[i]) :: steps[i].ok
    ensures NoRepeats(Run(steps).log)
    ensures forall k, e | Delivered(Run(steps), k, e) :: e.id <= Run(steps).shared.current
  {
    hide Run, CalmRun, Delivered;
    OnceWhenCalm(steps);
    assert steps[..|steps|] == steps;
  }

  /** Whatever queries fail, over such a run no owed event is lost. */
  lemma NothingLost(steps: seq<Step>)
    requires CalmRun(steps)
    ensures NoneLost(Run(steps))
  {
    hide Run, NoneLost, Inv, CountsCover, Delivers;
    NoneLostAlways(steps);
    forall i: nat | i < |steps| ensures !Loses(Run(steps[..i]), steps[i]) {
      CalmRunInv(steps, i);
      var w := Run(steps[..i]);
      forall max, rows | Delivers(w, steps[i], max, rows) ensures rows == w.store { CalmDelivers(w, steps[i], max, rows); }
    }
    assert steps[..|steps|] == steps;
  }

  /** After a poll that delivers, everything a subscriber is owed has been delivered to it. */
  lemma PollCatchesUp(steps: seq<Step>, step: Step, max: nat, rows: seq<Event>, k: nat, e: Event)
    requires CalmRun(steps) && Delivers(Run(steps), step, max, rows) && Owed(Run(steps), k, e)
    ensures Delivery(Run(steps).shared.slots[k].registration, e.id) in Next(Run(steps), step).log
  {
    hide Run, NoneLost, CalmRun, Deliveries;
    var w := Run(steps);
    assert steps[..|steps|] == steps;
    CalmRunInv(steps, |steps|);
    NothingLost(steps);
    CalmDelivers(w, step, max, rows);
    CaughtUp(w, step, max, rows, k, e);
  }

  lemma CaughtUp(w: World, step: Step, max: nat, rows: seq<Event>, k: nat, e: Event)
    requires Inv(w) && NoneLost(w) && Delivers(w, step, max, rows) && Owed(w, k, e) && e in rows
    ensures Delivery(w.shared.slots[k].registration, e.id) in Next(w, step).log
  {
    hide Deliveries;
    var d := Delivery(w.shared.slots[k].registration, e.id);
    CallIs(w, rows, d);
    assert e.id <= w.shared.current ==> d in w.log;
    assert d in w.log + Deliveries(rows, w.shared.current, w.shared.slots);
  }

  // ---------------------------------------------------------------------------------------------
  // What a broken promise leads to

  /** Steps of one thread that nobody disturbs. */
  function Alone(t: nat, n: nat): seq<Step> { seq(n, _ => Advance(t, true)) }

  lemma OneMoreAlone(w: World, t: nat, n: nat)
    requires |w.shared.slots| == MAX_SUBSCRIBERS
    ensures After(w, Alone(t, n + 1)) == Next(After(w, Alone(t, n)), Advance(t, true))
  {
    assert Alone(t, n + 1) == Alone(t, n) + [Advance(t, true)];
    AfterOneMore(w, Alone(t, n), Advance(t, true));
  }

  /** A round of the poller: the check whether to go on, the mutex with the newest id, and four more queries. */
  function Round(t: nat): seq<Step> { Alone(t, 6) }

  /** The poller inside the mutex. */
  function Within(w: World, t: nat, pc: Pc): World
    requires t < |w.threads|
  {
    Goto(w, t, pc).(locked := true)
  }

  lemma Enters(w: World, t: nat)
    requires t < |w.threads| && |w.shared.slots| == MAX_SUBSCRIBERS && w.threads[t] == PollCheck && !w.locked
    requires w.shared.polling && w.shared.current < MaxId(w.store)
    ensures Next(w, Advance(t, true)) == Goto(w, t, PollRun)
    ensures Next(Goto(w, t, PollRun), Advance(t, true)) == Within(w, t, FirstCount(MaxId(w.store)))
  {
    hide EndPoll, MaxId;
  }

  lemma Counts(w: World, t: nat, max: nat)
    requires t < |w.threads| && |w.shared.slots| == MAX_SUBSCRIBERS && w.store != []
    ensures var n, go := |w.store|, Advance(t, true);
      && Next(Within(w, t, FirstCount(max)), go) == Within(w, t, FirstRows(max, n))
      && Next(Within(w, t, FirstRows(max, n)), go) == Within(w, t, SecondCount(max, n))
      && Next(Within(w, t, SecondCount(max, n)), go) == Within(w, t, SecondRows(max, n, n))
  {
    hide EndPoll;
  }

  lemma Leaves(w: World, t: nat, max: nat)
    requires t < |w.threads| && |w.shared.slots| == MAX_SUBSCRIBERS && w.store != [] && w.threads[t] == PollCheck && !w.locked
    requires w.shared.current < max
    ensures Next(Within(w, t, SecondRows(max, |w.store|, |w.store|)), Advance(t, true)) ==
            w.(shared := w.shared.(current := max), log := w.log + Deliveries(w.store, w.shared.current, w.shared.slots))
  {
    hide Deliveries;
    assert w.store[..|w.store|] == w.store;
    assert w.threads[t := PollCheck] == w.threads;
  }

  lemma {:induction false} UndisturbedPoll(w: World, t: nat)
    requires Inv(w) && t < |w.threads| && w.threads[t] == PollCheck && !w.locked && w.shared.polling
    requires w.shared.current < MaxId(w.store)
    ensures After(w, Round(t)) ==
            w.(shared := w.shared.(current := MaxId(w.store)),
               log := w.log + Deliveries(w.store, w.shared.current, w.shared.slots))
  {
    hide Deliveries, MaxId, After, Next, Within;
    NoSteps(w, t);
    SomeStored(w);
    Enters(w, t);
    Counts(w, t, MaxId(w.store));
    Leaves(w, t, MaxId(w.store));
    OneMoreAlone(w, t, 0);
    OneMoreAlone(w, t, 1);
    OneMoreAlone(w, t, 2);
    OneMoreAlone(w, t, 3);
    OneMoreAlone(w, t, 4);
    OneMoreAlone(w, t, 5);
  }

  lemma NoSteps(w: World, t: nat)
    requires |w.shared.slots| == MAX_SUBSCRIBERS
    ensures After(w, Alone(t, 0)) == w
  {
  }

  lemma SomeStored(w: World)
    requires w.shared.current < MaxId(w.store)
    ensures w.store != []
  {
  }

  /** What was delivered above the watermark is delivered again by the next undisturbed poll: it repeats a call
      exactly if something was about to be. */
  lemma ExposedRepeats(w: World, t: nat)
    requires Inv(w) && t < |w.threads| && w.threads[t] == PollCheck && !w.locked && w.shared.polling
    requires w.shared.current < MaxId(w.store) && NoRepeats(w.log)
    ensures NoRepeats(After(w, Round(t)).log) <==> OnceInv(w)
  {
    hide Deliveries, MaxId, After;
    UndisturbedPoll(w, t);
    var calls := Deliveries(w.store, w.shared.current, w.shared.slots);
    if OnceInv(w) {
      DeliveriesNoRepeats(w.store, w.shared.current, w.shared.slots);
      forall d | d in w.log ensures d !in calls { OldCallIsNotMade(w, w.store, d); }
      NoRepeatsConcat(w.log, calls);
    } else {
      var k: nat, e :| Delivered(w, k, e) && e.id > w.shared.current;
      var d := Delivery(w.shared.slots[k].registration, e.id);
      DeliveredWants(w, k, e);
      CallIs(w, w.store, d);
      var i :| 0 <= i < |w.log| && w.log[i] == d;
      var j :| 0 <= j < |calls| && calls[j] == d;
      assert (w.log + calls)[i] == (w.log + calls)[|w.log| + j];
    }
  }

  /** What a live subscriber was delivered, its place wants. */
  lemma DeliveredWants(w: World, k: nat, e: Event)
    requires Inv(w) && Delivered(w, k, e)
    ensures w.shared.slots[k].Wants(e)
  {
  }

  // ---------------------------------------------------------------------------------------------
  // Polling and subscribers

  /** Polling is on while someone is subscribed. */
  ghost predicate Covered(w: World) { SomeoneSubscribed(w.shared) ==> w.shared.polling }

  /** The two ways to leave a subscriber without polling: a stop while a place is taken, and a place taken after
      a stop by a thread that had found polling on. */
  ghost predicate Uncovers(w: World, step: Step) {
    && step.Advance? && step.thread < |w.threads| && !w.locked
    && (|| (w.threads[step.thread].RemoveStop? && SomeoneSubscribed(w.shared))
        || (w.threads[step.thread].AddOccupy? && !w.shared.polling && FirstFree(w.shared.slots) < |w.shared.slots|))
  }

  /** A step keeps that polling is on while someone is subscribed exactly if it is none of the two ways. */
  lemma CoveredExactly(w: World, step: Step)
    requires |w.shared.slots| == MAX_SUBSCRIBERS && Covered(w)
    ensures Covered(Next(w, step)) <==> !Uncovers(w, step)
  {
    hide EndPoll, PollSection, FirstFree, MaxId, SomeoneSubscribed;
    var v := Next(w, step);
    if step.Advance? && step.thread < |w.threads| {
      ThreadCovers(w, step.thread, step.ok);
    }
  }

  lemma ThreadCovers(w: World, t: nat, ok: bool)
    requires |w.shared.slots| == MAX_SUBSCRIBERS && Covered(w) && t < |w.threads|
    ensures Covered(AdvanceThread(w, t, ok)) <==> !Uncovers(w, Advance(t, ok))
  {
    hide FirstFree, MaxId;
    var v, pc := AdvanceThread(w, t, ok), w.threads[t];
    if pc.Querying() || pc.PollRun? {
      PollCovers(w, t, ok);
    } else if pc.AddOccupy? {
      var i := FirstFree(w.shared.slots);
      assert !w.locked && i < |w.shared.slots| ==> v.shared.slots[i].Taken?;
    } else if pc.RemoveVacate? && v.shared.polling == w.shared.polling {
      assert forall k | 0 <= k < |v.shared.slots| && v.shared.slots[k].Taken? :: w.shared.slots[k].Taken?;
    }
  }

  lemma PollCovers(w: World, t: nat, ok: bool)
    requires |w.shared.slots| == MAX_SUBSCRIBERS && t < |w.threads| && (w.threads[t].Querying() || w.threads[t].PollRun?)
    ensures Covered(AdvanceThread(w, t, ok)) <==> Covered(w)
  {
    hide Deliveries, MaxId;
  }

  /** Over a run polling covers all subscribers at every point exactly if no step is one of the two ways. */
  lemma CoveredAlways(steps: seq<Step>)
    ensures (forall i: nat | i <= |steps| :: Covered(Run(steps[..i]))) <==>
            (forall i: nat | i < |steps| :: !Uncovers(Run(steps[..i]), steps[i]))
  {
    hide Covered, Uncovers, Next, Run;
    forall i | 0 <= i < |steps| && Covered(Run(steps[..i]))
      ensures Covered(Run(steps[..i + 1])) <==> !Uncovers(Run(steps[..i]), steps[i])
    {
      RunOn(steps, i);
      CoveredExactly(Run(steps[..i]), steps[i]);
    }
    assert Covered(Run(steps[..0])) by { RunNothing(); CoveredAtStart(); assert steps[..0] == []; }
    var good := (i: nat) => i <= |steps| && Covered(Run(steps[..i]));
    var bad := (i: nat) => i < |steps| && Uncovers(Run(steps[..i]), steps[i]);
    AllAlong(|steps|, good, bad);
    forall i: nat | i <= |steps| ensures good(i) <==> Covered(Run(steps[..i])) {}
    forall i: nat | i < |steps| ensures bad(i) <==> Uncovers(Run(steps[..i]), steps[i]) {}
  }

  lemma CoveredAtStart()
    ensures Covered(Initial())
  {
  }

  /** A thread that polls, or is about to start one that does. */
  predicate Polls(pc: Pc) { pc.AddSpawn? || pc.PollCheck? || pc.PollRun? || pc.Inside() }

  /** While polling is on there is such a thread. */
  ghost predicate Polled(w: World) {
    w.shared.polling ==> exists t :: 0 <= t < |w.threads| && Polls(w.threads[t])
  }

  lemma ThreadPolls(w: World, t: nat, ok: bool)
    requires |w.shared.slots| == MAX_SUBSCRIBERS && t < |w.threads|
    ensures var v := AdvanceThread(w, t, ok);
      && |w.threads| + (if w.threads[t].AddSpawn? then 1 else 0) == |v.threads|
      && (forall u | 0 <= u < |w.threads| && u != t :: v.threads[u] == w.threads[u])
      && (v.shared.polling && Polls(w.threads[t]) ==> Polls(v.threads[if w.threads[t].AddSpawn? then |w.threads| else t]))
      && (v.shared.polling && !w.shared.polling ==> Polls(v.threads[t]))
  {
    hide OccupySection, Deliveries, MaxId, Rows;
    var v := AdvanceThread(w, t, ok);
    if v.shared.polling && !w.shared.polling {
      assert w.threads[t].AddInit? && v.threads[t].AddSpawn? by { PollingStarts(w, t, ok); }
    }
  }

  lemma PollingStarts(w: World, t: nat, ok: bool)
    requires |w.shared.slots| == MAX_SUBSCRIBERS && t < |w.threads|
    requires AdvanceThread(w, t, ok).shared.polling && !w.shared.polling
    ensures w.threads[t].AddInit? && AdvanceThread(w, t, ok).threads[t].AddSpawn?
  {
    hide Deliveries, MaxId, Rows, FirstFree;
  }

  lemma NextKeepsPolled(w: World, step: Step)
    requires |w.shared.slots| == MAX_SUBSCRIBERS && Polled(w)
    ensures Polled(Next(w, step))
  {
    hide AdvanceThread, Kept, Polls;
    var v := Next(w, step);
    if step.Advance? && step.thread < |w.threads| { ThreadPolls(w, step.thread, step.ok); }
    if v.shared.polling && w.shared.polling {
      var t :| 0 <= t < |w.threads| && Polls(w.threads[t]);
      if step.Advance? && step.thread == t {
        var u := if w.threads[t].AddSpawn? then |w.threads| else t;
        assert v.shared.polling ==> Polls(v.threads[u]);
      } else {
        IdlePollsNot(w.threads[t]);
        assert v.threads[t] == w.threads[t];
      }
    }
  }

  lemma IdlePollsNot(pc: Pc)
    requires Polls(pc)
    ensures pc != Idle
  {
  }

  /** In every reachable state in which polling is on, some thread polls or is about to start one that does. */
  lemma {:induction false} PollerExists(steps: seq<Step>)
    ensures Polled(Run(steps))
    decreases |steps|
  {
    hide Next, Run, Polled;
    if steps == [] {
      RunNothing();
      NotPolling();
    } else {
      var i := |steps| - 1;
      PollerExists(steps[..i]);
      RunOn(steps, i);
      assert steps[..i + 1] == steps;
      NextKeepsPolled(Run(steps[..i]), steps[i]);
    }
  }

  lemma NotPolling()
    ensures Polled(Initial())
  {
  }

  /** A new subscription wipes the others exactly if some are there and polling is off. */
  lemma InitWipes(w: World, t: nat, ok: bool)
    requires |w.shared.slots| == MAX_SUBSCRIBERS && t < |w.threads| && w.threads[t].AddInit? && !w.locked
    ensures (exists k :: 0 <= k < MAX_SUBSCRIBERS && w.shared.slots[k].Taken?
                         && AdvanceThread(w, t, ok).shared.slots[k] != w.shared.slots[k])
            <==> !Covered(w)
  {
    var v := AdvanceThread(w, t, ok);
    if SomeoneSubscribed(w.shared) && !w.shared.polling {
      var k :| 0 <= k < |w.shared.slots| && w.shared.slots[k].Taken?;
      assert v.shared.slots[k] == Free;
    }
  }
}
