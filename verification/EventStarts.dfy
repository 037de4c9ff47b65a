/** A subscriber is left alone with what was stored before polling was started for it. */
module EventStarts {
  import opened EventGuarantees
  import opened EventMonitor
  import opened EventThreads
  import opened Runs

  /** Stored events from before polling was last started lie at or below the watermark. */
  ghost predicate OldBelow(w: World) {
    forall e | e in w.store && e.id <= w.begun :: e.id <= w.shared.current
  }

  /** Polling was started for all live subscribers at once. */
  ghost predicate BegunTogether(w: World) {
    forall k | 0 <= k < |w.shared.slots| && w.shared.slots[k].Taken? ::
      && w.shared.slots[k].registration < |w.registrations|
      && w.registrations[w.shared.slots[k].registration].begun == w.begun
  }

  /** Every call so far was for an event given out after polling was started for the subscriber. */
  ghost predicate LogLater(w: World) {
    forall d | d in w.log :: d.registration < |w.registrations| && w.registrations[d.registration].begun < d.id
  }

  ghost predicate LaterInv(w: World) {
    w.begun <= w.lastId && OldBelow(w) && BegunTogether(w) && LogLater(w)
  }

  /** The step starts polling. */
  predicate Starts(w: World, step: Step) {
    step.Advance? && step.thread < |w.threads| && w.threads[step.thread].AddInit? && !w.locked && !w.shared.polling
  }

  /** The way to call for older events: the query for the newest id fails while one is stored. */
  ghost predicate Reaches(w: World, step: Step) {
    || (ReadsNewest(w, step) && !step.ok && exists e :: e in w.store && e.id <= w.begun)
    || (Starts(w, step) && !step.ok && w.store != [])
  }

  /** Starting leaves every stored event at or below the watermark exactly if the query for the newest id
      succeeds, or nothing is stored. */
  lemma StartsAbove(w: World, step: Step)
    requires Inv(w) && Starts(w, step)
    ensures (forall e | e in w.store :: e.id <= Next(w, step).shared.current) <==> step.ok || w.store == []
  {
    if w.store != [] { assert w.store[0] in w.store; }
  }

  lemma SameLater(w: World, v: World)
    requires LaterInv(w) && v.begun == w.begun && w.lastId <= v.lastId && v.log == w.log && v.registrations == w.registrations
    requires v.shared.current == w.shared.current && forall e | e in v.store && e.id <= v.begun :: e in w.store
    requires |v.shared.slots| == |w.shared.slots|
    requires forall k | 0 <= k < |v.shared.slots| && v.shared.slots[k].Taken? :: v.shared.slots[k] == w.shared.slots[k]
    ensures LaterInv(v)
  {
  }

  /** Ending a round keeps it, whatever rows are delivered. */
  lemma EndLater(w: World, t: nat, max: nat, fetch: Fetch)
    requires Inv(w) && LaterInv(w) && t < |w.threads| && w.threads[t].Querying() && w.threads[t].max == max
    requires fetch.Fetched? ==> forall e | e in fetch.events :: e in w.store
    ensures LaterInv(EndPoll(w, t, max, fetch))
  {
    var v := EndPoll(w, t, max, fetch);
    if fetch.Fetched? {
      forall d | d in v.log && d !in w.log
        ensures d.registration < |v.registrations| && v.registrations[d.registration].begun < d.id
      {
        assert d in Deliveries(fetch.events, w.shared.current, w.shared.slots);
        CallIs(w, fetch.events, d);
      }
    }
  }

  lemma QueryLater(w: World, t: nat, ok: bool)
    requires Inv(w) && LaterInv(w) && t < |w.threads| && w.threads[t].Querying()
    ensures LaterInv(AdvanceThread(w, t, ok))
  {
    hide EndPoll, LaterInv;
    var pc := w.threads[t];
    EndLater(w, t, pc.max, Failed);
    EndLater(w, t, pc.max, Fetched([]));
    if pc.SecondRows? {
      RowsAreStored(w, pc.count);
      EndLater(w, t, pc.max, FetchOf(pc.size, Rows(w, pc.count)));
    }
    forall next ensures LaterInv(Goto(w, t, next)) { GotoLater(w, t, next); }
  }

  lemma GotoLater(w: World, t: nat, next: Pc)
    requires LaterInv(w) && t < |w.threads|
    ensures LaterInv(Goto(w, t, next))
  {
  }

  lemma BeginLater(w: World, t: nat, ok: bool)
    requires Inv(w) && LaterInv(w) && t < |w.threads| && w.threads[t] == PollRun && !w.locked
    ensures LaterInv(BeginPoll(w, t, ok)) <==> !Reaches(w, Advance(t, ok))
  {
    hide MaxId;
    var v := BeginPoll(w, t, ok);
    assert v.registrations == w.registrations && v.log == w.log && v.shared.slots == w.shared.slots && v.store == w.store;
    if ok { NewestCovers(w); }
  }

  lemma NewestCovers(w: World)
    ensures forall e | e in w.store :: e.id <= MaxId(w.store)
  {
  }

  lemma OccupyLater(w: World, t: nat, ok: bool)
    requires Inv(w) && LaterInv(w) && t < |w.threads| && w.threads[t].AddOccupy?
    ensures LaterInv(AdvanceThread(w, t, ok))
  {
    var v, slots := AdvanceThread(w, t, ok), AdvanceThread(w, t, ok).shared.slots;
    assert forall k | 0 <= k < |slots| :: slots[k] == w.shared.slots[k] || slots[k] == Taken(|w.registrations|, w.threads[t].kind);
  }

  lemma StartLater(w: World, t: nat, ok: bool)
    requires Inv(w) && LaterInv(w) && Starts(w, Advance(t, ok))
    ensures LaterInv(Next(w, Advance(t, ok))) <==> !Reaches(w, Advance(t, ok))
  {
    hide MaxId;
    StartsAbove(w, Advance(t, ok));
    var v := Next(w, Advance(t, ok));
    assert OldBelow(v) <==> forall e | e in w.store :: e.id <= v.shared.current;
  }

  /** A step keeps that nobody is called for events from before polling was started for it, or about to be,
      exactly if it is not that way. */
  lemma LaterExactly(w: World, step: Step)
    requires Inv(w) && LaterInv(w)
    ensures LaterInv(Next(w, step)) <==> !Reaches(w, step)
  {
    hide AdvanceThread, LaterInv, Kept;
    var v := Next(w, step);
    if step.Advance? && step.thread < |w.threads| {
      ThreadLater(w, step.thread, step.ok);
    } else {
      OutsideLater(w, step);
    }
  }

  lemma OutsideLater(w: World, step: Step)
    requires Inv(w) && LaterInv(w) && !(step.Advance? && step.thread < |w.threads|)
    ensures LaterInv(Next(w, step)) && !Reaches(w, step)
  {
    hide AdvanceThread;
    SameLater(w, Next(w, step));
  }

  lemma ThreadLater(w: World, t: nat, ok: bool)
    requires Inv(w) && LaterInv(w) && t < |w.threads|
    ensures LaterInv(AdvanceThread(w, t, ok)) <==> !Reaches(w, Advance(t, ok))
  {
    hide EndPoll, BeginPoll, OccupySection, LaterInv, Newest;
    var pc := w.threads[t];
    if pc.Querying() {
      QueryLater(w, t, ok);
    } else if pc.PollRun? && !w.locked {
      BeginLater(w, t, ok);
    } else if Starts(w, Advance(t, ok)) {
      StartLater(w, t, ok);
    } else if pc.AddOccupy? {
      OccupyLater(w, t, ok);
    } else {
      SameLater(w, AdvanceThread(w, t, ok));
    }
  }

  /** Over a run that holds at every point exactly if no step is that way. */
  lemma LaterAlways(steps: seq<Step>)
    ensures (forall i: nat | i <= |steps| :: LaterInv(Run(steps[..i]))) <==>
            (forall i: nat | i < |steps| :: !Reaches(Run(steps[..i]), steps[i]))
  {
    hide LaterInv, Reaches, Inv, Next, Run;
    forall i: nat | i < |steps| && LaterInv(Run(steps[..i]))
      ensures LaterInv(Run(steps[..i + 1])) <==> !Reaches(Run(steps[..i]), steps[i])
    {
      RunInv(steps[..i]);
      RunOn(steps, i);
      LaterExactly(Run(steps[..i]), steps[i]);
    }
    assert LaterInv(Run(steps[..0])) by { RunNothing(); LaterAtStart(); assert steps[..0] == []; }
    var good := (i: nat) => i <= |steps| && LaterInv(Run(steps[..i]));
    var bad := (i: nat) => i < |steps| && Reaches(Run(steps[..i]), steps[i]);
    AllAlong(|steps|, good, bad);
    forall i: nat | i <= |steps| ensures good(i) <==> LaterInv(Run(steps[..i])) {}
    forall i: nat | i < |steps| ensures bad(i) <==> Reaches(Run(steps[..i]), steps[i]) {}
  }

  lemma LaterAtStart()
    ensures LaterInv(Initial())
  {
  }

  /** With every query for the newest id answered, each call is for an event given out after polling was started
      for the subscriber called, whatever is purged. */
  lemma OnlyLater(steps: seq<Step>, d: Delivery)
    requires forall i: nat | i < |steps| && (ReadsNewest(Run(steps[..i]), steps[i]) || Starts(Run(steps[..i]), steps[i])) :: steps[i].ok
    requires d in Run(steps).log
    ensures d.registration < |Run(steps).registrations| && Run(steps).registrations[d.registration].begun < d.id
  {
    hide Run, OldBelow, BegunTogether;
    LaterAlways(steps);
    assert steps[..|steps|] == steps;
    assert LaterInv(Run(steps));
  }
}
