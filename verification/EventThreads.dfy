/** The monitor under threads: subscribers come and go, pollers run, and events are stored and purged in
    between. What holds the mutex is one step, except that a poller's queries are steps of their own: storing
    and purging do not take the mutex, and use the same database connection. */
module EventThreads {
  import opened EventMonitor

  // ---------------------------------------------------------------------------------------------
  // The system

  /** Where a thread stands between two steps. A poller inside the mutex remembers the newest id it read and
      what its queries counted. */
  datatype Pc =
    | Idle
    | AddInit(kind: EventType)
    | AddSpawn(kind: EventType)
    | AddOccupy(kind: EventType)
    | RemoveVacate(place: nat)
    | RemoveStop
    | PollCheck
    | PollRun
    | PollExited
    | FirstCount(max: nat)
    | FirstRows(max: nat, count: nat)
    | SecondCount(max: nat, size: nat)
    | SecondRows(max: nat, size: nat, count: nat)
    | Overread
  {
    /** Inside the mutex. */
    predicate Inside() { Querying() || Overread? }

    predicate Querying() { FirstCount? || FirstRows? || SecondCount? || SecondRows? }
  }

  /** What is remembered of a subscription: its type, the last event id given out when it was made, and the one
      when polling was started for it. */
  datatype Registration = Registration(kind: EventType, since: nat, begun: nat)

  /** The whole system: the shared state and its mutex, the event table in the order it is read, newest first,
      with the last id it gave out, the threads, the history of subscriptions, events and calls, and the last id
      given out when polling was last started. */
  datatype World = World(
    shared: Shared,
    locked: bool,
    store: seq<Event>,
    lastId: nat,
    threads: seq<Pc>,
    registrations: seq<Registration>,
    history: map<nat, EventType>,
    log: seq<Delivery>,
    begun: nat)

  /** Ok tells whether the query a step makes succeeds. */
  datatype Step =
    | NewThread
    | CallAdd(thread: nat, kind: EventType)
    | CallRemove(thread: nat, callbackId: int)
    | Advance(thread: nat, ok: bool)
    | Insert(kind: EventType, skip: nat)
    | Purge(keep: set<nat>)

  function Initial(): World {
    World(Shared(false, 0, NoSubscribers()), false, [], 0, [], [], map[], [], 0)
  }

  function Kept(events: seq<Event>, keep: set<nat>): (r: seq<Event>)
    ensures forall e | e in r :: e in events
    ensures |r| <= |events|
  {
    if events == [] then []
    else (if events[0].id in keep then [events[0]] else []) + Kept(events[1..], keep)
  }

  /** The newest id as the code reads it: 0 when its query fails. */
  function Newest(w: World, ok: bool): nat { if ok then MaxId(w.store) else 0 }

  /** The rows a query limited to the count reads. */
  function Rows(w: World, count: nat): seq<Event> {
    if count <= |w.store| then w.store[..count] else w.store
  }

  function Goto(w: World, t: nat, pc: Pc): World
    requires t < |w.threads|
  {
    w.(threads := w.threads[t := pc])
  }

  /** Takes the mutex and reads the newest id; goes on only if it is above the watermark. */
  function BeginPoll(w: World, t: nat, ok: bool): World
    requires t < |w.threads|
  {
    var max := Newest(w, ok);
    if w.shared.current < max then Goto(w, t, FirstCount(max)).(locked := true)
    else Goto(w, t, PollCheck).(shared := PollSection(w.shared, max, Failed).0)
  }

  /** Ends the round and releases the mutex. */
  function EndPoll(w: World, t: nat, max: nat, fetch: Fetch): World
    requires t < |w.threads|
  {
    var (shared, calls) := PollSection(w.shared, max, fetch);
    Goto(w, t, PollCheck).(locked := false, shared := shared, log := w.log + calls)
  }

  /** The last query of a poll. With no places in the array the rows are counted but not copied, and the code
      then reads events that are not there. */
  function ReadRows(w: World, t: nat, max: nat, size: nat, count: nat): World
    requires t < |w.threads|
  {
    var rows := Rows(w, count);
    if size == 0 && rows != [] then Goto(w, t, Overread) else EndPoll(w, t, max, FetchOf(size, rows))
  }

  /** What thread t does next; a thread that needs the mutex waits while it is taken. */
  function AdvanceThread(w: World, t: nat, ok: bool): World
    requires t < |w.threads| && |w.shared.slots| == MAX_SUBSCRIBERS
  {
    match w.threads[t]
    case AddInit(kind) =>
      // the thread is created after the mutex is released
      var next := if w.shared.polling then AddOccupy(kind) else AddSpawn(kind);
      if w.locked then w
      else Goto(w, t, next).(shared := InitSection(w.shared, Newest(w, ok)),
                             begun := if w.shared.polling then w.begun else w.lastId)
    case AddSpawn(kind) => w.(threads := w.threads[t := AddOccupy(kind)] + [PollCheck])
    case AddOccupy(kind) =>
      var (shared, place) := OccupySection(w.shared, |w.registrations|, kind);
      if w.locked then w
      else Goto(w, t, Idle).(shared := shared,
             registrations := if place.Some? then w.registrations + [Registration(kind, w.lastId, w.begun)] else w.registrations)
    case RemoveVacate(place) =>
      if w.locked || place >= MAX_SUBSCRIBERS then w
      else
        var (shared, listening) := VacateSection(w.shared, place);
        Goto(w, t, if listening then Idle else RemoveStop).(shared := shared)
    case RemoveStop => if w.locked then w else Goto(w, t, Idle).(shared := StopSection(w.shared))
    case PollCheck => if w.locked then w else Goto(w, t, if w.shared.polling then PollRun else PollExited)
    case PollRun => if w.locked then w else BeginPoll(w, t, ok)
    case FirstCount(max) =>
      if !ok then EndPoll(w, t, max, Failed)
      else Goto(w, t, if w.store == [] then SecondCount(max, 0) else FirstRows(max, |w.store|))
    case FirstRows(max, count) =>
      if !ok then EndPoll(w, t, max, Failed) else Goto(w, t, SecondCount(max, |Rows(w, count)|))
    case SecondCount(max, size) =>
      if !ok then EndPoll(w, t, max, Failed)
      else if w.store == [] then EndPoll(w, t, max, Fetched([]))
      else Goto(w, t, SecondRows(max, size, |w.store|))
    case SecondRows(max, size, count) =>
      if !ok then EndPoll(w, t, max, Failed) else ReadRows(w, t, max, size, count)
    case Idle => w
    case PollExited => w
    case Overread => w
  }

  /** One step; a step that does not apply changes nothing. */
  function Next(w: World, step: Step): World
    requires |w.shared.slots| == MAX_SUBSCRIBERS
  {
    match step
    case NewThread => w.(threads := w.threads + [Idle])
    case CallAdd(t, kind) =>
      if t < |w.threads| && w.threads[t] == Idle then Goto(w, t, AddInit(kind)) else w
    case CallRemove(t, id) =>
      if t < |w.threads| && w.threads[t] == Idle && 0 <= id < MAX_SUBSCRIBERS
      then Goto(w, t, RemoveVacate(id)) else w
    case Advance(t, ok) => if t < |w.threads| then AdvanceThread(w, t, ok) else w
    case Insert(kind, skip) =>
      // the table numbers its rows upwards and never reuses a number
      var id := w.lastId + 1 + skip;
      w.(store := [Event(id, kind)] + w.store, lastId := id, history := w.history[id := kind])
    case Purge(keep) => w.(store := Kept(w.store, keep))
  }

  lemma EndCount(w: World, t: nat, max: nat, fetch: Fetch)
    requires t < |w.threads|
    ensures |EndPoll(w, t, max, fetch).shared.slots| == |w.shared.slots|
  {
  }

  lemma ThreadCount(w: World, t: nat, ok: bool)
    requires t < |w.threads| && |w.shared.slots| == MAX_SUBSCRIBERS
    ensures |AdvanceThread(w, t, ok).shared.slots| == MAX_SUBSCRIBERS
  {
    hide EndPoll, Newest, Rows, FirstFree;
    forall max, fetch { EndCount(w, t, max, fetch); }
  }

  lemma SlotsCount(w: World, step: Step)
    requires |w.shared.slots| == MAX_SUBSCRIBERS
    ensures |Next(w, step).shared.slots| == MAX_SUBSCRIBERS
  {
    hide AdvanceThread, Kept;
    if step.Advance? && step.thread < |w.threads| { ThreadCount(w, step.thread, step.ok); }
  }

  function After(w: World, steps: seq<Step>): (v: World)
    requires |w.shared.slots| == MAX_SUBSCRIBERS
    ensures |v.shared.slots| == MAX_SUBSCRIBERS
    decreases |steps|
  {
    if steps == [] then w else SlotsCount(w, steps[0]); After(Next(w, steps[0]), steps[1..])
  }

  /** The system after the steps. */
  function Run(steps: seq<Step>): (w: World)
    ensures |w.shared.slots| == MAX_SUBSCRIBERS
  {
    After(Initial(), steps)
  }

  lemma {:induction false} AfterBoth(w: World, steps: seq<Step>, more: seq<Step>)
    requires |w.shared.slots| == MAX_SUBSCRIBERS
    ensures After(w, steps + more) == After(After(w, steps), more)
    decreases |steps|
  {
    hide Next;
    if steps == [] {
      assert steps + more == more;
    } else {
      SlotsCount(w, steps[0]);
      assert (steps + more)[1..] == steps[1..] + more;
      AfterBoth(Next(w, steps[0]), steps[1..], more);
    }
  }

  lemma AfterOneMore(w: World, steps: seq<Step>, step: Step)
    requires |w.shared.slots| == MAX_SUBSCRIBERS
    ensures After(w, steps + [step]) == Next(After(w, steps), step)
  {
    hide Next;
    AfterBoth(w, steps, [step]);
    SlotsCount(After(w, steps), step);
  }

  lemma RunOn(steps: seq<Step>, i: nat)
    requires i < |steps|
    ensures Run(steps[..i + 1]) == Next(Run(steps[..i]), steps[i])
  {
    assert steps[..i + 1] == steps[..i] + [steps[i]];
    AfterOneMore(Initial(), steps[..i], steps[i]);
  }

  // ---------------------------------------------------------------------------------------------
  // What every step keeps

  ghost predicate SlotsSound(w: World) {
    && |w.shared.slots| == MAX_SUBSCRIBERS
    && DistinctSubscribers(w.shared.slots)
    && forall k | 0 <= k < |w.shared.slots| && w.shared.slots[k].Taken? ::
         && w.shared.slots[k].registration < |w.registrations|
         && w.registrations[w.shared.slots[k].registration].kind == w.shared.slots[k].kind
  }

  ghost predicate StoreSound(w: World) {
    && DistinctIds(w.store)
    && (forall e | e in w.store :: 0 < e.id <= w.lastId && e.id in w.history && w.history[e.id] == e.kind)
    && (forall id | id in w.history :: id <= w.lastId)
    && w.shared.current <= w.lastId
    && forall r | r in w.registrations :: r.since <= w.lastId
  }

  /** Every call so far was for an event of the type subscribed to. */
  ghost predicate LogWanted(w: World) {
    forall d | d in w.log ::
      && d.registration < |w.registrations| && d.id in w.history
      && (w.registrations[d.registration].kind == w.history[d.id]
          || w.registrations[d.registration].kind == ALL_TYPES)
  }

  /** At most one thread is inside the mutex, and a poller's newest id is above the watermark. */
  ghost predicate LockSound(w: World) {
    && (forall t | 0 <= t < |w.threads| && w.threads[t].Inside() :: w.locked)
    && (forall t, u | 0 <= t < u < |w.threads| :: !w.threads[t].Inside() || !w.threads[u].Inside())
    && forall t | 0 <= t < |w.threads| && w.threads[t].Querying() :: w.shared.current < w.threads[t].max <= w.lastId
  }

  ghost predicate Inv(w: World) {
    SlotsSound(w) && StoreSound(w) && LogWanted(w) && LockSound(w)
  }

  lemma InitialInv()
    ensures Inv(Initial())
  {
  }

  lemma {:induction false} KeptDistinct(events: seq<Event>, keep: set<nat>)
    requires DistinctIds(events)
    ensures DistinctIds(Kept(events, keep))
  {
    if events != [] {
      KeptDistinct(events[1..], keep);
      forall e | e in Kept(events[1..], keep) ensures e.id != events[0].id {
        var k :| 0 <= k < |events[1..]| && events[1..][k] == e;
        assert events[k + 1] == e;
      }
    }
  }

  lemma RowsAreStored(w: World, count: nat)
    ensures forall e | e in Rows(w, count) :: e in w.store
    ensures DistinctIds(w.store) ==> DistinctIds(Rows(w, count))
  {
  }

  /** A call of a poll is for a stored event above the watermark, wanted by a live subscriber. */
  lemma CallIs(w: World, rows: seq<Event>, d: Delivery)
    ensures d in Deliveries(rows, w.shared.current, w.shared.slots) <==>
            exists e, k :: e in rows && e.id > w.shared.current && 0 <= k < |w.shared.slots|
                           && w.shared.slots[k].Wants(e) && d == Delivery(w.shared.slots[k].registration, e.id)
  {
    DeliveriesAre(rows, w.shared.current, w.shared.slots, d);
  }

  lemma EndKeepsInv(w: World, t: nat, max: nat, fetch: Fetch)
    requires Inv(w) && t < |w.threads| && w.threads[t].Querying() && w.threads[t].max == max
    requires fetch.Fetched? ==> forall e | e in fetch.events :: e in w.store
    ensures Inv(EndPoll(w, t, max, fetch))
  {
    var v := EndPoll(w, t, max, fetch);
    assert forall u | 0 <= u < |v.threads| :: !v.threads[u].Inside();
    if fetch.Fetched? {
      forall d | d in v.log && d !in w.log
        ensures d.registration < |v.registrations| && d.id in v.history
        ensures v.registrations[d.registration].kind == v.history[d.id]
                || v.registrations[d.registration].kind == ALL_TYPES
      {
        assert d in Deliveries(fetch.events, w.shared.current, w.shared.slots);
        CallIs(w, fetch.events, d);
      }
    }
  }

  /** A section outside polling: nobody is inside, before or after. */
  lemma SectionKeepsLock(w: World, v: World, t: nat, pc: Pc)
    requires LockSound(w) && !w.locked && t < |w.threads| && !pc.Inside()
    requires v.threads == w.threads[t := pc]
    ensures LockSound(v)
  {
    assert forall u | 0 <= u < |v.threads| :: !v.threads[u].Inside();
  }

  lemma OccupyKeepsSlots(w: World, kind: EventType)
    requires SlotsSound(w)
    ensures var (shared, place) := OccupySection(w.shared, |w.registrations|, kind);
      SlotsSound(w.(shared := shared,
        registrations := if place.Some? then w.registrations + [Registration(kind, w.lastId, w.begun)] else w.registrations))
  {
  }

  lemma AdvanceKeepsInv(w: World, t: nat, ok: bool)
    requires Inv(w) && t < |w.threads|
    ensures Inv(AdvanceThread(w, t, ok))
  {
    hide Inv, EndPoll, BeginPoll, OccupySection, MaxId;
    var pc := w.threads[t];
    if pc.Querying() {
      QueryKeepsInv(w, t, ok);
    } else if pc.PollRun? && !w.locked {
      BeginKeepsInv(w, t, ok);
    } else {
      SectionKeepsInv(w, t, ok);
    }
  }

  lemma SectionKeepsInv(w: World, t: nat, ok: bool)
    requires Inv(w) && t < |w.threads| && !w.threads[t].Querying() && (w.threads[t].PollRun? ==> w.locked)
    ensures Inv(AdvanceThread(w, t, ok))
  {
    hide EndPoll, BeginPoll, OccupySection, MaxId;
    var v, pc := AdvanceThread(w, t, ok), w.threads[t];
    if pc.AddSpawn? {
      assert forall u | 0 <= u < |v.threads| && v.threads[u].Inside() :: u < |w.threads| && w.threads[u] == v.threads[u];
    } else if !w.locked && v != w {
      SectionKeepsLock(w, v, t, v.threads[t]);
      if pc.AddOccupy? {
        OccupyKeepsSlots(w, pc.kind);
        OccupyKeepsRest(w, pc.kind, v);
      }
    }
  }

  lemma OccupyKeepsRest(w: World, kind: EventType, v: World)
    requires StoreSound(w) && LogWanted(w) && v.store == w.store && v.log == w.log && v.history == w.history
    requires v.lastId == w.lastId && v.shared == OccupySection(w.shared, |w.registrations|, kind).0
    requires v.registrations == w.registrations || v.registrations == w.registrations + [Registration(kind, w.lastId, w.begun)]
    ensures StoreSound(v) && LogWanted(v)
  {
  }

  lemma BeginKeepsInv(w: World, t: nat, ok: bool)
    requires Inv(w) && t < |w.threads| && !w.locked && w.threads[t] == PollRun
    ensures Inv(BeginPoll(w, t, ok))
  {
    var v := BeginPoll(w, t, ok);
    assert forall u | 0 <= u < |w.threads| :: !w.threads[u].Inside();
    assert Newest(w, ok) <= w.lastId;
    assert forall u | 0 <= u < |v.threads| && v.threads[u].Inside() :: u == t;
  }

  lemma QueryKeepsInv(w: World, t: nat, ok: bool)
    requires Inv(w) && t < |w.threads| && w.threads[t].Querying()
    ensures Inv(AdvanceThread(w, t, ok))
  {
    hide EndPoll;
    var pc := w.threads[t];
    var max := pc.max;
    EndKeepsInv(w, t, max, Failed);
    EndKeepsInv(w, t, max, Fetched([]));
    if pc.SecondRows? {
      RowsAreStored(w, pc.count);
      EndKeepsInv(w, t, max, FetchOf(pc.size, Rows(w, pc.count)));
      OneInside(w, Goto(w, t, Overread), t, Overread);
    } else {
      forall next: Pc | next.Querying() && next.max == max ensures LockSound(Goto(w, t, next)) {
        OneInside(w, Goto(w, t, next), t, next);
      }
    }
  }

  /** A poller moving on inside the mutex, with the same newest id. */
  lemma OneInside(w: World, v: World, t: nat, pc: Pc)
    requires LockSound(w) && t < |w.threads| && w.threads[t].Querying() && v == Goto(w, t, pc)
    requires pc.Querying() ==> pc.max == w.threads[t].max
    ensures LockSound(v)
  {
    assert forall u | 0 <= u < |v.threads| && u != t :: v.threads[u] == w.threads[u];
    assert forall u | 0 <= u < |w.threads| && w.threads[u].Inside() :: u == t;
  }

  /** Every step of any thread, and every change of the event table, keeps the invariant. */
  lemma NextKeepsInv(w: World, step: Step)
    requires Inv(w)
    ensures Inv(Next(w, step))
  {
    match step
    case Advance(t, ok) => if t < |w.threads| { hide Inv; AdvanceKeepsInv(w, t, ok); }
    case Insert(kind, skip) => InsertKeepsInv(w, kind, skip);
    case Purge(keep) => PurgeKeepsInv(w, keep);
    case _ => OutsideKeepsLock(w, Next(w, step));
  }

  lemma InsertKeepsInv(w: World, kind: EventType, skip: nat)
    requires Inv(w)
    ensures Inv(Next(w, Insert(kind, skip)))
  {
    hide AdvanceThread, Kept;
    var v := Next(w, Insert(kind, skip));
    assert forall e | e in v.store :: e in w.store || e == Event(v.lastId, kind);
  }

  lemma PurgeKeepsInv(w: World, keep: set<nat>)
    requires Inv(w)
    ensures Inv(Next(w, Purge(keep)))
  {
    hide AdvanceThread;
    KeptDistinct(w.store, keep);
  }

  lemma OutsideKeepsLock(w: World, v: World)
    requires LockSound(w) && v.shared == w.shared && v.locked == w.locked && v.lastId == w.lastId
    requires |w.threads| <= |v.threads|
    requires forall u | 0 <= u < |v.threads| :: !v.threads[u].Inside() || (u < |w.threads| && v.threads[u] == w.threads[u])
    ensures LockSound(v)
  {
  }

  lemma {:induction false} RunInv(steps: seq<Step>)
    ensures Inv(Run(steps))
    decreases |steps|
  {
    hide StoreSound, LogWanted, LockSound, Next, Run;
    if steps == [] {
      InitialInv();
      assert Run([]) == Initial() by { RunNothing(); }
    } else {
      var i := |steps| - 1;
      RunInv(steps[..i]);
      RunOn(steps, i);
      assert steps[..i + 1] == steps;
      NextKeepsInv(Run(steps[..i]), steps[i]);
    }
  }

  lemma RunNothing()
    ensures Run([]) == Initial()
  {
  }

  /** In every interleaving a subscription is called only for events it asked for. */
  lemma OnlyWanted(steps: seq<Step>, d: Delivery)
    requires d in Run(steps).log
    ensures d.registration < |Run(steps).registrations| && d.id in Run(steps).history
    ensures var kind := Run(steps).registrations[d.registration].kind; kind == Run(steps).history[d.id] || kind == ALL_TYPES
  {
    RunInv(steps);
  }
}
