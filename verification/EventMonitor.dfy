/** Event notification: the sections that hold the monitor's mutex, what one poll delivers, and the monitor's
    own variables and loops. */
module EventMonitor {
  import opened Options

  // ---------------------------------------------------------------------------------------------
  // The shared state and the sections that hold the mutex

  type EventType = nat

  const ALL_TYPES: EventType := 0
  const MAX_SUBSCRIBERS := 5

  datatype Event = Event(id: nat, kind: EventType)

  /** A place in the callback list. The registration number stands for the callback; it tells apart
      subscriptions that use the same place one after the other. */
  datatype Slot = Free | Taken(registration: nat, kind: EventType) {
    predicate Wants(e: Event) {
      Taken? && (kind == e.kind || kind == ALL_TYPES)
    }
  }

  function NoSubscribers(): seq<Slot> { seq(MAX_SUBSCRIBERS, _ => Free) }

  datatype Shared = Shared(polling: bool, current: nat, slots: seq<Slot>)

  datatype Delivery = Delivery(registration: nat, id: nat)

  /** select max(id): 0 for an empty table. */
  function MaxId(events: seq<Event>): (m: nat)
    ensures forall e | e in events :: e.id <= m
    ensures m == 0 || exists e :: e in events && e.id == m
  {
    if events == [] then 0
    else
      var rest := MaxId(events[1..]);
      if events[0].id > rest then events[0].id else rest
  }

  function FirstFree(slots: seq<Slot>): (i: nat)
    ensures i <= |slots|
    ensures i < |slots| ==> slots[i] == Free
    ensures forall k | 0 <= k < i :: slots[k] != Free
  {
    if slots == [] || slots[0] == Free then 0 else 1 + FirstFree(slots[1..])
  }

  /** Starts polling unless it runs; a fresh start forgets all subscribers. */
  function InitSection(s: Shared, max: nat): Shared {
    if s.polling then s else Shared(true, max, NoSubscribers())
  }

  /** Fills the first free place; the place is the callback id handed back. */
  function OccupySection(s: Shared, registration: nat, kind: EventType): (Shared, Option<nat>) {
    var i := FirstFree(s.slots);
    if i < |s.slots| then (s.(slots := s.slots[i := Taken(registration, kind)]), Some(i)) else (s, None)
  }

  /** Empties a place and reports whether anyone still listens. */
  function VacateSection(s: Shared, i: nat): (Shared, bool)
    requires i < |s.slots|
  {
    var slots := s.slots[i := Free];
    (s.(slots := slots), exists k :: 0 <= k < |slots| && slots[k].Taken?)
  }

  function StopSection(s: Shared): Shared { s.(polling := false) }

  /** The calls one event causes, in the order of the places. */
  function Calls(slots: seq<Slot>, e: Event): seq<Delivery> {
    if slots == [] then []
    else (if slots[0].Wants(e) then [Delivery(slots[0].registration, e.id)] else []) + Calls(slots[1..], e)
  }

  /** The calls of one poll: every event newer than the watermark, in table order. */
  function Deliveries(events: seq<Event>, current: nat, slots: seq<Slot>): seq<Delivery> {
    if events == [] then []
    else (if events[0].id > current then Calls(slots, events[0]) else []) + Deliveries(events[1..], current, slots)
  }

  /** What the second call for the events yields: an error, or events. */
  datatype Fetch = Failed | Fetched(events: seq<Event>)

  /** The rows copied into an array of the given size; more rows than places are an error. */
  function FetchOf(size: nat, rows: seq<Event>): Fetch {
    if |rows| > size then Failed else Fetched(rows)
  }

  /** One round of the poller inside the mutex. */
  function PollSection(s: Shared, max: nat, fetch: Fetch): (Shared, seq<Delivery>) {
    if s.current < max then
      if fetch.Fetched? then (s.(current := max), Deliveries(fetch.events, s.current, s.slots)) else (s, [])
    else if max < s.current then (s.(current := max), [])
    else (s, [])
  }

  // ---------------------------------------------------------------------------------------------
  // What one poll delivers

  lemma {:induction false} CallsAre(slots: seq<Slot>, e: Event, d: Delivery)
    ensures d in Calls(slots, e) <==>
            exists k :: 0 <= k < |slots| && slots[k].Wants(e) && d == Delivery(slots[k].registration, e.id)
  {
    if slots != [] {
      CallsAre(slots[1..], e, d);
      if k :| 0 <= k < |slots| && slots[k].Wants(e) && d == Delivery(slots[k].registration, e.id) {
        if k > 0 { assert slots[1..][k - 1] == slots[k]; }
      }
      if k :| 0 <= k < |slots[1..]| && slots[1..][k].Wants(e) && d == Delivery(slots[1..][k].registration, e.id) {
        assert slots[k + 1] == slots[1..][k];
      }
    }
  }

  /** A poll calls a subscriber for an event exactly when the event is stored and newer than the watermark
      and the subscriber's place wants it. */
  lemma {:induction false} DeliveriesAre(events: seq<Event>, current: nat, slots: seq<Slot>, d: Delivery)
    ensures d in Deliveries(events, current, slots) <==>
            exists e, k :: e in events && e.id > current && 0 <= k < |slots| && slots[k].Wants(e)
                           && d == Delivery(slots[k].registration, e.id)
  {
    if events != [] {
      var e0 := events[0];
      CallsAre(slots, e0, d);
      DeliveriesAre(events[1..], current, slots, d);
      if e, k :| e in events && e.id > current && 0 <= k < |slots| && slots[k].Wants(e)
                 && d == Delivery(slots[k].registration, e.id) {
        assert e == e0 || e in events[1..];
      }
    }
  }

  ghost predicate NoRepeats<T>(s: seq<T>) {
    forall j, k | 0 <= j < k < |s| :: s[j] != s[k]
  }

  ghost predicate DistinctIds(events: seq<Event>) {
    forall j, k | 0 <= j < k < |events| :: events[j].id != events[k].id
  }

  /** No two places hold the same registration. */
  ghost predicate DistinctSubscribers(slots: seq<Slot>) {
    forall j, k | 0 <= j < k < |slots| && slots[j].Taken? && slots[k].Taken? :: slots[j].registration != slots[k].registration
  }

  lemma NoRepeatsConcat<T>(a: seq<T>, b: seq<T>)
    requires NoRepeats(a) && NoRepeats(b) && forall x | x in a :: x !in b
    ensures NoRepeats(a + b)
  {
    forall j, k | 0 <= j < k < |a + b| ensures (a + b)[j] != (a + b)[k] {
      if j < |a| <= k { assert a[j] in a && b[k - |a|] in b; }
    }
  }

  lemma {:induction false} CallsNoRepeats(slots: seq<Slot>, e: Event)
    requires DistinctSubscribers(slots)
    ensures NoRepeats(Calls(slots, e))
  {
    if slots != [] {
      assert DistinctSubscribers(slots[1..]) by {
        forall j, k | 0 <= j < k < |slots[1..]| && slots[1..][j].Taken? && slots[1..][k].Taken?
          ensures slots[1..][j].registration != slots[1..][k].registration
        {
          assert slots[j + 1] == slots[1..][j] && slots[k + 1] == slots[1..][k];
        }
      }
      CallsNoRepeats(slots[1..], e);
      var head := if slots[0].Wants(e) then [Delivery(slots[0].registration, e.id)] else [];
      forall k | 0 <= k < |slots[1..]| && slots[0].Taken? && slots[1..][k].Taken?
        ensures slots[1..][k].registration != slots[0].registration
      {
        assert slots[k + 1] == slots[1..][k];
      }
      forall d | d in head ensures d !in Calls(slots[1..], e) {
        CallsAre(slots[1..], e, d);
      }
      NoRepeatsConcat(head, Calls(slots[1..], e));
    }
  }

  /** One poll calls each subscriber at most once for each event. */
  lemma {:induction false} DeliveriesNoRepeats(events: seq<Event>, current: nat, slots: seq<Slot>)
    requires DistinctIds(events) && DistinctSubscribers(slots)
    ensures NoRepeats(Deliveries(events, current, slots))
  {
    if events != [] {
      var rest := Deliveries(events[1..], current, slots);
      DeliveriesNoRepeats(events[1..], current, slots);
      CallsNoRepeats(slots, events[0]);
      forall e | e in events[1..] ensures e.id != events[0].id {
        var j :| 0 <= j < |events[1..]| && events[1..][j] == e;
        assert events[j + 1] == e;
      }
      var head := if events[0].id > current then Calls(slots, events[0]) else [];
      forall d | d in head ensures d !in rest {
        CallsAre(slots, events[0], d);
        DeliveriesAre(events[1..], current, slots, d);
        if e, k :| e in events[1..] && e.id > current && 0 <= k < |slots| && slots[k].Wants(e)
                   && d == Delivery(slots[k].registration, e.id) {
          assert e.id != events[0].id;
        }
      }
      NoRepeatsConcat(head, rest);
    }
  }

  /** Newest first. */
  ghost predicate Descending(events: seq<Event>) {
    forall j, k | 0 <= j < k < |events| :: events[j].id > events[k].id
  }

  /** The first of two calls is to an earlier place. */
  ghost predicate EarlierPlace(slots: seq<Slot>, a: Delivery, b: Delivery) {
    exists p, q :: 0 <= p < q < |slots| && slots[p].Taken? && slots[q].Taken?
                   && slots[p].registration == a.registration && slots[q].registration == b.registration
  }

  lemma LaterPlaces(slots: seq<Slot>, a: Delivery, b: Delivery)
    requires slots != [] && EarlierPlace(slots[1..], a, b)
    ensures EarlierPlace(slots, a, b)
  {
    var p, q :| 0 <= p < q < |slots[1..]| && slots[1..][p].Taken? && slots[1..][q].Taken?
                && slots[1..][p].registration == a.registration && slots[1..][q].registration == b.registration;
    assert slots[p + 1] == slots[1..][p] && slots[q + 1] == slots[1..][q];
  }

  lemma FirstPlace(slots: seq<Slot>, e: Event, a: Delivery, b: Delivery)
    requires slots != [] && slots[0].Wants(e) && slots[0].registration == a.registration && b in Calls(slots[1..], e)
    ensures EarlierPlace(slots, a, b)
  {
    CallsAre(slots[1..], e, b);
    var q :| 0 <= q < |slots[1..]| && slots[1..][q].Wants(e) && b == Delivery(slots[1..][q].registration, e.id);
    assert slots[q + 1] == slots[1..][q];
  }

  lemma {:induction false} CallsInOrder(slots: seq<Slot>, e: Event, i: nat, j: nat)
    requires i < j < |Calls(slots, e)|
    ensures EarlierPlace(slots, Calls(slots, e)[i], Calls(slots, e)[j])
    decreases |slots|
  {
    hide EarlierPlace;
    var rest, n := Calls(slots[1..], e), if slots[0].Wants(e) then 1 else 0;
    var a, b := Calls(slots, e)[i], Calls(slots, e)[j];
    assert b == rest[j - n];
    if i < n {
      FirstPlace(slots, e, a, b);
    } else {
      assert a == rest[i - n];
      CallsInOrder(slots[1..], e, i - n, j - n);
      LaterPlaces(slots, a, b);
    }
  }

  lemma Older(events: seq<Event>, current: nat, slots: seq<Slot>, b: Delivery)
    requires Descending(events) && events != [] && b in Deliveries(events[1..], current, slots)
    ensures b.id < events[0].id
  {
    var rest := events[1..];
    DeliveriesAre(rest, current, slots, b);
    var e, k :| e in rest && e.id > current && 0 <= k < |slots| && slots[k].Wants(e) && b == Delivery(slots[k].registration, e.id);
    var m :| 0 <= m < |rest| && rest[m] == e;
    assert events[m + 1] == e;
  }

  /** A poll over rows that come newest first calls for newer events before older ones, and for one event in the order
      of the places. */
  lemma {:induction false} NewestFirst(events: seq<Event>, current: nat, slots: seq<Slot>, i: nat, j: nat)
    requires Descending(events) && i < j < |Deliveries(events, current, slots)|
    ensures var a, b := Deliveries(events, current, slots)[i], Deliveries(events, current, slots)[j];
      a.id > b.id || (a.id == b.id && EarlierPlace(slots, a, b))
    decreases |events|
  {
    hide Calls, EarlierPlace;
    var rest := events[1..];
    var head := if events[0].id > current then Calls(slots, events[0]) else [];
    var n, all := |head|, Deliveries(events, current, slots);
    assert all[n..] == Deliveries(rest, current, slots);
    if j < n {
      CallsInOrder(slots, events[0], i, j);
      CallsAre(slots, events[0], all[i]);
      CallsAre(slots, events[0], all[j]);
    } else {
      var b := all[j];
      assert b == Deliveries(rest, current, slots)[j - n];
      if i >= n {
        NewestFirst(rest, current, slots, i - n, j - n);
      } else {
        assert all[i] in Calls(slots, events[0]);
        CallsAre(slots, events[0], all[i]);
        Older(events, current, slots, b);
      }
    }
  }

  // ---------------------------------------------------------------------------------------------
  // Polling and subscribers

  ghost predicate SomeoneSubscribed(s: Shared) {
    exists k :: 0 <= k < |s.slots| && s.slots[k].Taken?
  }

  /** A whole API call, as if no other thread came in between. */
  datatype Call = AddCall(registration: nat, kind: EventType, max: nat) | RemoveCall(callbackId: int)

  function Perform(s: Shared, call: Call): (r: Shared)
    requires |s.slots| == MAX_SUBSCRIBERS
    ensures |r.slots| == MAX_SUBSCRIBERS
  {
    match call
    case AddCall(registration, kind, max) => OccupySection(InitSection(s, max), registration, kind).0
    case RemoveCall(id) =>
      if 0 <= id < MAX_SUBSCRIBERS then
        var (r, listening) := VacateSection(s, id);
        if listening then r else StopSection(r)
      else s
  }

  function PerformAll(calls: seq<Call>): (r: Shared)
    ensures |r.slots| == MAX_SUBSCRIBERS
    decreases |calls|
  {
    if calls == [] then Shared(false, 0, NoSubscribers())
    else Perform(PerformAll(calls[..|calls| - 1]), calls[|calls| - 1])
  }

  /** With whole calls atomic, polling is on exactly while someone is subscribed. */
  lemma {:induction false} PollingIffSubscribed(calls: seq<Call>)
    ensures PerformAll(calls).polling <==> SomeoneSubscribed(PerformAll(calls))
    decreases |calls|
  {
    if calls != [] {
      var s, call := PerformAll(calls[..|calls| - 1]), calls[|calls| - 1];
      PollingIffSubscribed(calls[..|calls| - 1]);
      if call.AddCall? {
        var i := InitSection(s, call.max);
        var k := FirstFree(i.slots);
        if k < |i.slots| {
          assert Perform(s, call).slots[k].Taken?;
        } else {
          assert i.slots[0].Taken?;
        }
      } else if 0 <= call.callbackId < MAX_SUBSCRIBERS {
        var r := VacateSection(s, call.callbackId).0;
        if SomeoneSubscribed(r) {
          var k :| 0 <= k < |r.slots| && r.slots[k].Taken?;
          assert s.slots[k].Taken?;
        }
      }
    }
  }

  lemma CallsStep(slots: seq<Slot>, i: nat, e: Event, calls: seq<Delivery>)
    requires i < |slots|
    ensures calls + Calls(slots[i..], e) ==
            (if slots[i].Wants(e) then calls + [Delivery(slots[i].registration, e.id)] else calls) + Calls(slots[i + 1..], e)
  {
    assert slots[i..][1..] == slots[i + 1..];
  }

  lemma CallsStop(slots: seq<Slot>, e: Event)
    ensures Calls(slots[|slots|..], e) == []
  {
  }

  lemma DeliveriesStep(events: seq<Event>, i: nat, current: nat, slots: seq<Slot>, calls: seq<Delivery>)
    requires i < |events|
    ensures calls + Deliveries(events[i..], current, slots) ==
            (if events[i].id > current then calls + Calls(slots, events[i]) else calls)
            + Deliveries(events[i + 1..], current, slots)
  {
    assert events[i..][1..] == events[i + 1..];
  }

  lemma DeliveriesStop(events: seq<Event>, current: nat, slots: seq<Slot>)
    ensures Deliveries(events[|events|..], current, slots) == []
  {
  }

  // ---------------------------------------------------------------------------------------------
  // The monitor's own variables

  class Monitor {
    var polling: bool
    var current: nat
    const list: array<Slot>

    ghost predicate Valid()
      reads this
    {
      list.Length == MAX_SUBSCRIBERS
    }

    ghost function View(): Shared
      reads this, list
    {
      Shared(polling, current, list[..])
    }

    constructor ()
      ensures Valid() && fresh(list)
      ensures View() == Shared(false, 0, NoSubscribers())
    {
      polling := false;
      current := 0;
      list := new Slot[MAX_SUBSCRIBERS](_ => Free);
    }

    /** Tells whether a poller thread has to be created. */
    method InitEventNotify(max: nat) returns (spawn: bool)
      requires Valid()
      modifies this, list
      ensures Valid() && View() == InitSection(old(View()), max)
      ensures spawn == !old(polling)
    {
      spawn := !polling;
      if !polling {
        for i := 0 to list.Length
          invariant forall k | 0 <= k < i :: list[k] == Free
          modifies list
        {
          list[i] := Free;
        }
        current := max;
        polling := true;
        assert list[..] == NoSubscribers();
      }
    }

    method RemoveEventNotify()
      requires Valid()
      modifies this
      ensures Valid() && View() == StopSection(old(View()))
    {
      if polling {
        polling := false;
      }
    }

    method Occupy(registration: nat, kind: EventType) returns (place: Option<nat>)
      requires Valid()
      modifies list
      ensures Valid()
      ensures (View(), place) == OccupySection(old(View()), registration, kind)
    {
      var added, i := false, 0;
      while i < list.Length && !added
        invariant 0 <= i <= list.Length
        invariant !added ==> list[..] == old(list[..])
        invariant !added ==> forall k | 0 <= k < i :: list[k] != Free
        invariant added ==> 0 < i && old(list[i - 1]) == Free && forall k | 0 <= k < i - 1 :: old(list[k]) != Free
        invariant added ==> list[..] == old(list[..])[i - 1 := Taken(registration, kind)]
      {
        if list[i] == Free {
          list[i] := Taken(registration, kind);
          added := true;
        }
        i := i + 1;
      }
      place := if added then Some(i - 1) else None;
    }

    method Vacate(i: nat) returns (listening: bool)
      requires Valid() && i < MAX_SUBSCRIBERS
      modifies list
      ensures Valid()
      ensures (View(), listening) == VacateSection(old(View()), i)
    {
      list[i] := Free;
      assert list[..] == old(list[..])[i := Free];
      listening := false;
      for k := 0 to list.Length
        invariant !listening
        invariant forall j | 0 <= j < k :: !list[j].Taken?
      {
        if list[k].Taken? {
          listening := true;
          assert list[..][k].Taken?;
          break;
        }
      }
    }

    method AddEventNotify(registration: nat, kind: EventType, max: nat) returns (place: Option<nat>)
      requires Valid()
      modifies this, list
      ensures Valid() && View() == Perform(old(View()), AddCall(registration, kind, max))
      ensures place.Some? ==> place.value < MAX_SUBSCRIBERS && list[place.value] == Taken(registration, kind)
    {
      var spawn := InitEventNotify(max);
      place := Occupy(registration, kind);
    }

    /** Tells whether the callback id was one. */
    method RemoveSubscriber(callbackId: int) returns (ok: bool)
      requires Valid()
      modifies this, list
      ensures Valid() && View() == Perform(old(View()), RemoveCall(callbackId))
      ensures ok <==> 0 <= callbackId < MAX_SUBSCRIBERS
    {
      if callbackId < 0 || callbackId >= MAX_SUBSCRIBERS {
        return false;
      }
      var listening := Vacate(callbackId);
      if !listening {
        RemoveEventNotify();
      }
      ok := true;
    }

    method CallSubscribers(e: Event) returns (calls: seq<Delivery>)
      ensures calls == Calls(list[..], e)
    {
      hide Calls;
      calls := [];
      ghost var slots := list[..];
      assert slots[0..] == slots;
      for i := 0 to list.Length
        invariant Calls(slots, e) == calls + Calls(slots[i..], e)
      {
        CallsStep(slots, i, e, calls);
        if list[i].Taken? {
          if list[i].kind == e.kind || list[i].kind == ALL_TYPES {
            calls := calls + [Delivery(list[i].registration, e.id)];
          }
        }
      }
      CallsStop(slots, e);
    }

    /** Copies the rows read into an array of the given size, as long as it has room. */
    static method CopyEvents(rows: seq<Event>, size: nat) returns (fetch: Fetch)
      requires size > 0 || rows == []
      ensures fetch == FetchOf(size, rows)
    {
      var count, events := 0, [];
      for i := 0 to |rows|
        invariant count == i <= size && events == rows[..i]
      {
        count := count + 1;
        if size < count { return Failed; }
        events := events + [rows[i]];
      }
      fetch := Fetched(events);
      assert rows[..|rows|] == rows;
    }

    /** One round of the poller inside the mutex: size is the number of events counted and rows are the events
        then read, None for a failed query. An array without places is never filled, so rows are only defined
        for it when there are none. Calls collects the callbacks in the order they are made. */
    method Poll(max: nat, size: Option<nat>, rows: Option<seq<Event>>) returns (calls: seq<Delivery>)
      requires Valid()
      requires size == Some(0) && rows.Some? ==> rows.value == []
      modifies this
      ensures Valid()
      ensures (View(), calls) ==
              PollSection(old(View()), max, if size.None? || rows.None? then Failed else FetchOf(size.value, rows.value))
    {
      hide Deliveries;
      calls := [];
      if current < max {
        if size.Some? {
          if rows.Some? {
            var fetch := CopyEvents(rows.value, size.value);
            if fetch.Fetched? {
              calls := CallAll(fetch.events);
              current := max;
            }
          }
        }
      } else if max < current {
        current := max;
      }
      assert list[..] == old(list[..]);
    }

    /** The event loop: calls the subscribers for every event above the watermark. */
    method CallAll(events: seq<Event>) returns (calls: seq<Delivery>)
      ensures calls == Deliveries(events, current, list[..])
    {
      hide Calls, Deliveries;
      calls := [];
      ghost var slots := list[..];
      assert events[0..] == events;
      for e := 0 to |events|
        invariant Deliveries(events, current, slots) == calls + Deliveries(events[e..], current, slots)
      {
        DeliveriesStep(events, e, current, slots, calls);
        if events[e].id > current {
          var more := CallSubscribers(events[e]);
          calls := calls + more;
        }
      }
      DeliveriesStop(events, current, slots);
      assert calls + [] == calls;
    }
  }
}
