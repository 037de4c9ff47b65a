/** What the decoder accepts: the tables of a config input it reads, whatever wrote them. */
module ConfigReading {
  import opened Bytes
  import opened ConfigGoals
  import opened ConfigTables
  import opened Words

  /** There is room behind the tables for one more DIMM entry. */
  ghost predicate Roomy(mem: seq<Byte>, end: nat) { end + DIMM_INFO_SIZE <= |mem| }

  // ---------------------------------------------------------------------------------------------
  // One table

  /** Where entry j of an interleave table starts. */
  function EntryStart(o: nat, j: nat): nat { o + 24 + 48 * j }

  /** Entry j starts in the tables, if only at their end, and names a DIMM there is. */
  ghost predicate EntryKnown(mem: seq<Byte>, o: nat, end: nat, j: nat, devices: seq<Device>)
    requires Roomy(mem, end)
  {
    var at := EntryStart(o, j);
    at <= end && exists d :: d in devices && Identity(d) == mem[at..at + 26]
  }

  /** Entry j names me: the first DIMM with its identity is mine. */
  ghost predicate Mine(mem: seq<Byte>, o: nat, end: nat, j: nat, me: Guid, devices: seq<Device>)
    requires Roomy(mem, end)
  {
    var at := EntryStart(o, j);
    at <= end && var k := FindIdentity(devices, mem[at..at + 26]); k < |devices| && devices[k].guid == me
  }

  /** A table the decoder can read: a partition table, if the DIMM asked for is known; an interleave table of
      memory, or of App Direct if every entry is known; any other table. */
  ghost predicate Readable(mem: seq<Byte>, o: nat, end: nat, me: Guid, devices: seq<Device>)
    requires Roomy(mem, end) && o < end
  {
    var kind, memory, entries := Read(mem, o, 2), Read(mem, o + 7, 1), Read(mem, o + 6, 1);
    && (kind == 4 ==> exists d :: d in devices && d.guid == me)
    && (kind == 5 ==> memory == 1 || (memory == 2 && forall j: nat | j < entries :: EntryKnown(mem, o, end, j, devices)))
  }

  ghost predicate AppDirect(mem: seq<Byte>, o: nat, end: nat)
    requires Roomy(mem, end) && o < end
  {
    Read(mem, o, 2) == 5 && Read(mem, o + 7, 1) == 2
  }

  /** The last entry that names me gives me a gibibyte or more. */
  ghost predicate Gives(mem: seq<Byte>, o: nat, end: nat, j: nat, me: Guid, devices: seq<Device>)
    requires Roomy(mem, end)
  {
    Mine(mem, o, end, j, me, devices) && Read(mem, EntryStart(o, j) + 40, 8) % U64 >= GB
  }

  /** The first n entries give me something: the last that names me does. */
  ghost predicate SizedBy(mem: seq<Byte>, o: nat, end: nat, n: nat, me: Guid, devices: seq<Device>)
    requires Roomy(mem, end)
  {
    exists j: nat :: j < n && Gives(mem, o, end, j, me, devices) && forall i | j < i < n :: !Mine(mem, o, end, i, me, devices)
  }

  ghost predicate Sized(mem: seq<Byte>, o: nat, end: nat, me: Guid, devices: seq<Device>)
    requires Roomy(mem, end) && o < end
  {
    AppDirect(mem, o, end) && SizedBy(mem, o, end, Read(mem, o + 6, 1), me, devices)
  }

  lemma FindKnown(devices: seq<Device>, identity: seq<Byte>)
    ensures FindIdentity(devices, identity) < |devices| <==> exists d :: d in devices && Identity(d) == identity
  {
    var k := FindIdentity(devices, identity);
    if k < |devices| { assert devices[k] in devices; }
  }

  lemma FindMe(devices: seq<Device>, me: Guid)
    ensures FindGuid(devices, me) < |devices| <==> exists d :: d in devices && d.guid == me
  {
    var k := FindGuid(devices, me);
    if k < |devices| { assert devices[k] in devices; }
  }

  /** Entries i.. are read exactly if they are known, and the set then has a size exactly if they give one, or
      none of them names me and it had one. */
  lemma {:induction false} DimmsAre(mem: seq<Byte>, o: nat, end: nat, i: nat, n: nat, s: AppDirectSet, me: Guid, devices: seq<Device>)
    requires Roomy(mem, end) && i <= n
    ensures var r := ReadDimms(mem, EntryStart(o, i), end, i, n, s, me, devices);
      && (r.Some? <==> forall j: nat | i <= j < n :: EntryKnown(mem, o, end, j, devices))
      && (r.Some? ==> (r.value.size != 0 <==>
            || (exists j: nat :: i <= j < n && Gives(mem, o, end, j, me, devices) && forall k | j < k < n :: !Mine(mem, o, end, k, me, devices))
            || (s.size != 0 && forall j: nat | i <= j < n :: !Mine(mem, o, end, j, me, devices))))
    decreases n - i
  {
    hide Read, FindIdentity, Gives, Mine, EntryKnown;
    if i < n {
      EntryIs(mem, o, end, i, me, devices);
      if EntryKnown(mem, o, end, i, devices) {
        var at := EntryStart(o, i);
        var guid := devices[FindIdentity(devices, mem[at..at + 26])].guid;
        var next := s.(settings := s.settings.(dimms := PutDimm(s.settings.dimms, i, guid)),
                       size := if guid == me then Read(mem, at + 40, 8) % U64 / GB else s.size);
        DimmsAre(mem, o, end, i + 1, n, next, me, devices);
      }
    }
  }

  lemma EntryIs(mem: seq<Byte>, o: nat, end: nat, j: nat, me: Guid, devices: seq<Device>)
    requires Roomy(mem, end)
    ensures var at := EntryStart(o, j);
      && (EntryKnown(mem, o, end, j, devices) <==> at <= end && FindIdentity(devices, mem[at..at + 26]) < |devices|)
      && (at <= end && FindIdentity(devices, mem[at..at + 26]) < |devices| ==>
            && (Mine(mem, o, end, j, me, devices) <==> devices[FindIdentity(devices, mem[at..at + 26])].guid == me)
            && (Gives(mem, o, end, j, me, devices) <==>
                  Mine(mem, o, end, j, me, devices) && Read(mem, at + 40, 8) % U64 / GB != 0))
  {
    hide FindIdentity, Identity, Read;
    var at := EntryStart(o, j);
    if at <= end {
      FindKnown(devices, mem[at..at + 26]);
      Whole(Read(mem, at + 40, 8) % U64);
    }
  }

  lemma Whole(n: nat)
    ensures n / GB != 0 <==> n >= GB
  {
  }

  // ---------------------------------------------------------------------------------------------
  // The walk

  /** How many of the two sets have a size; the first is filled first. */
  ghost predicate Filled(g: ConfigGoal, n: nat) {
    && |g.sets| == 2 && n == (if g.sets[0].size != 0 then 1 else 0) + (if g.sets[1].size != 0 then 1 else 0)
    && (g.sets[0].size == 0 ==> g.sets[1].size == 0)
  }

  ghost predicate Within(t: seq<nat>, end: nat) {
    forall k: nat | k < |t| :: t[k] < end
  }

  /** Where the tables start that end in the bytes given, from the first on. */
  ghost function Starts(mem: seq<Byte>, at: nat, end: nat): (t: seq<nat>)
    requires Roomy(mem, end) && Walkable(mem, at, end)
    ensures Within(t, end)
    decreases end - at
  {
    if at >= end || at + Read(mem, at + 2, 2) > end then []
    else [at] + Starts(mem, at + Read(mem, at + 2, 2), end)
  }

  /** Nothing is left behind the last of them. */
  ghost predicate Complete(mem: seq<Byte>, at: nat, end: nat)
    requires Roomy(mem, end) && Walkable(mem, at, end)
  {
    var t := Starts(mem, at, end);
    if t == [] then at >= end else var o := t[|t| - 1]; o < end && o + Read(mem, o + 2, 2) == end
  }

  /** How many of the tables give me something. */
  ghost function SizedAmong(mem: seq<Byte>, t: seq<nat>, end: nat, me: Guid, devices: seq<Device>): nat
    requires Roomy(mem, end) && Within(t, end)
  {
    if t == [] then 0 else (if Sized(mem, t[0], end, me, devices) then 1 else 0) + SizedAmong(mem, t[1..], end, me, devices)
  }

  /** Every table can be read, and no App Direct table follows two that give me something; n have been before. */
  ghost predicate AllReadable(mem: seq<Byte>, t: seq<nat>, end: nat, me: Guid, devices: seq<Device>, n: nat)
    requires Roomy(mem, end) && Within(t, end)
  {
    forall k: nat | k < |t| ::
      && Readable(mem, t[k], end, me, devices)
      && (AppDirect(mem, t[k], end) ==> n + SizedAmong(mem, t[..k], end, me, devices) < 2)
  }

  /** One table of the walk. */
  lemma TableIs(mem: seq<Byte>, o: nat, end: nat, g: ConfigGoal, n: nat, me: Guid, devices: seq<Device>)
    requires Roomy(mem, end) && o < end && Filled(g, n)
    ensures var r := ReadTable(mem, o, end, g, me, devices);
      && (r.Some? <==> Readable(mem, o, end, me, devices) && (AppDirect(mem, o, end) ==> n < 2))
      && (r.Some? ==> Filled(r.value, if Sized(mem, o, end, me, devices) then n + 1 else n))
  {
    hide Read, FindGuid, EntryKnown, Gives, Mine, ReadDimms, WordFormat;
    FindMe(devices, me);
    if AppDirect(mem, o, end) && n < 2 {
      var before := g.sets[n];
      var start := before.(setId := Read(mem, o + 4, 2),
                           settings := before.settings.(
                             mirrored := Read(mem, o + 12, 1) != 0,
                             interleave := WordFormat(Read(mem, o + 8, 4), before.settings.interleave)));
      DimmsAre(mem, o, end, 0, Read(mem, o + 6, 1), start, me, devices);
      assert EntryStart(o, 0) == o + INTERLEAVE_SIZE;
    }
  }

  lemma {:induction false} WalkIs(mem: seq<Byte>, at: nat, end: nat, g: ConfigGoal, n: nat, me: Guid, devices: seq<Device>)
    requires Roomy(mem, end) && Walkable(mem, at, end) && at <= end && Filled(g, n)
    ensures ReadTables(mem, at, end, g, me, devices).Some? <==>
            Complete(mem, at, end) && AllReadable(mem, Starts(mem, at, end), end, me, devices, n)
    decreases end - at
  {
    hide Read, Readable, AppDirect, Sized, ReadTable;
    var t := Starts(mem, at, end);
    if at < end && at + Read(mem, at + 2, 2) <= end {
      var next := at + Read(mem, at + 2, 2);
      TableIs(mem, at, end, g, n, me, devices);
      var rest, r := Starts(mem, next, end), ReadTable(mem, at, end, g, me, devices);
      var more := if Sized(mem, at, end, me, devices) then n + 1 else n;
      FirstReadable(mem, t, end, me, devices, n);
      assert t[1..] == rest;
      if r.Some? { WalkIs(mem, next, end, r.value, more, me, devices); }
    }
  }

  lemma FirstReadable(mem: seq<Byte>, t: seq<nat>, end: nat, me: Guid, devices: seq<Device>, n: nat)
    requires Roomy(mem, end) && t != [] && Within(t, end)
    ensures AllReadable(mem, t, end, me, devices, n) <==>
            && Readable(mem, t[0], end, me, devices) && (AppDirect(mem, t[0], end) ==> n < 2)
            && AllReadable(mem, t[1..], end, me, devices, if Sized(mem, t[0], end, me, devices) then n + 1 else n)
  {
    hide Readable, AppDirect, Sized;
    var more := if Sized(mem, t[0], end, me, devices) then n + 1 else n;
    forall k: nat | k < |t[1..]|
      ensures n + SizedAmong(mem, t[..k + 1], end, me, devices) == more + SizedAmong(mem, t[1..][..k], end, me, devices)
    {
      assert t[..k + 1][1..] == t[1..][..k];
    }
    assert t[..0] == [];
    if AllReadable(mem, t, end, me, devices, n) {
      assert Readable(mem, t[0], end, me, devices);
      forall k: nat | k < |t[1..]|
        ensures Readable(mem, t[1..][k], end, me, devices)
        ensures AppDirect(mem, t[1..][k], end) ==> more + SizedAmong(mem, t[1..][..k], end, me, devices) < 2
      {
        assert t[1..][k] == t[k + 1];
      }
    }
    if Readable(mem, t[0], end, me, devices) && (AppDirect(mem, t[0], end) ==> n < 2) && AllReadable(mem, t[1..], end, me, devices, more) {
      forall k: nat | k < |t|
        ensures Readable(mem, t[k], end, me, devices)
        ensures AppDirect(mem, t[k], end) ==> n + SizedAmong(mem, t[..k], end, me, devices) < 2
      {
        if k > 0 { assert t[1..][k - 1] == t[k] && Readable(mem, t[1..][k - 1], end, me, devices); }
      }
    }
  }

  /** Whatever the bytes, they are decoded exactly if tables fill them to the end, each of which can be read, and no
      App Direct table follows two that give the DIMM asked for a gibibyte or more. */
  lemma DecodedExactly(mem: seq<Byte>, at: nat, end: nat, me: Guid, devices: seq<Device>)
    requires Roomy(mem, end) && at <= end && Walkable(mem, at, end)
    ensures ReadTables(mem, at, end, ZERO_GOAL, me, devices).Some? <==>
            && Complete(mem, at, end)
            && forall k: nat | k < |Starts(mem, at, end)| ::
                 && Readable(mem, Starts(mem, at, end)[k], end, me, devices)
                 && (AppDirect(mem, Starts(mem, at, end)[k], end) ==> SizedAmong(mem, Starts(mem, at, end)[..k], end, me, devices) < 2)
  {
    hide Readable, AppDirect, ReadTables;
    WalkIs(mem, at, end, ZERO_GOAL, 0, me, devices);
  }
}
