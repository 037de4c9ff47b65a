/** The layout as it is written: the ranges the BIOS reads out of the DIMM entries of an encoded goal. */
module ConfigLayout {
  import opened Bytes
  import opened ConfigGoals
  import opened ConfigTables
  import opened Options
  import opened Words

  /** Where the table of a set starts. */
  function TableAt(g: ConfigGoal, k: nat): nat
    requires WellFormed(g) && k < g.count
  {
    INPUT_SIZE + PARTITION_SIZE +
    if k == 0 then 0 else INTERLEAVE_SIZE + Ways(g.sets[0].settings.interleave.ways) * DIMM_INFO_SIZE
  }

  /** Where entry j of a set stands. */
  function EntryAt(g: ConfigGoal, k: nat, j: nat): nat
    requires WellFormed(g) && k < g.count
  {
    TableAt(g, k) + INTERLEAVE_SIZE + j * DIMM_INFO_SIZE
  }

  /** The range in bytes 32 to 47 of an entry. */
  function RangeAt(mem: seq<Byte>, at: nat): Range
    requires at + DIMM_INFO_SIZE <= |mem|
  {
    Range(Read(mem, at + 32, 8) % U64, Read(mem, at + 40, 8) % U64)
  }

  lemma {:induction false} InfosRead(mem: seq<Byte>, at: nat, devices: seq<Device>, dimms: seq<Guid>, r: Range, j: nat)
    requires Distinct(devices) && DimmInfos(devices, dimms, r).Some? && Lies(mem, at, DimmInfos(devices, dimms, r).value)
    requires j < |dimms|
    ensures at + j * DIMM_INFO_SIZE + DIMM_INFO_SIZE <= |mem|
    ensures RangeAt(mem, at + j * DIMM_INFO_SIZE) == r && FindGuid(devices, dimms[j]) < |devices|
    ensures mem[at + j * DIMM_INFO_SIZE..at + j * DIMM_INFO_SIZE + 26] == Identity(devices[FindGuid(devices, dimms[j])])
    decreases |dimms|
  {
    hide Lies, DimmInfo, Identity, Read, Distinct;
    var k := FindGuid(devices, dimms[0]);
    KnownIsValid(devices, k);
    LiesConcat(mem, at, DimmInfo(devices[k], r), DimmInfos(devices, dimms[1..], r).value);
    DimmInfoReads(mem, at, devices[k], r);
    if j > 0 { InfosRead(mem, at + DIMM_INFO_SIZE, devices, dimms[1..], r, j - 1); }
  }

  lemma KnownIsValid(devices: seq<Device>, k: nat)
    requires Distinct(devices) && k < |devices|
    ensures ValidDevice(devices[k])
  {
  }

  /** Every DIMM entry of a set of an encoded goal names its DIMM and carries the set's range. */
  lemma EntriesWritten(g: ConfigGoal, devices: seq<Device>, capacity: Word64, sequenceNumber: nat, mem: seq<Byte>, k: nat, j: nat)
    requires Distinct(devices) && Encodable(g) && ConfigInput(devices, g, capacity, sequenceNumber).Some?
    requires Lies(mem, INPUT_SIZE, ConfigInput(devices, g, capacity, sequenceNumber).value[INPUT_SIZE..])
    requires k < g.count && j < Ways(g.sets[k].settings.interleave.ways)
    ensures EntryAt(g, k, j) + DIMM_INFO_SIZE <= |mem|
    ensures RangeAt(mem, EntryAt(g, k, j)) == SetRange(g, capacity, k)
    ensures FindGuid(devices, g.sets[k].settings.dimms[j]) < |devices|
    ensures mem[EntryAt(g, k, j)..EntryAt(g, k, j) + 26] == Identity(devices[FindGuid(devices, g.sets[k].settings.dimms[j])])
    ensures TableAt(g, k) + INTERLEAVE_SIZE <= |mem|
    ensures Read(mem, TableAt(g, k) + 12, 1) == if g.sets[k].settings.mirrored then 1 else 0
  {
    hide Lies, DimmInfos, InterleaveHeader, InputHeader, PartitionTable, Distinct, SetRange, Read, RangeAt, Identity;
    TableLies(g, devices, capacity, sequenceNumber, mem, k);
    var s, r := g.sets[k], SetRange(g, capacity, k);
    var dimms := s.settings.dimms[..Ways(s.settings.interleave.ways)];
    LiesConcat(mem, TableAt(g, k), InterleaveHeader(s), DimmInfos(devices, dimms, r).value);
    HeaderReads(mem, TableAt(g, k), s);
    InfosRead(mem, TableAt(g, k) + INTERLEAVE_SIZE, devices, dimms, r, j);
  }

  lemma TableLies(g: ConfigGoal, devices: seq<Device>, capacity: Word64, sequenceNumber: nat, mem: seq<Byte>, k: nat)
    requires Distinct(devices) && Encodable(g) && ConfigInput(devices, g, capacity, sequenceNumber).Some? && k < g.count
    requires Lies(mem, INPUT_SIZE, ConfigInput(devices, g, capacity, sequenceNumber).value[INPUT_SIZE..])
    ensures InterleaveTable(devices, g.sets[k], SetRange(g, capacity, k)).Some?
    ensures Lies(mem, TableAt(g, k), InterleaveTable(devices, g.sets[k], SetRange(g, capacity, k)).value)
    ensures Lies(mem, INPUT_SIZE, PartitionTable(PartitionSize(g, capacity)))
  {
    hide Lies, InterleaveTable, InputHeader, PartitionTable, PartitionSize, SetRange;
    var table := ConfigInput(devices, g, capacity, sequenceNumber).value;
    var partition, sets := PartitionTable(PartitionSize(g, capacity)), InterleaveTables(devices, g, capacity, 0).value;
    assert table[INPUT_SIZE..] == partition + sets;
    LiesConcat(mem, INPUT_SIZE, partition, sets);
    var first := InterleaveTable(devices, g.sets[0], SetRange(g, capacity, 0)).value;
    var rest := InterleaveTables(devices, g, capacity, 1).value;
    LiesConcat(mem, INPUT_SIZE + PARTITION_SIZE, first, rest);
    TableLength(devices, g.sets[0], SetRange(g, capacity, 0));
    if k == 1 {
      var second := InterleaveTable(devices, g.sets[1], SetRange(g, capacity, 1)).value;
      assert InterleaveTables(devices, g, capacity, 2) == Some([]);
      LiesConcat(mem, TableAt(g, 1), second, []);
    }
  }

  lemma TableLength(devices: seq<Device>, s: AppDirectSet, r: Range)
    requires Distinct(devices) && ListsDimms(s) && InterleaveTable(devices, s, r).Some?
    ensures |InterleaveTable(devices, s, r).value| == INTERLEAVE_SIZE + Ways(s.settings.interleave.ways) * DIMM_INFO_SIZE
  {
    hide DimmInfos, InterleaveHeader, Distinct;
    DimmInfosSize(devices, s.settings.dimms[..Ways(s.settings.interleave.ways)], r);
  }

  /** The first device with the guid is there and manageable. */
  ghost predicate Manageable(devices: seq<Device>, guid: Guid) {
    exists k: nat :: k < |devices| && devices[k].guid == guid && devices[k].manageable && forall j: nat | j < k :: devices[j].guid != guid
  }

  lemma FoundManageable(devices: seq<Device>, guid: Guid)
    ensures FindGuid(devices, guid) < |devices| && devices[FindGuid(devices, guid)].manageable <==> Manageable(devices, guid)
  {
    var k := FindGuid(devices, guid);
    FirstGuid(devices, guid);
    if Manageable(devices, guid) {
      var m: nat :| m < |devices| && devices[m].guid == guid && devices[m].manageable && forall j: nat | j < m :: devices[j].guid != guid;
      assert devices[m] in devices;
      assert m <= k && k <= m;
    }
  }

  lemma {:induction false} FirstGuid(devices: seq<Device>, guid: Guid)
    ensures forall j: nat | j < FindGuid(devices, guid) :: devices[j].guid != guid
  {
    if devices != [] && devices[0].guid != guid {
      FirstGuid(devices[1..], guid);
      assert forall j: nat | 0 < j < |devices| :: devices[j] == devices[1..][j - 1];
    }
  }

  lemma {:induction false} InfosExactly(devices: seq<Device>, dimms: seq<Guid>, r: Range)
    ensures DimmInfos(devices, dimms, r).Some? <==> forall j: nat | j < |dimms| :: Manageable(devices, dimms[j])
  {
    hide Manageable, DimmInfo;
    if dimms != [] {
      InfosExactly(devices, dimms[1..], r);
      FoundManageable(devices, dimms[0]);
      assert forall j: nat | 0 < j < |dimms| :: dimms[j] == dimms[1..][j - 1];
      assert forall j: nat | j < |dimms[1..]| :: dimms[1..][j] == dimms[j + 1];
    }
  }

  /** A goal is encoded exactly if every DIMM its sets are interleaved over is known and manageable. */
  lemma EncodedExactly(g: ConfigGoal, devices: seq<Device>, capacity: Word64, sequenceNumber: nat)
    requires Encodable(g)
    ensures ConfigInput(devices, g, capacity, sequenceNumber).Some? <==>
            forall k: nat | k < g.count :: AllManageable(devices, g.sets[k])
  {
    hide DimmInfos, InterleaveHeader, InputHeader, PartitionTable, PartitionSize, SetRange, AllManageable;
    forall k: nat | k < g.count
      ensures InterleaveTable(devices, g.sets[k], SetRange(g, capacity, k)).Some? <==> AllManageable(devices, g.sets[k])
    {
      TableExactly(devices, g.sets[k], SetRange(g, capacity, k));
    }
    assert InterleaveTables(devices, g, capacity, g.count) == Some([]);
    if g.count == 2 { assert InterleaveTables(devices, g, capacity, 1).Some? <==> AllManageable(devices, g.sets[1]); }
  }

  ghost predicate AllManageable(devices: seq<Device>, s: AppDirectSet)
    requires ListsDimms(s)
  {
    forall j: nat | j < Ways(s.settings.interleave.ways) :: Manageable(devices, s.settings.dimms[j])
  }

  lemma TableExactly(devices: seq<Device>, s: AppDirectSet, r: Range)
    requires ListsDimms(s)
    ensures InterleaveTable(devices, s, r).Some? <==> AllManageable(devices, s)
  {
    hide DimmInfos, InterleaveHeader, Manageable;
    InfosExactly(devices, s.settings.dimms[..Ways(s.settings.interleave.ways)], r);
  }

  // ---------------------------------------------------------------------------------------------
  // The layout in the bytes

  /** A goal's tables lie in the memory, and each of its sets has a DIMM. */
  ghost predicate Written(mem: seq<Byte>, g: ConfigGoal, devices: seq<Device>, capacity: Word64, sequenceNumber: nat) {
    && Distinct(devices) && Encodable(g) && ConfigInput(devices, g, capacity, sequenceNumber).Some?
    && Lies(mem, INPUT_SIZE, ConfigInput(devices, g, capacity, sequenceNumber).value[INPUT_SIZE..])
    && forall k | 0 <= k < g.count :: Ways(g.sets[k].settings.interleave.ways) > 0
  }

  /** There is room for the first entry of every set. */
  ghost predicate Readable(mem: seq<Byte>, g: ConfigGoal) {
    && WellFormed(g) && INPUT_SIZE + PARTITION_SIZE <= |mem|
    && forall k | 0 <= k < g.count :: EntryAt(g, k, 0) + DIMM_INFO_SIZE <= |mem|
  }

  /** The bytes a set takes of every DIMM as its table says: the range, and a copy of it if the mirror byte is set. */
  function Taken(mem: seq<Byte>, g: ConfigGoal, k: nat): nat
    requires Readable(mem, g) && k < g.count
  {
    assert EntryAt(g, k, 0) + DIMM_INFO_SIZE <= |mem|;
    RangeAt(mem, EntryAt(g, k, 0)).size * (if Read(mem, TableAt(g, k) + 12, 1) != 0 then 2 else 1)
  }

  function Begins(mem: seq<Byte>, g: ConfigGoal, k: nat): nat
    requires Readable(mem, g) && k < g.count
  {
    assert EntryAt(g, k, 0) + DIMM_INFO_SIZE <= |mem|;
    RangeAt(mem, EntryAt(g, k, 0)).offset
  }

  /** What the sets take follows one another from 0 on and ends inside the partition, as the tables say. */
  ghost predicate WrittenSoundly(mem: seq<Byte>, g: ConfigGoal)
    requires Readable(mem, g)
  {
    && (g.count > 0 ==> Begins(mem, g, 0) == 0)
    && (g.count > 1 ==> Begins(mem, g, 1) == Begins(mem, g, 0) + Taken(mem, g, 0))
    && (g.count > 0 ==> Begins(mem, g, g.count - 1) + Taken(mem, g, g.count - 1) <= Read(mem, INPUT_SIZE + 8, 8))
  }

  lemma WrittenIsLaidOut(mem: seq<Byte>, g: ConfigGoal, devices: seq<Device>, capacity: Word64, sequenceNumber: nat)
    requires Written(mem, g, devices, capacity, sequenceNumber)
    ensures Readable(mem, g)
    ensures Read(mem, INPUT_SIZE + 8, 8) == PartitionSize(g, capacity)
    ensures forall k | 0 <= k < g.count :: Begins(mem, g, k) == SetRange(g, capacity, k).offset && Taken(mem, g, k) == Footprint(g, capacity, k)
  {
    hide Lies, ConfigInput, Distinct, Read, SetRange, PartitionSize;
    forall k | 0 <= k < g.count
      ensures EntryAt(g, k, 0) + DIMM_INFO_SIZE <= |mem|
      ensures RangeAt(mem, EntryAt(g, k, 0)) == SetRange(g, capacity, k)
      ensures Read(mem, TableAt(g, k) + 12, 1) == if g.sets[k].settings.mirrored then 1 else 0
    {
      EntriesWritten(g, devices, capacity, sequenceNumber, mem, k, 0);
    }
    PartitionLies(mem, g, devices, capacity, sequenceNumber);
    PartitionReads(mem, INPUT_SIZE, PartitionSize(g, capacity));
  }

  lemma PartitionLies(mem: seq<Byte>, g: ConfigGoal, devices: seq<Device>, capacity: Word64, sequenceNumber: nat)
    requires Written(mem, g, devices, capacity, sequenceNumber)
    ensures Lies(mem, INPUT_SIZE, PartitionTable(PartitionSize(g, capacity)))
  {
    hide Lies, InterleaveTables, InputHeader, PartitionTable, PartitionSize;
    var table := ConfigInput(devices, g, capacity, sequenceNumber).value;
    var partition, sets := PartitionTable(PartitionSize(g, capacity)), InterleaveTables(devices, g, capacity, 0).value;
    assert table[INPUT_SIZE..] == partition + sets;
    LiesConcat(mem, INPUT_SIZE, partition, sets);
  }

  /** For every accepted goal with an explicit memory size the bytes written lay its sets out soundly exactly if no
      second set follows a mirrored one or one that asks for all that remains, two wrapping sizes aside. */
  lemma LayoutWritten(mem: seq<Byte>, g: ConfigGoal, devices: seq<Device>, capacity: Word64, sequenceNumber: nat)
    requires Written(mem, g, devices, capacity, sequenceNumber) && AcceptsSizes(g, capacity) && g.memorySize != ALL
    ensures Readable(mem, g)
    ensures WrittenSoundly(mem, g) <==>
            (g.count == 2 ==>
               if g.sets[0].settings.mirrored then g.sets[0].size == U64 / 2
               else g.sets[0].size == ALL ==> PartitionSize(g, capacity) == U64 - GB)
  {
    hide Written, AcceptsSizes, SetRange, PartitionSize, Read, Begins, Taken, Footprint;
    Shaped(mem, g, devices, capacity, sequenceNumber);
    WrittenIsLaidOut(mem, g, devices, capacity, sequenceNumber);
    FootprintsSound(g, capacity);
  }

  /** With all capacity as memory the bytes written are sound exactly if nothing is left to take: by the last set, and
      a set before it is mirrored with just 2^63 gibibytes. */
  lemma AllMemoryWritten(mem: seq<Byte>, g: ConfigGoal, devices: seq<Device>, capacity: Word64, sequenceNumber: nat)
    requires Written(mem, g, devices, capacity, sequenceNumber) && AcceptsSizes(g, capacity) && g.memorySize == ALL
    ensures Readable(mem, g)
    ensures WrittenSoundly(mem, g) <==>
            && (g.count > 0 ==> TakesNothing(g.sets[g.count - 1], UsableCapacity(capacity)))
            && (g.count == 2 ==> g.sets[0].settings.mirrored && g.sets[0].size == U64 / 2)
  {
    hide Written, AcceptsSizes, SetRange, PartitionSize, Read, Begins, Taken, Footprint, TakesNothing;
    Shaped(mem, g, devices, capacity, sequenceNumber);
    WrittenIsLaidOut(mem, g, devices, capacity, sequenceNumber);
    AllMemorySound(g, capacity);
  }

  lemma Shaped(mem: seq<Byte>, g: ConfigGoal, devices: seq<Device>, capacity: Word64, sequenceNumber: nat)
    requires Written(mem, g, devices, capacity, sequenceNumber)
    ensures WellFormed(g)
  {
  }
}
