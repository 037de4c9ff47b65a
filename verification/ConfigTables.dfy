/** The config input table of a goal: extension tables of packed little-endian fields, the walk that reads
    them back, and the round trip. */
module ConfigTables {
  import opened Arithmetic
  import opened Bytes
  import opened ConfigGoals
  import opened Options
  import opened Words

  // ---------------------------------------------------------------------------------------------
  // Interleave formats

  function SizeBits(s: InterleaveSize): Byte {
    match s
    case Size64B => 1
    case Size128B => 2
    case Size256B => 4
    case Size4KB => 64
    case Size1GB => 128
  }

  /** A size field that names no size leaves the old value. */
  function BitsSize(bits: nat, before: InterleaveSize): InterleaveSize {
    if bits == 1 then Size64B
    else if bits == 2 then Size128B
    else if bits == 4 then Size256B
    else if bits == 64 then Size4KB
    else if bits == 128 then Size1GB
    else before
  }

  function WaysBits(w: InterleaveWays): (bits: nat)
    ensures bits < 512
  {
    match w
    case Ways0 => 0
    case Ways1 => 1
    case Ways2 => 2
    case Ways3 => 4
    case Ways4 => 8
    case Ways6 => 16
    case Ways8 => 32
    case Ways12 => 64
    case Ways16 => 128
    case Ways24 => 256
  }

  function BitsWays(bits: nat): InterleaveWays {
    if bits == 1 then Ways1
    else if bits == 2 then Ways2
    else if bits == 4 then Ways3
    else if bits == 8 then Ways4
    else if bits == 16 then Ways6
    else if bits == 32 then Ways8
    else if bits == 64 then Ways12
    else if bits == 128 then Ways16
    else if bits == 256 then Ways24
    else Ways0
  }

  /** The number of DIMMs, which is the enumeration's own value. */
  function Ways(w: InterleaveWays): (n: nat)
    ensures n <= 24
  {
    match w
    case Ways0 => 0
    case Ways1 => 1
    case Ways2 => 2
    case Ways3 => 3
    case Ways4 => 4
    case Ways6 => 6
    case Ways8 => 8
    case Ways12 => 12
    case Ways16 => 16
    case Ways24 => 24
  }

  /** Channel size in bits 7:0, memory controller size in 15:8, ways in 24:16, recommended in 31. */
  function FormatWord(f: InterleaveFormat): (w: nat)
    ensures w < 0x1_0000_0000
  {
    SizeBits(f.channel) + SizeBits(f.imc) * 0x100 + WaysBits(f.ways) * 0x1_0000
    + (if f.recommended then 0x8000_0000 else 0)
  }

  function WordFormat(w: nat, before: InterleaveFormat): InterleaveFormat {
    InterleaveFormat(w / 0x8000_0000 % 2 == 1, BitsSize(w % 0x100, before.channel),
                     BitsSize(w / 0x100 % 0x100, before.imc), BitsWays(w / 0x1_0000 % 0x200))
  }

  /** Decoding a format word gives the format back. */
  lemma FormatRoundTrip(f: InterleaveFormat, before: InterleaveFormat)
    ensures WordFormat(FormatWord(f), before) == f
  {
    FormatFields(SizeBits(f.channel), SizeBits(f.imc), WaysBits(f.ways), if f.recommended then 1 else 0);
  }

  lemma FormatFields(c: nat, i: nat, w: nat, r: nat)
    requires c < 0x100 && i < 0x100 && w < 0x200 && r < 2
    ensures var word := c + i * 0x100 + w * 0x1_0000 + r * 0x8000_0000;
      && word % 0x100 == c && word / 0x100 % 0x100 == i
      && word / 0x1_0000 % 0x200 == w && word / 0x8000_0000 % 2 == r
  {
  }

  // ---------------------------------------------------------------------------------------------
  // Devices

  datatype Device = Device(guid: Guid, manufacturer: seq<Byte>, serial: seq<Byte>, model: seq<Byte>,
                           capacity: Word64, manageable: bool)

  ghost predicate ValidDevice(d: Device) {
    |d.manufacturer| == 2 && |d.serial| == 4 && |d.model| == 20
  }

  function Identity(d: Device): seq<Byte> { d.manufacturer + d.serial + d.model }

  /** Index of the first device with the guid; the number of devices when there is none. */
  function FindGuid(devices: seq<Device>, guid: Guid): (k: nat)
    ensures k <= |devices|
    ensures k < |devices| ==> devices[k].guid == guid
    ensures k == |devices| ==> forall d | d in devices :: d.guid != guid
  {
    if devices == [] || devices[0].guid == guid then 0 else 1 + FindGuid(devices[1..], guid)
  }

  function FindIdentity(devices: seq<Device>, identity: seq<Byte>): (k: nat)
    ensures k <= |devices|
    ensures k < |devices| ==> Identity(devices[k]) == identity
    ensures k == |devices| ==> forall d | d in devices :: Identity(d) != identity
  {
    if devices == [] || Identity(devices[0]) == identity then 0 else 1 + FindIdentity(devices[1..], identity)
  }

  /** No two devices share a guid or an identity. */
  ghost predicate Distinct(devices: seq<Device>) {
    && (forall d | d in devices :: ValidDevice(d))
    && forall j, k | 0 <= j < k < |devices| ::
         devices[j].guid != devices[k].guid && Identity(devices[j]) != Identity(devices[k])
  }

  lemma FindBoth(devices: seq<Device>, k: nat)
    requires Distinct(devices) && k < |devices|
    ensures FindGuid(devices, devices[k].guid) == k && FindIdentity(devices, Identity(devices[k])) == k
  {
    var g, i := FindGuid(devices, devices[k].guid), FindIdentity(devices, Identity(devices[k]));
    assert g < |devices| by { assert devices[k] in devices; }
    assert i < |devices| by { assert devices[k] in devices; }
  }

  // ---------------------------------------------------------------------------------------------
  // Encoding

  const PARTITION_TYPE := 4
  const INTERLEAVE_TYPE := 5
  const PARTITION_SIZE := 16
  const INTERLEAVE_SIZE := 24
  const DIMM_INFO_SIZE := 48
  const INPUT_SIZE := 48
  const TYPE_MEMORY := 1
  const TYPE_APP_DIRECT := 2

  function PartitionTable(partition: Word64): (b: seq<Byte>)
    ensures |b| == PARTITION_SIZE
  {
    LE(PARTITION_TYPE, 2) + (LE(PARTITION_SIZE, 2) + (LE(0, 4) + LE(partition, 8)))
  }

  function DimmInfo(d: Device, r: Range): (b: seq<Byte>) {
    d.manufacturer + (d.serial + (d.model + (Zeros(6) + (LE(r.offset, 8) + LE(r.size, 8)))))
  }

  /** The entries of the DIMMs; None when one is unknown or not manageable. */
  function DimmInfos(devices: seq<Device>, dimms: seq<Guid>, r: Range): Option<seq<Byte>> {
    if dimms == [] then Some([])
    else
      var k := FindGuid(devices, dimms[0]);
      if k == |devices| || !devices[k].manageable then None
      else
        var rest := DimmInfos(devices, dimms[1..], r);
        if rest.None? then None else Some(DimmInfo(devices[k], r) + rest.value)
  }

  function InterleaveHeader(s: AppDirectSet): (b: seq<Byte>)
    ensures |b| == INTERLEAVE_SIZE
  {
    var n := Ways(s.settings.interleave.ways);
    LE(INTERLEAVE_TYPE, 2) + (LE(INTERLEAVE_SIZE + n * DIMM_INFO_SIZE, 2) + (LE(s.setId, 2) + (LE(n, 1) +
    (LE(TYPE_APP_DIRECT, 1) + (LE(FormatWord(s.settings.interleave), 4) + (LE(if s.settings.mirrored then 1 else 0, 1) +
    Zeros(11)))))))
  }

  /** The DIMM array of the settings has an entry for every way. */
  ghost predicate ListsDimms(s: AppDirectSet) {
    Ways(s.settings.interleave.ways) <= |s.settings.dimms| && s.setId < 0x1_0000
  }

  function InterleaveTable(devices: seq<Device>, s: AppDirectSet, r: Range): Option<seq<Byte>>
    requires ListsDimms(s)
  {
    var infos := DimmInfos(devices, s.settings.dimms[..Ways(s.settings.interleave.ways)], r);
    if infos.None? then None else Some(InterleaveHeader(s) + infos.value)
  }

  ghost predicate Encodable(g: ConfigGoal) {
    WellFormed(g) && forall k | 0 <= k < g.count :: ListsDimms(g.sets[k])
  }

  /** The interleave tables of sets k.. */
  function InterleaveTables(devices: seq<Device>, g: ConfigGoal, capacity: Word64, k: nat): Option<seq<Byte>>
    requires Encodable(g) && k <= g.count
    decreases g.count - k
  {
    if k == g.count then Some([])
    else
      var table := InterleaveTable(devices, g.sets[k], SetRange(g, capacity, k));
      if table.None? then None
      else
        var rest := InterleaveTables(devices, g, capacity, k + 1);
        if rest.None? then None else Some(table.value + rest.value)
  }

  function Ascii(s: string): (b: seq<Byte>)
    requires forall k | 0 <= k < |s| :: s[k] as int < 256
    ensures |b| == |s|
  {
    if s == "" then [] else [s[0] as int] + Ascii(s[1..])
  }

  /** The table's own header and its sequence number; the checksum byte is filled in by the caller. */
  function InputHeader(length: nat, sequenceNumber: nat): (b: seq<Byte>)
    ensures |b| == INPUT_SIZE
  {
    Ascii("CIN_") + (LE(length, 4) + (LE(1, 1) + (LE(0, 1) + (Ascii("INTEL ") + (Ascii("PURLEY  ") +
    (LE(2, 4) + (Ascii("INTL") + (LE(0, 4) + (LE(sequenceNumber, 4) + Zeros(8))))))))))
  }

  function ConfigInput(devices: seq<Device>, g: ConfigGoal, capacity: Word64, sequenceNumber: nat): Option<seq<Byte>>
    requires Encodable(g)
  {
    var sets := InterleaveTables(devices, g, capacity, 0);
    if sets.None? then None
    else
      var tables := PartitionTable(PartitionSize(g, capacity)) + sets.value;
      Some(InputHeader(INPUT_SIZE + |tables|, sequenceNumber) + tables)
  }

  // ---------------------------------------------------------------------------------------------
  // Decoding

  const ZERO_SET := AppDirectSet(0, 0, AppDirectSettings(InterleaveFormat(false, Size64B, Size64B, Ways0), false, []))
  const ZERO_GOAL := ConfigGoal(0, 0, [ZERO_SET, ZERO_SET])

  /** Puts a guid into place i of a list that is filled from the front. */
  function PutDimm(dimms: seq<Guid>, i: nat, guid: Guid): seq<Guid> {
    if i < |dimms| then dimms[i := guid] else dimms + [guid]
  }

  /** Entries i..n of an interleave table, the first of them at offset at. */
  function ReadDimms(mem: seq<Byte>, at: nat, end: nat, i: nat, n: nat, s: AppDirectSet, me: Guid, devices: seq<Device>)
    : Option<AppDirectSet>
    requires end + DIMM_INFO_SIZE <= |mem| && i <= n
    decreases n - i
  {
    if i == n then Some(s)
    else if at > end then None
    else
      var k := FindIdentity(devices, mem[at..at + 26]);
      if k == |devices| then None
      else
        var guid := devices[k].guid;
        var next := s.(settings := s.settings.(dimms := PutDimm(s.settings.dimms, i, guid)),
                       size := if guid == me then Read(mem, at + 40, 8) % U64 / GB else s.size);
        ReadDimms(mem, at + DIMM_INFO_SIZE, end, i + 1, n, next, me, devices)
  }

  /** An interleave table at offset at, read into the goal. */
  function ReadInterleave(mem: seq<Byte>, at: nat, end: nat, g: ConfigGoal, me: Guid, devices: seq<Device>)
    : (r: Option<ConfigGoal>)
    requires at < end && end + DIMM_INFO_SIZE <= |mem| && |g.sets| == 2
    ensures r.Some? ==> |r.value.sets| == 2
  {
    if Read(mem, at + 7, 1) != TYPE_APP_DIRECT then
      if Read(mem, at + 7, 1) == TYPE_MEMORY then Some(g) else None
    else if g.sets[0].size != 0 && g.sets[1].size != 0 then None
    else
      var slot := if g.sets[0].size != 0 then 1 else 0;
      var before := g.sets[slot];
      var start := before.(setId := Read(mem, at + 4, 2),
                           settings := before.settings.(
                             mirrored := Read(mem, at + 12, 1) != 0,
                             interleave := WordFormat(Read(mem, at + 8, 4), before.settings.interleave)));
      var s := ReadDimms(mem, at + INTERLEAVE_SIZE, end, 0, Read(mem, at + 6, 1), start, me, devices);
      if s.None? then None else Some(g.(count := slot + 1, sets := g.sets[slot := s.value]))
  }

  /** A partition table at offset at, read into the goal. */
  function ReadPartition(mem: seq<Byte>, at: nat, g: ConfigGoal, me: Guid, devices: seq<Device>): (r: Option<ConfigGoal>)
    requires at + PARTITION_SIZE <= |mem|
    ensures r.Some? ==> r.value.sets == g.sets
  {
    var k := FindGuid(devices, me);
    if k == |devices| then None
    else
      var usable := UsableCapacity(devices[k].capacity) / GB;
      var partition := Read(mem, at + 8, 8) % U64;
      Some(g.(memorySize := if partition != 0 then Wrap(usable - partition / GB) else usable))
  }

  /** Reads the extension table at offset at. */
  function ReadTable(mem: seq<Byte>, at: nat, end: nat, g: ConfigGoal, me: Guid, devices: seq<Device>): (r: Option<ConfigGoal>)
    requires at < end && end + DIMM_INFO_SIZE <= |mem| && |g.sets| == 2
    ensures r.Some? ==> |r.value.sets| == 2
  {
    var kind := Read(mem, at, 2);
    if kind == PARTITION_TYPE then ReadPartition(mem, at, g, me, devices)
    else if kind == INTERLEAVE_TYPE then ReadInterleave(mem, at, end, g, me, devices)
    else Some(g)
  }

  /** Every table up to the end, or up to the first that runs over it, has a positive length; at a length
      of 0 the walk would not move on. */
  ghost predicate Walkable(mem: seq<Byte>, at: nat, end: nat)
    requires end + DIMM_INFO_SIZE <= |mem|
    decreases end - at
  {
    at < end ==>
      var length := Read(mem, at + 2, 2);
      length > 0 && (at + length <= end ==> Walkable(mem, at + length, end))
  }

  /** Reads the extension tables from offset at up to the end; None stands for bad configuration data. */
  ghost function ReadTables(mem: seq<Byte>, at: nat, end: nat, g: ConfigGoal, me: Guid, devices: seq<Device>): Option<ConfigGoal>
    requires end + DIMM_INFO_SIZE <= |mem| && |g.sets| == 2 && Walkable(mem, at, end)
    decreases end - at
  {
    if at >= end then Some(g)
    else if at + Read(mem, at + 2, 2) > end then None
    else
      var next := ReadTable(mem, at, end, g, me, devices);
      if next.None? then None else ReadTables(mem, at + Read(mem, at + 2, 2), end, next.value, me, devices)
  }

  // ---------------------------------------------------------------------------------------------
  // Reading what was written

  lemma PartitionReads(mem: seq<Byte>, at: nat, partition: Word64)
    requires Lies(mem, at, PartitionTable(partition))
    ensures at + PARTITION_SIZE <= |mem|
    ensures Read(mem, at, 2) == PARTITION_TYPE && Read(mem, at + 2, 2) == PARTITION_SIZE
    ensures Read(mem, at + 4, 4) == 0 && Read(mem, at + 8, 8) == partition
  {
    hide Lies, LE, Read;
    Pow256Values();
    var size := LE(partition, 8);
    var status := LE(0, 4) + size;
    var length := LE(PARTITION_SIZE, 2) + status;
    LiesConcat(mem, at, LE(PARTITION_TYPE, 2), length);
    LiesConcat(mem, at + 2, LE(PARTITION_SIZE, 2), status);
    LiesConcat(mem, at + 4, LE(0, 4), size);
    LiesEnd(mem, at + 8, size);
    ReadField(mem, at, PARTITION_TYPE, 2);
    ReadField(mem, at + 2, PARTITION_SIZE, 2);
    ReadField(mem, at + 4, 0, 4);
    ReadField(mem, at + 8, partition, 8);
  }

  lemma LiesEnd(mem: seq<Byte>, at: nat, b: seq<Byte>)
    requires Lies(mem, at, b)
    ensures at + |b| <= |mem| && mem[at..at + |b|] == b
  {
  }

  lemma HeaderReads(mem: seq<Byte>, at: nat, s: AppDirectSet)
    requires Lies(mem, at, InterleaveHeader(s)) && s.setId < 0x1_0000
    ensures at + INTERLEAVE_SIZE <= |mem|
    ensures Read(mem, at, 2) == INTERLEAVE_TYPE
    ensures Read(mem, at + 2, 2) == INTERLEAVE_SIZE + Ways(s.settings.interleave.ways) * DIMM_INFO_SIZE
    ensures Read(mem, at + 4, 2) == s.setId && Read(mem, at + 6, 1) == Ways(s.settings.interleave.ways)
    ensures Read(mem, at + 7, 1) == TYPE_APP_DIRECT && Read(mem, at + 8, 4) == FormatWord(s.settings.interleave)
    ensures Read(mem, at + 12, 1) == if s.settings.mirrored then 1 else 0
  {
    hide Lies, LE, Read, FormatWord;
    Pow256Values();
    var n := Ways(s.settings.interleave.ways);
    var size := INTERLEAVE_SIZE + n * DIMM_INFO_SIZE;
    var word := FormatWord(s.settings.interleave);
    var mirror := if s.settings.mirrored then 1 else 0;
    var rest6 := LE(mirror, 1) + Zeros(11);
    var rest5 := LE(word, 4) + rest6;
    var rest4 := LE(TYPE_APP_DIRECT, 1) + rest5;
    var rest3 := LE(n, 1) + rest4;
    var rest2 := LE(s.setId, 2) + rest3;
    var rest1 := LE(size, 2) + rest2;
    LiesEnd(mem, at, LE(INTERLEAVE_TYPE, 2) + rest1);
    LiesConcat(mem, at, LE(INTERLEAVE_TYPE, 2), rest1);
    LiesConcat(mem, at + 2, LE(size, 2), rest2);
    LiesConcat(mem, at + 4, LE(s.setId, 2), rest3);
    LiesConcat(mem, at + 6, LE(n, 1), rest4);
    LiesConcat(mem, at + 7, LE(TYPE_APP_DIRECT, 1), rest5);
    LiesConcat(mem, at + 8, LE(word, 4), rest6);
    LiesConcat(mem, at + 12, LE(mirror, 1), Zeros(11));
    ReadField(mem, at, INTERLEAVE_TYPE, 2);
    ReadField(mem, at + 2, size, 2);
    ReadField(mem, at + 4, s.setId, 2);
    ReadField(mem, at + 6, n, 1);
    ReadField(mem, at + 7, TYPE_APP_DIRECT, 1);
    ReadField(mem, at + 8, word, 4);
    ReadField(mem, at + 12, mirror, 1);
  }

  lemma DimmInfoReads(mem: seq<Byte>, at: nat, d: Device, r: Range)
    requires ValidDevice(d) && Lies(mem, at, DimmInfo(d, r))
    ensures |DimmInfo(d, r)| == DIMM_INFO_SIZE && at + DIMM_INFO_SIZE <= |mem|
    ensures mem[at..at + 26] == Identity(d) && Read(mem, at + 32, 8) == r.offset && Read(mem, at + 40, 8) == r.size
  {
    hide Lies, LE, Read;
    Pow256Values();
    var rest4 := LE(r.offset, 8) + LE(r.size, 8);
    var rest3 := Zeros(6) + rest4;
    var rest2 := d.model + rest3;
    var rest1 := d.serial + rest2;
    LiesEnd(mem, at, d.manufacturer + rest1);
    assert Identity(d) + rest3 == d.manufacturer + rest1;
    LiesConcat(mem, at, Identity(d), rest3);
    LiesEnd(mem, at, Identity(d));
    LiesConcat(mem, at + 26, Zeros(6), rest4);
    LiesConcat(mem, at + 32, LE(r.offset, 8), LE(r.size, 8));
    ReadField(mem, at + 32, r.offset, 8);
    ReadField(mem, at + 40, r.size, 8);
  }

  lemma {:induction false} DimmInfosSize(devices: seq<Device>, dimms: seq<Guid>, r: Range)
    requires Distinct(devices) && DimmInfos(devices, dimms, r).Some?
    ensures |DimmInfos(devices, dimms, r).value| == |dimms| * DIMM_INFO_SIZE
  {
    if dimms != [] {
      assert ValidDevice(devices[FindGuid(devices, dimms[0])]);
      DimmInfosSize(devices, dimms[1..], r);
    }
  }

  /** The DIMM entries come back in order, and the size of the entry of the DIMM asked for. */
  lemma {:induction false} DimmsBack(mem: seq<Byte>, at: nat, end: nat, dimms: seq<Guid>, r: Range, s: AppDirectSet,
                                     me: Guid, devices: seq<Device>)
    requires Distinct(devices) && DimmInfos(devices, dimms, r).Some?
    requires Lies(mem, at, DimmInfos(devices, dimms, r).value)
    requires at + |dimms| * DIMM_INFO_SIZE <= end && end + DIMM_INFO_SIZE <= |mem|
    ensures var i := |s.settings.dimms|;
      ReadDimms(mem, at, end, i, i + |dimms|, s, me, devices)
      == Some(s.(settings := s.settings.(dimms := s.settings.dimms + dimms),
                 size := if me in dimms then r.size / GB else s.size))
    decreases |dimms|
  {
    hide Lies, DimmInfo, Identity, Read;
    var i := |s.settings.dimms|;
    if dimms == [] {
      assert s.settings.dimms + dimms == s.settings.dimms;
    } else {
      var k := FindGuid(devices, dimms[0]);
      var d := devices[k];
      FindBoth(devices, k);
      LiesConcat(mem, at, DimmInfo(d, r), DimmInfos(devices, dimms[1..], r).value);
      DimmInfoReads(mem, at, d, r);
      var next := s.(settings := s.settings.(dimms := s.settings.dimms + [dimms[0]]),
                     size := if dimms[0] == me then r.size / GB else s.size);
      DimmsBack(mem, at + DIMM_INFO_SIZE, end, dimms[1..], r, next, me, devices);
      assert s.settings.dimms + [dimms[0]] + dimms[1..] == s.settings.dimms + dimms;
      assert me in dimms <==> me == dimms[0] || me in dimms[1..];
    }
  }

  /** What decoding can recover of a set: the DIMMs it uses of its array. */
  function Used(s: AppDirectSet): AppDirectSet
    requires Ways(s.settings.interleave.ways) <= |s.settings.dimms|
  {
    s.(settings := s.settings.(dimms := s.settings.dimms[..Ways(s.settings.interleave.ways)]))
  }

  /** One interleave table comes back as its set. */
  lemma InterleaveBack(mem: seq<Byte>, at: nat, end: nat, s: AppDirectSet, r: Range, g: ConfigGoal, slot: nat,
                       me: Guid, devices: seq<Device>)
    requires Distinct(devices) && ListsDimms(s) && InterleaveTable(devices, s, r).Some?
    requires Lies(mem, at, InterleaveTable(devices, s, r).value)
    requires at + |InterleaveTable(devices, s, r).value| <= end && end + DIMM_INFO_SIZE <= |mem|
    requires |g.sets| == 2 && slot < 2 && g.sets[slot] == ZERO_SET && (slot == 1 <==> g.sets[0].size != 0)
    requires me in s.settings.dimms[..Ways(s.settings.interleave.ways)] && r.size == s.size * GB
    ensures Read(mem, at + 2, 2) == |InterleaveTable(devices, s, r).value| > 0
    ensures ReadTable(mem, at, end, g, me, devices) == Some(g.(count := slot + 1, sets := g.sets[slot := Used(s)]))
  {
    hide Lies, ReadDimms, DimmInfos, FormatWord, WordFormat, Read, ReadTable, InterleaveHeader, Distinct, Used;
    var n := Ways(s.settings.interleave.ways);
    var dimms := s.settings.dimms[..n];
    DimmInfosSize(devices, dimms, r);
    LiesConcat(mem, at, InterleaveHeader(s), DimmInfos(devices, dimms, r).value);
    HeaderReads(mem, at, s);
    FormatRoundTrip(s.settings.interleave, ZERO_SET.settings.interleave);
    var start := AppDirectSet(0, s.setId, AppDirectSettings(s.settings.interleave, s.settings.mirrored, []));
    DimmsBack(mem, at + INTERLEAVE_SIZE, end, dimms, r, start, me, devices);
    StartBecomesUsed(start, s, r, me);
    InterleaveStep(mem, at, end, g, slot, start, n, Used(s), me, devices);
  }

  lemma StartBecomesUsed(start: AppDirectSet, s: AppDirectSet, r: Range, me: Guid)
    requires start == AppDirectSet(0, s.setId, AppDirectSettings(s.settings.interleave, s.settings.mirrored, []))
    requires ListsDimms(s) && r.size == s.size * GB
    requires me in s.settings.dimms[..Ways(s.settings.interleave.ways)]
    ensures var dimms := s.settings.dimms[..Ways(s.settings.interleave.ways)];
      start.(settings := start.settings.(dimms := start.settings.dimms + dimms),
             size := if me in dimms then r.size / GB else start.size) == Used(s)
  {
    MultipleMod(s.size, GB);
    var dimms := s.settings.dimms[..Ways(s.settings.interleave.ways)];
    assert [] + dimms == dimms;
  }

  /** How an interleave table is read into an empty slot, given what its fields read as. */
  lemma InterleaveStep(mem: seq<Byte>, at: nat, end: nat, g: ConfigGoal, slot: nat, start: AppDirectSet, n: nat,
                       s: AppDirectSet, me: Guid, devices: seq<Device>)
    requires at < end && end + DIMM_INFO_SIZE <= |mem|
    requires |g.sets| == 2 && slot < 2 && g.sets[slot] == ZERO_SET && (slot == 1 <==> g.sets[0].size != 0)
    requires Read(mem, at, 2) == INTERLEAVE_TYPE && Read(mem, at + 7, 1) == TYPE_APP_DIRECT
    requires Read(mem, at + 4, 2) == start.setId && start.size == 0 && start.settings.dimms == []
    requires WordFormat(Read(mem, at + 8, 4), ZERO_SET.settings.interleave) == start.settings.interleave
    requires Read(mem, at + 12, 1) != 0 <==> start.settings.mirrored
    requires Read(mem, at + 6, 1) == n
    requires ReadDimms(mem, at + INTERLEAVE_SIZE, end, 0, n, start, me, devices) == Some(s)
    ensures ReadTable(mem, at, end, g, me, devices) == Some(g.(count := slot + 1, sets := g.sets[slot := s]))
  {
    hide ReadDimms, WordFormat, Read;
  }

  /** The goal as far as the first k sets have been read. */
  function ReadSoFar(g: ConfigGoal, k: nat): ConfigGoal
    requires |g.sets| == 2 && k <= 2
    requires forall j | 0 <= j < k :: Ways(g.sets[j].settings.interleave.ways) <= |g.sets[j].settings.dimms|
  {
    ConfigGoal(g.memorySize, k, [if k > 0 then Used(g.sets[0]) else ZERO_SET, if k > 1 then Used(g.sets[1]) else ZERO_SET])
  }

  /** A set whose explicit size fits a word in bytes and that is spread over the DIMM. */
  ghost predicate Explicit(s: AppDirectSet, me: Guid) {
    ListsDimms(s) && 0 < s.size <= MAX_GB && me in Used(s).settings.dimms
  }

  lemma {:induction false} SetsBack(mem: seq<Byte>, at: nat, end: nat, g: ConfigGoal, capacity: Word64, k: nat,
                                    me: Guid, devices: seq<Device>)
    requires Distinct(devices) && Encodable(g) && k <= g.count
    requires forall j | 0 <= j < g.count :: Explicit(g.sets[j], me)
    requires InterleaveTables(devices, g, capacity, k).Some?
    requires Lies(mem, at, InterleaveTables(devices, g, capacity, k).value)
    requires at + |InterleaveTables(devices, g, capacity, k).value| == end && end + DIMM_INFO_SIZE <= |mem|
    ensures Walkable(mem, at, end)
    ensures ReadTables(mem, at, end, ReadSoFar(g, k), me, devices) == Some(ReadSoFar(g, g.count))
    decreases g.count - k
  {
    hide Lies, InterleaveTable, ReadTable, Read, SetRange;
    if k < g.count {
      var r := SetRange(g, capacity, k);
      ExplicitRange(g, capacity, k, me);
      var table := InterleaveTable(devices, g.sets[k], r).value;
      LiesConcat(mem, at, table, InterleaveTables(devices, g, capacity, k + 1).value);
      InterleaveBack(mem, at, end, g.sets[k], r, ReadSoFar(g, k), k, me, devices);
      SetsBack(mem, at + |table|, end, g, capacity, k + 1, me, devices);
      assert ReadSoFar(g, k).(count := k + 1, sets := ReadSoFar(g, k).sets[k := Used(g.sets[k])]) == ReadSoFar(g, k + 1);
    }
  }

  lemma ExplicitRange(g: ConfigGoal, capacity: Word64, k: nat, me: Guid)
    requires WellFormed(g) && k < g.count && Explicit(g.sets[k], me)
    ensures SetRange(g, capacity, k).size == g.sets[k].size * GB
  {
    WrapIsId(g.sets[k].size * GB);
  }

  /** The partition table gives back the memory size: floor(U/G) - floor((U - m*G)/G) == m. */
  lemma MemoryBack(g: ConfigGoal, capacity: Word64)
    requires WellFormed(g) && AcceptsSizes(g, capacity) && g.memorySize != ALL
    ensures var usable, partition := UsableCapacity(capacity) / GB, PartitionSize(g, capacity);
      (if partition != 0 then Wrap(usable - partition / GB) else usable) == g.memorySize
  {
    hide UsableCapacity, PartitionSize, AcceptsSizes;
    MemoryAndPartition(g, capacity);
    var partition := PartitionSize(g, capacity);
    AddMultiple(partition, g.memorySize, GB);
    WrapIsId(g.memorySize);
  }

  /** An accepted size fits a word in bytes exactly if it is explicit and its doubling did not wrap. */
  lemma {:induction false} AcceptedFit(g: ConfigGoal, k: nat, remaining: Word64, j: nat)
    requires k <= j < g.count <= |g.sets| && ChargeSets(g, k, remaining).Some?
    ensures g.sets[j].size > 0
    ensures g.sets[j].size <= MAX_GB <==>
            g.sets[j].size != ALL && (g.sets[j].settings.mirrored ==> g.sets[j].size < U64 / 2)
    decreases g.count - k
  {
    if k == j {
      if g.sets[k].size != ALL && (g.sets[k].settings.mirrored ==> g.sets[k].size < U64 / 2) {
        ChargeIsExact(g.sets[k].size, remaining, g.sets[k].settings.mirrored);
      }
    } else {
      AcceptedFit(g, k + 1, Charge(g.sets[k].size, remaining, g.sets[k].settings.mirrored).value, j);
    }
  }

  /** The conditions of the round trip: an accepted goal whose sets list the DIMM, with all DIMMs known. */
  ghost predicate Recoverable(g: ConfigGoal, devices: seq<Device>, k: nat) {
    && Distinct(devices) && k < |devices| && Encodable(g) && AcceptsSizes(g, devices[k].capacity)
    && (forall j | 0 <= j < g.count :: devices[k].guid in Used(g.sets[j]).settings.dimms)
    && InterleaveTables(devices, g, devices[k].capacity, 0).Some?
  }

  /** All sizes fit a word in bytes; the flag for all remaining capacity does not. */
  ghost predicate SizesFit(g: ConfigGoal)
    requires g.count <= |g.sets|
  {
    g.memorySize <= MAX_GB && forall j | 0 <= j < g.count :: g.sets[j].size <= MAX_GB
  }

  /** What the goal's own tables decode to: memory size, set count, ids, sizes, formats, mirroring and the
      DIMMs in order. Unused sets are zero. */
  ghost function Recovered(g: ConfigGoal): ConfigGoal
    requires Encodable(g)
  {
    ReadSoFar(g, g.count)
  }

  /** Decoding an encoded accepted goal recovers it exactly if its sizes fit a word in bytes, from any buffer that
      holds its extension tables behind a header of any contents. */
  lemma GoalRoundTrip(g: ConfigGoal, devices: seq<Device>, k: nat, sequenceNumber: nat, mem: seq<Byte>)
    requires Recoverable(g, devices, k)
    requires var table := ConfigInput(devices, g, devices[k].capacity, sequenceNumber).value;
      Lies(mem, INPUT_SIZE, table[INPUT_SIZE..]) && |table| + DIMM_INFO_SIZE <= |mem|
    ensures var end := |ConfigInput(devices, g, devices[k].capacity, sequenceNumber).value|;
      && Walkable(mem, INPUT_SIZE, end)
      && (ReadTables(mem, INPUT_SIZE, end, ZERO_GOAL, devices[k].guid, devices) == Some(Recovered(g)) <==> SizesFit(g))
  {
    hide LE, Zeros, Read, Lies, InputHeader, PartitionTable, PartitionSize, UsableCapacity, InterleaveTables;
    hide ReadTables, Walkable, Used, AcceptsSizes, ReadPartition;
    var capacity, me := devices[k].capacity, devices[k].guid;
    var table := ConfigInput(devices, g, capacity, sequenceNumber).value;
    var partition, sets := PartitionTable(PartitionSize(g, capacity)), InterleaveTables(devices, g, capacity, 0).value;
    assert table[INPUT_SIZE..] == partition + sets;
    LiesConcat(mem, INPUT_SIZE, partition, sets);
    PartitionStep(mem, |table|, g, k, devices);
    var first := ReadPartition(mem, INPUT_SIZE, ZERO_GOAL, me, devices).value;
    SetsWalked(mem, INPUT_SIZE + PARTITION_SIZE, |table|, g, capacity, 0, first, me, devices);
    WalkOn(mem, |table|, first, me, devices);
    if SizesFit(g) {
      forall j | 0 <= j < g.count ensures Explicit(g.sets[j], me) {
        AcceptedExplicit(g, capacity, j, me);
      }
      SetsBack(mem, INPUT_SIZE + PARTITION_SIZE, |table|, g, capacity, 0, me, devices);
      PartitionBack(mem, |table|, g, k, devices);
    } else {
      TablesFit(mem, INPUT_SIZE, |table|, ZERO_GOAL, me, devices);
      FitsOrNot(g, capacity, me);
      if g.memorySize > MAX_GB { AllReadsLess(mem, g, k, devices); }
    }
  }

  lemma AcceptedExplicit(g: ConfigGoal, capacity: Word64, j: nat, me: Guid)
    requires Encodable(g) && AcceptsSizes(g, capacity) && j < g.count && g.sets[j].size <= MAX_GB
    requires me in Used(g.sets[j]).settings.dimms
    ensures Explicit(g.sets[j], me)
  {
    AcceptedFit(g, 0, Charge(g.memorySize, UsableCapacity(capacity), false).value, j);
  }

  lemma {:induction false} DimmsFit(mem: seq<Byte>, at: nat, end: nat, i: nat, n: nat, s: AppDirectSet, me: Guid, devices: seq<Device>)
    requires end + DIMM_INFO_SIZE <= |mem| && i <= n && s.size <= MAX_GB
    ensures var r := ReadDimms(mem, at, end, i, n, s, me, devices); r.Some? ==> r.value.size <= MAX_GB
    decreases n - i
  {
    hide Read, PutDimm, FindIdentity;
    if i < n && at <= end {
      var k := FindIdentity(devices, mem[at..at + 26]);
      if k < |devices| {
        var guid := devices[k].guid;
        var next := s.(settings := s.settings.(dimms := PutDimm(s.settings.dimms, i, guid)),
                       size := if guid == me then Read(mem, at + 40, 8) % U64 / GB else s.size);
        DimmsFit(mem, at + DIMM_INFO_SIZE, end, i + 1, n, next, me, devices);
      }
    }
  }

  /** The sets read so far have sizes that fit a word in bytes. */
  ghost predicate SetsFit(g: ConfigGoal) {
    forall s | s in g.sets :: s.size <= MAX_GB
  }

  lemma TableFits(mem: seq<Byte>, at: nat, end: nat, g: ConfigGoal, me: Guid, devices: seq<Device>)
    requires at < end && end + DIMM_INFO_SIZE <= |mem| && |g.sets| == 2 && SetsFit(g)
    ensures var r := ReadTable(mem, at, end, g, me, devices); r.Some? ==> SetsFit(r.value)
  {
    hide Read, ReadDimms, WordFormat;
    var slot := if g.sets[0].size != 0 then 1 else 0;
    var before := g.sets[slot];
    var start := before.(setId := Read(mem, at + 4, 2),
                         settings := before.settings.(
                           mirrored := Read(mem, at + 12, 1) != 0,
                           interleave := WordFormat(Read(mem, at + 8, 4), before.settings.interleave)));
    DimmsFit(mem, at + INTERLEAVE_SIZE, end, 0, Read(mem, at + 6, 1), start, me, devices);
  }

  /** Whatever tables are read, the sets of the goal have sizes that fit a word in bytes. */
  lemma {:induction false} TablesFit(mem: seq<Byte>, at: nat, end: nat, g: ConfigGoal, me: Guid, devices: seq<Device>)
    requires end + DIMM_INFO_SIZE <= |mem| && |g.sets| == 2 && Walkable(mem, at, end) && SetsFit(g)
    ensures var r := ReadTables(mem, at, end, g, me, devices); r.Some? ==> SetsFit(r.value)
    decreases end - at
  {
    hide Read, ReadTable, SetsFit;
    if at < end && at + Read(mem, at + 2, 2) <= end {
      var next := ReadTable(mem, at, end, g, me, devices);
      TableFits(mem, at, end, g, me, devices);
      if next.Some? { TablesFit(mem, at + Read(mem, at + 2, 2), end, next.value, me, devices); }
    }
  }

  /** Interleave tables can be walked over, and leave the memory size as it is. */
  lemma {:induction false} SetsWalked(mem: seq<Byte>, at: nat, end: nat, g: ConfigGoal, capacity: Word64, k: nat,
                                      h: ConfigGoal, me: Guid, devices: seq<Device>)
    requires Distinct(devices) && Encodable(g) && k <= g.count && |h.sets| == 2
    requires InterleaveTables(devices, g, capacity, k).Some?
    requires Lies(mem, at, InterleaveTables(devices, g, capacity, k).value)
    requires at + |InterleaveTables(devices, g, capacity, k).value| == end && end + DIMM_INFO_SIZE <= |mem|
    ensures Walkable(mem, at, end)
    ensures var r := ReadTables(mem, at, end, h, me, devices); r.Some? ==> r.value.memorySize == h.memorySize
    decreases g.count - k
  {
    hide Lies, InterleaveHeader, DimmInfos, Read, SetRange, ReadDimms, WordFormat, Distinct, ReadTable;
    if k < g.count {
      var s, r := g.sets[k], SetRange(g, capacity, k);
      var dimms := s.settings.dimms[..Ways(s.settings.interleave.ways)];
      var infos := DimmInfos(devices, dimms, r).value;
      DimmInfosSize(devices, dimms, r);
      var table, rest := InterleaveHeader(s) + infos, InterleaveTables(devices, g, capacity, k + 1).value;
      LiesConcat(mem, at, table, rest);
      LiesConcat(mem, at, InterleaveHeader(s), infos);
      HeaderReads(mem, at, s);
      var next := ReadTable(mem, at, end, h, me, devices);
      InterleaveKeepsMemory(mem, at, end, h, me, devices);
      SetsWalked(mem, at + |table|, end, g, capacity, k + 1, if next.Some? then next.value else h, me, devices);
    }
  }

  lemma InterleaveKeepsMemory(mem: seq<Byte>, at: nat, end: nat, g: ConfigGoal, me: Guid, devices: seq<Device>)
    requires at < end && end + DIMM_INFO_SIZE <= |mem| && |g.sets| == 2 && Read(mem, at, 2) == INTERLEAVE_TYPE
    ensures var r := ReadTable(mem, at, end, g, me, devices); r.Some? ==> r.value.memorySize == g.memorySize
  {
    hide Read, ReadDimms, WordFormat;
  }

  /** The partition table is there and can be read. */
  lemma PartitionStep(mem: seq<Byte>, end: nat, g: ConfigGoal, k: nat, devices: seq<Device>)
    requires Distinct(devices) && k < |devices| && Encodable(g)
    requires Lies(mem, INPUT_SIZE, PartitionTable(PartitionSize(g, devices[k].capacity)))
    requires INPUT_SIZE + PARTITION_SIZE <= end && end + DIMM_INFO_SIZE <= |mem|
    ensures Read(mem, INPUT_SIZE, 2) == PARTITION_TYPE && Read(mem, INPUT_SIZE + 2, 2) == PARTITION_SIZE
    ensures ReadPartition(mem, INPUT_SIZE, ZERO_GOAL, devices[k].guid, devices).Some?
  {
    hide Read, Lies, PartitionTable, PartitionSize, UsableCapacity, Distinct;
    PartitionReads(mem, INPUT_SIZE, PartitionSize(g, devices[k].capacity));
    FindBoth(devices, k);
  }

  /** The walk's first step. */
  lemma WalkOn(mem: seq<Byte>, end: nat, first: ConfigGoal, me: Guid, devices: seq<Device>)
    requires INPUT_SIZE + PARTITION_SIZE <= end && end + DIMM_INFO_SIZE <= |mem|
    requires Read(mem, INPUT_SIZE, 2) == PARTITION_TYPE && Read(mem, INPUT_SIZE + 2, 2) == PARTITION_SIZE
    requires ReadPartition(mem, INPUT_SIZE, ZERO_GOAL, me, devices) == Some(first)
    requires Walkable(mem, INPUT_SIZE + PARTITION_SIZE, end)
    ensures Walkable(mem, INPUT_SIZE, end)
    ensures ReadTables(mem, INPUT_SIZE, end, ZERO_GOAL, me, devices)
         == ReadTables(mem, INPUT_SIZE + PARTITION_SIZE, end, first, me, devices)
  {
    hide Read, ReadPartition;
    assert ReadTable(mem, INPUT_SIZE, end, ZERO_GOAL, me, devices) == Some(first);
  }

  /** An accepted goal with a size that does not fit asks for all as memory, or has such a set. */
  lemma FitsOrNot(g: ConfigGoal, capacity: Word64, me: Guid)
    requires Encodable(g) && AcceptsSizes(g, capacity) && !SizesFit(g)
    ensures g.memorySize > MAX_GB ==> g.memorySize == ALL
    ensures g.memorySize <= MAX_GB ==> !SetsFit(Recovered(g))
  {
    if g.memorySize != ALL { ChargeIsExact(g.memorySize, UsableCapacity(capacity), false); }
    if g.memorySize <= MAX_GB {
      var j :| 0 <= j < g.count && g.sets[j].size > MAX_GB;
      assert Recovered(g).sets[j].size == g.sets[j].size;
    }
  }

  /** Memory that asks for all reads back as the capacity in gibibytes. */
  lemma AllReadsLess(mem: seq<Byte>, g: ConfigGoal, k: nat, devices: seq<Device>)
    requires Distinct(devices) && k < |devices| && g.memorySize == ALL
    requires Lies(mem, INPUT_SIZE, PartitionTable(PartitionSize(g, devices[k].capacity)))
    ensures INPUT_SIZE + PARTITION_SIZE <= |mem|
    ensures var r := ReadPartition(mem, INPUT_SIZE, ZERO_GOAL, devices[k].guid, devices); r.Some? ==> r.value.memorySize != ALL
  {
    hide Read, Lies, PartitionTable, Distinct;
    PartitionReads(mem, INPUT_SIZE, PartitionSize(g, devices[k].capacity));
    FindBoth(devices, k);
  }

  /** The walk's first step reads the memory size. */
  lemma PartitionBack(mem: seq<Byte>, end: nat, g: ConfigGoal, k: nat, devices: seq<Device>)
    requires Distinct(devices) && k < |devices| && Encodable(g)
    requires AcceptsSizes(g, devices[k].capacity) && g.memorySize != ALL
    requires Lies(mem, INPUT_SIZE, PartitionTable(PartitionSize(g, devices[k].capacity)))
    requires INPUT_SIZE + PARTITION_SIZE <= end && end + DIMM_INFO_SIZE <= |mem|
    requires Walkable(mem, INPUT_SIZE + PARTITION_SIZE, end)
    ensures Walkable(mem, INPUT_SIZE, end)
    ensures ReadTables(mem, INPUT_SIZE, end, ZERO_GOAL, devices[k].guid, devices)
         == ReadTables(mem, INPUT_SIZE + PARTITION_SIZE, end, ReadSoFar(g, 0), devices[k].guid, devices)
  {
    hide Read, Lies, PartitionTable, PartitionSize, UsableCapacity, AcceptsSizes, ReadInterleave, Distinct;
    PartitionReads(mem, INPUT_SIZE, PartitionSize(g, devices[k].capacity));
    FindBoth(devices, k);
    MemoryBack(g, devices[k].capacity);
    assert ReadTable(mem, INPUT_SIZE, end, ZERO_GOAL, devices[k].guid, devices) == Some(ReadSoFar(g, 0));
  }

  /** A goal's table stays far below the size of its partition. */
  lemma TablesSize(devices: seq<Device>, g: ConfigGoal, capacity: Word64, k: nat)
    requires Distinct(devices) && Encodable(g) && k <= g.count && InterleaveTables(devices, g, capacity, k).Some?
    ensures |InterleaveTables(devices, g, capacity, k).value| <= (g.count - k) * (INTERLEAVE_SIZE + 24 * DIMM_INFO_SIZE)
    decreases g.count - k
  {
    hide DimmInfos;
    if k < g.count {
      var s := g.sets[k];
      DimmInfosSize(devices, s.settings.dimms[..Ways(s.settings.interleave.ways)], SetRange(g, capacity, k));
      TablesSize(devices, g, capacity, k + 1);
    }
  }

  /** The header says how long the table is and carries the sequence number. */
  lemma HeaderFields(mem: seq<Byte>, length: nat, sequenceNumber: nat)
    requires Lies(mem, 0, InputHeader(length, sequenceNumber))
    requires length < 0x1_0000_0000 && sequenceNumber < 0x1_0000_0000
    ensures INPUT_SIZE <= |mem| && Read(mem, 4, 4) == length && Read(mem, 36, 4) == sequenceNumber
  {
    hide LE, Read, Lies, Ascii, Zeros;
    Pow256Values();
    var last := LE(sequenceNumber, 4) + Zeros(8);
    var before: seq<Byte> := LE(1, 1) + (LE(0, 1) + (Ascii("INTEL ") + (Ascii("PURLEY  ") +
                             (LE(2, 4) + (Ascii("INTL") + LE(0, 4))))));
    assert InputHeader(length, sequenceNumber) == Ascii("CIN_") + (LE(length, 4) + (before + last));
    LiesEnd(mem, 0, InputHeader(length, sequenceNumber));
    LiesConcat(mem, 0, Ascii("CIN_"), LE(length, 4) + (before + last));
    LiesConcat(mem, 4, LE(length, 4), before + last);
    LiesConcat(mem, 8, before, last);
    LiesConcat(mem, 36, LE(sequenceNumber, 4), Zeros(8));
    ReadField(mem, 4, length, 4);
    ReadField(mem, 36, sequenceNumber, 4);
  }

  // ---------------------------------------------------------------------------------------------
  // The encoder and the decoder

  method LookupGuid(devices: seq<Device>, guid: Guid) returns (k: nat)
    ensures k == FindGuid(devices, guid)
  {
    k := 0;
    while k < |devices| && devices[k].guid != guid
      invariant k <= |devices| && FindGuid(devices, guid) == k + FindGuid(devices[k..], guid)
    {
      assert devices[k..][1..] == devices[k + 1..];
      k := k + 1;
    }
  }

  method LookupIdentity(devices: seq<Device>, identity: seq<Byte>) returns (k: nat)
    ensures k == FindIdentity(devices, identity)
  {
    k := 0;
    while k < |devices| && Identity(devices[k]) != identity
      invariant k <= |devices| && FindIdentity(devices, identity) == k + FindIdentity(devices[k..], identity)
    {
      assert devices[k..][1..] == devices[k + 1..];
      k := k + 1;
    }
  }

  ghost predicate AllValid(devices: seq<Device>) {
    forall d | d in devices :: ValidDevice(d)
  }

  /** The entries with those done already in front. */
  ghost function InfosAfter(done: seq<Byte>, rest: Option<seq<Byte>>): Option<seq<Byte>> {
    if rest.None? then None else Some(done + rest.value)
  }

  lemma InfosStep(devices: seq<Device>, dimms: seq<Guid>, i: nat, r: Range, done: seq<Byte>)
    requires i < |dimms|
    ensures var k := FindGuid(devices, dimms[i]);
      InfosAfter(done, DimmInfos(devices, dimms[i..], r))
      == if k == |devices| || !devices[k].manageable then None
         else InfosAfter(done + DimmInfo(devices[k], r), DimmInfos(devices, dimms[i + 1..], r))
  {
    hide DimmInfo, FindGuid;
    assert dimms[i..][0] == dimms[i] && dimms[i..][1..] == dimms[i + 1..];
    var k := FindGuid(devices, dimms[i]);
    if k < |devices| {
      var rest := DimmInfos(devices, dimms[i + 1..], r);
      if rest.Some? {
        assert done + (DimmInfo(devices[k], r) + rest.value) == done + DimmInfo(devices[k], r) + rest.value;
      }
    }
  }

  method PutInterleaveHeader(table: array<Byte>, s: AppDirectSet)
    requires table.Length >= INTERLEAVE_SIZE
    modifies table
    ensures table[..INTERLEAVE_SIZE] == InterleaveHeader(s)
  {
    hide LE, FormatWord;
    var n := Ways(s.settings.interleave.ways);
    var at := Put(table, 0, LE(INTERLEAVE_TYPE, 2));
    at := Put(table, at, LE(INTERLEAVE_SIZE + n * DIMM_INFO_SIZE, 2));
    at := Put(table, at, LE(s.setId, 2));
    at := Put(table, at, LE(n, 1));
    at := Put(table, at, LE(TYPE_APP_DIRECT, 1));
    at := Put(table, at, LE(FormatWord(s.settings.interleave), 4));
    at := Put(table, at, LE(if s.settings.mirrored then 1 else 0, 1));
    at := Put(table, at, Zeros(11));
  }

  /** Writes one DIMM entry behind what was written. */
  method PutDimmInfo(table: array<Byte>, start: nat, d: Device, r: Range) returns (next: nat)
    requires ValidDevice(d) && start + DIMM_INFO_SIZE <= table.Length
    modifies table
    ensures next == start + DIMM_INFO_SIZE && table[..next] == old(table[..start]) + DimmInfo(d, r)
  {
    hide LE;
    var at := Put(table, start, d.manufacturer);
    at := Put(table, at, d.serial);
    at := Put(table, at, d.model);
    at := Put(table, at, Zeros(6));
    at := Put(table, at, LE(r.offset, 8));
    next := Put(table, at, LE(r.size, 8));
  }

  /** Builds the interleave table of one set; fails when a DIMM is unknown or not manageable. */
  method EncodeInterleaveTable(devices: seq<Device>, s: AppDirectSet, r: Range) returns (ok: bool, table: array<Byte>)
    requires ListsDimms(s) && AllValid(devices)
    ensures fresh(table)
    ensures InterleaveTable(devices, s, r) == if ok then Some(table[..]) else None
  {
    hide DimmInfo, DimmInfos, InterleaveHeader, FindGuid;
    var n := Ways(s.settings.interleave.ways);
    table := new Byte[INTERLEAVE_SIZE + n * DIMM_INFO_SIZE](_ => 0);
    PutInterleaveHeader(table, s);
    var i, at := 0, INTERLEAVE_SIZE;
    ghost var dimms, done := s.settings.dimms[..n], [];
    assert dimms[0..] == dimms;
    NoneDone(DimmInfos(devices, dimms, r));
    while i < n
      invariant i <= n && at == INTERLEAVE_SIZE + i * DIMM_INFO_SIZE
      invariant table[..at] == InterleaveHeader(s) + done
      invariant DimmInfos(devices, dimms, r) == InfosAfter(done, DimmInfos(devices, dimms[i..], r))
    {
      InfosStep(devices, dimms, i, r, done);
      var k := LookupGuid(devices, s.settings.dimms[i]);
      if k == |devices| || !devices[k].manageable {
        return false, table;
      }
      at := PutDimmInfo(table, at, devices[k], r);
      done := done + DimmInfo(devices[k], r);
      i := i + 1;
    }
    NoMoreInfos(devices, dimms, r);
    assert table[..at] == table[..];
    assert done + [] == done;
    ok := true;
  }

  lemma NoneDone(infos: Option<seq<Byte>>)
    ensures InfosAfter([], infos) == infos
  {
    if infos.Some? { assert [] + infos.value == infos.value; }
  }

  lemma NoMoreInfos(devices: seq<Device>, dimms: seq<Guid>, r: Range)
    ensures DimmInfos(devices, dimms[|dimms|..], r) == Some([])
  {
  }

  /** Builds the interleave tables of a goal, one behind the other. */
  method EncodeInterleaveTables(devices: seq<Device>, g: ConfigGoal, capacity: Word64)
    returns (ok: bool, tables: seq<Byte>)
    requires Encodable(g) && AllValid(devices)
    ensures InterleaveTables(devices, g, capacity, 0) == if ok then Some(tables) else None
  {
    hide InterleaveTable, InterleaveTables, ListsDimms;
    TablesAre(devices, g, capacity);
    tables := [];
    var left := Wrap(UsableCapacity(capacity) - Wrap(g.memorySize * GB));
    if g.count > 0 {
      var size := SizeFromCapacity(g.sets[0].size, left, g.sets[0].settings.mirrored);
      var t;
      ok, t := EncodeInterleaveTable(devices, g.sets[0], Range(0, Wrap(size * GB)));
      if !ok { return; }
      tables := t[..];
      left := Wrap(left - Wrap(size * GB));
      if g.count > 1 {
        size := SizeFromCapacity(g.sets[1].size, left, g.sets[1].settings.mirrored);
        ok, t := EncodeInterleaveTable(devices, g.sets[1], Range(Wrap(g.sets[0].size * GB), Wrap(size * GB)));
        if !ok { return; }
        tables := tables + t[..];
      }
    }
    ok := true;
  }

  lemma TablesAre(devices: seq<Device>, g: ConfigGoal, capacity: Word64)
    requires Encodable(g)
    ensures g.count == 0 ==> InterleaveTables(devices, g, capacity, 0) == Some([])
    ensures g.count == 1 ==>
              InterleaveTables(devices, g, capacity, 0) == InterleaveTable(devices, g.sets[0], SetRange(g, capacity, 0))
    ensures g.count == 2 ==>
              var first := InterleaveTable(devices, g.sets[0], SetRange(g, capacity, 0));
              var second := InterleaveTable(devices, g.sets[1], SetRange(g, capacity, 1));
              InterleaveTables(devices, g, capacity, 0)
              == if first.None? || second.None? then None else Some(first.value + second.value)
  {
    hide InterleaveTable, SetRange;
    assert InterleaveTables(devices, g, capacity, g.count) == Some([]);
    if g.count > 0 {
      var last := InterleaveTable(devices, g.sets[g.count - 1], SetRange(g, capacity, g.count - 1));
      assert last.Some? ==> last.value + [] == last.value;
      assert InterleaveTables(devices, g, capacity, g.count - 1) == last;
    }
  }

  /** Builds the config input table of a goal. */
  method EncodeConfigInput(devices: seq<Device>, g: ConfigGoal, capacity: Word64, sequenceNumber: nat)
    returns (ok: bool, table: array<Byte>)
    requires Encodable(g) && AllValid(devices)
    ensures fresh(table)
    ensures ConfigInput(devices, g, capacity, sequenceNumber) == if ok then Some(table[..]) else None
  {
    hide InterleaveTables, PartitionTable, InputHeader;
    var usable, partition := UsableCapacity(capacity), 0;
    if g.memorySize != ALL {
      partition := Wrap(usable - Wrap(SizeFromCapacity(g.memorySize, usable, false) * GB));
    }
    var sets;
    ok, sets := EncodeInterleaveTables(devices, g, capacity);
    var length := INPUT_SIZE + PARTITION_SIZE + |sets|;
    table := new Byte[length](_ => 0);
    if !ok { return; }
    var at := Put(table, 0, InputHeader(length, sequenceNumber));
    at := Put(table, at, PartitionTable(partition));
    at := Put(table, at, sets);
    assert table[..] == InputHeader(length, sequenceNumber) + (PartitionTable(partition) + sets);
  }

  /** The DIMM entries of an interleave table. */
  method DecodeDimms(mem: seq<Byte>, start: nat, end: nat, n: nat, s: AppDirectSet, me: Guid, devices: seq<Device>)
    returns (r: Option<AppDirectSet>)
    requires end + DIMM_INFO_SIZE <= |mem|
    ensures r == ReadDimms(mem, start, end, 0, n, s, me, devices)
  {
    hide Read, Identity;
    var found, at: nat, i := s, start, 0;
    while i < n
      invariant i <= n
      invariant ReadDimms(mem, start, end, 0, n, s, me, devices) == ReadDimms(mem, at, end, i, n, found, me, devices)
    {
      if at > end { return None; }
      var k := LookupIdentity(devices, mem[at..at + 26]);
      if k == |devices| { return None; }
      found := found.(settings := found.settings.(dimms := PutDimm(found.settings.dimms, i, devices[k].guid)));
      if devices[k].guid == me {
        found := found.(size := Read(mem, at + 40, 8) % U64 / GB);
      }
      at := at + DIMM_INFO_SIZE;
      i := i + 1;
    }
    r := Some(found);
  }

  method DecodeInterleave(mem: seq<Byte>, at: nat, end: nat, g: ConfigGoal, me: Guid, devices: seq<Device>)
    returns (r: Option<ConfigGoal>)
    requires at < end && end + DIMM_INFO_SIZE <= |mem| && |g.sets| == 2
    ensures r == ReadInterleave(mem, at, end, g, me, devices)
  {
    hide Read, ReadDimms, WordFormat;
    var memoryType := Read(mem, at + 7, 1);
    if memoryType == TYPE_APP_DIRECT {
      var slot;
      if g.sets[0].size != 0 {
        if g.sets[1].size != 0 { return None; }
        slot := 1;
      } else {
        slot := 0;
      }
      var found := g.sets[slot].(setId := Read(mem, at + 4, 2));
      found := found.(settings := found.settings.(mirrored := Read(mem, at + 12, 1) != 0));
      found := found.(settings := found.settings.(interleave := WordFormat(Read(mem, at + 8, 4), found.settings.interleave)));
      var s := DecodeDimms(mem, at + INTERLEAVE_SIZE, end, Read(mem, at + 6, 1), found, me, devices);
      if s.None? { return None; }
      return Some(g.(count := slot + 1, sets := g.sets[slot := s.value]));
    } else if memoryType != TYPE_MEMORY {
      return None;
    }
    return Some(g);
  }

  /** Walks the extension tables and reads the goal from them. */
  method DecodeConfigGoal(mem: seq<Byte>, start: nat, end: nat, me: Guid, devices: seq<Device>)
    returns (r: Option<ConfigGoal>)
    requires end + DIMM_INFO_SIZE <= |mem| && Walkable(mem, start, end)
    ensures r == ReadTables(mem, start, end, ZERO_GOAL, me, devices)
  {
    hide Read, ReadInterleave, ReadPartition;
    var goal, offset := ZERO_GOAL, start;
    while offset < end
      invariant |goal.sets| == 2 && Walkable(mem, offset, end)
      invariant ReadTables(mem, start, end, ZERO_GOAL, me, devices) == ReadTables(mem, offset, end, goal, me, devices)
      decreases end - offset
    {
      var length, kind := Read(mem, offset + 2, 2), Read(mem, offset, 2);
      if offset + length > end { return None; }
      if kind == PARTITION_TYPE {
        var next := DecodePartition(mem, offset, goal, me, devices);
        if next.None? { return None; }
        goal := next.value;
      } else if kind == INTERLEAVE_TYPE {
        var next := DecodeInterleave(mem, offset, end, goal, me, devices);
        if next.None? { return None; }
        goal := next.value;
      }
      offset := offset + length;
    }
    r := Some(goal);
  }

  method DecodePartition(mem: seq<Byte>, at: nat, g: ConfigGoal, me: Guid, devices: seq<Device>)
    returns (r: Option<ConfigGoal>)
    requires at + PARTITION_SIZE <= |mem|
    ensures r == ReadPartition(mem, at, g, me, devices)
  {
    var k := LookupGuid(devices, me);
    if k == |devices| { return None; }
    var goal := g.(memorySize := UsableCapacity(devices[k].capacity) / GB);
    var partition := Read(mem, at + 8, 8) % U64;
    if partition != 0 {
      goal := goal.(memorySize := Wrap(goal.memorySize - partition / GB));
    }
    r := Some(goal);
  }
}
