/** The platform configuration data of a DIMM and the handshake over it: the host writes goals with a fresh
    sequence number, the BIOS answers with the number it has processed. */
module ConfigHandshake {
  import opened Arithmetic
  import opened Bytes
  import opened ConfigGoals
  import opened ConfigTables
  import opened Options
  import opened Runs
  import opened Sequences
  import opened Words

  // ---------------------------------------------------------------------------------------------
  // Checksums

  function Sum(b: seq<Byte>): nat {
    if b == [] then 0 else b[0] + Sum(b[1..])
  }

  lemma {:induction false} SumConcat(a: seq<Byte>, b: seq<Byte>)
    ensures Sum(a + b) == Sum(a) + Sum(b)
  {
    if a == [] {
      assert a + b == b;
    } else {
      SumConcat(a[1..], b);
      assert (a + b)[1..] == a[1..] + b;
    }
  }

  lemma SumSplit(b: seq<Byte>, k: nat)
    requires k < |b|
    ensures Sum(b) == Sum(b[..k]) + b[k] + Sum(b[k + 1..])
  {
    SumConcat(b[..k], b[k..]);
    assert b == b[..k] + b[k..];
    assert b[k..][1..] == b[k + 1..];
  }

  /** Sum of the first i bytes but the one at the given place. */
  function SumBut(b: seq<Byte>, at: nat, i: nat): nat
    requires i <= |b|
  {
    if i == 0 then 0 else SumBut(b, at, i - 1) + if i - 1 == at then 0 else b[i - 1]
  }

  lemma {:induction false} SumButIs(b: seq<Byte>, at: nat, i: nat)
    requires i <= |b|
    ensures SumBut(b, at, i) == Sum(b[..i]) - if at < i then b[at] else 0
  {
    if i > 0 {
      SumButIs(b, at, i - 1);
      SumConcat(b[..i - 1], [b[i - 1]]);
      assert b[..i] == b[..i - 1] + [b[i - 1]];
      assert Sum([b[i - 1]]) == b[i - 1];
    }
  }

  /** The byte that makes the others sum to 0 modulo 256. */
  function Checksum(b: seq<Byte>, at: nat): Byte {
    (256 - SumBut(b, at, |b|) % 256) % 256
  }

  lemma Complement(n: nat)
    ensures (n + (256 - n % 256) % 256) % 256 == 0
  {
    var c := (256 - n % 256) % 256;
    DivModUnique(n + c, n / 256 + if n % 256 == 0 then 0 else 1, 0, 256);
  }

  /** A sealed table passes the check: it sums to 0 modulo 256. */
  lemma SealedSumsToZero(b: seq<Byte>, at: nat)
    requires at < |b|
    ensures Sum(b[at := Checksum(b, at)]) % 256 == 0
  {
    hide Sum, SumBut;
    var c := b[at := Checksum(b, at)];
    Complement(SumBut(b, at, |b|));
    SumSplit(b, at);
    SumSplit(c, at);
    SumButIs(b, at, |b|);
    assert b[..|b|] == b;
    assert c[..at] == b[..at] && c[at + 1..] == b[at + 1..];
  }

  /** Puts the checksum of the first length bytes at its place. */
  method GenerateChecksum(a: array<Byte>, length: nat, at: nat)
    requires at < length <= a.Length
    modifies a
    ensures a[..] == old(a[..])[at := Checksum(old(a[..length]), at)]
  {
    ghost var b := a[..length];
    var checksum: Byte := 0;
    for i := 0 to length
      invariant checksum == SumBut(b, at, i) % 256
    {
      if i != at {
        checksum := (checksum + a[i]) % 256;
      }
    }
    a[at] := (0xFF - checksum + 1) % 256;
  }

  // ---------------------------------------------------------------------------------------------
  // The three tables in their partition

  const PART_SIZE := 0x2_0000
  const DATA_SIZE := 60
  const CHECKSUM_AT := 9

  /** Room for the three tables, and for a decoder that looks at one more DIMM entry. */
  ghost predicate Fit(current: seq<Byte>, input: seq<Byte>, output: seq<Byte>) {
    DATA_SIZE + |current| + |input| + |output| + DIMM_INFO_SIZE <= PART_SIZE
  }

  /** Size and offset of a table; both 0 for an absent one. */
  function Entry(table: seq<Byte>, offset: nat): (b: seq<Byte>)
    ensures |b| == 8
  {
    LE(|table|, 4) + LE(if table == [] then 0 else offset, 4)
  }

  function DataHeader(current: seq<Byte>, input: seq<Byte>, output: seq<Byte>): (b: seq<Byte>)
    ensures |b| == DATA_SIZE
  {
    Ascii("DMHD") + LE(DATA_SIZE, 4) + LE(1, 1) + LE(0, 1) + Ascii("INTEL ") + Ascii("PURLEY  ") + LE(2, 4) +
    Ascii("INTL") + LE(0, 4) +
    (Entry(current, DATA_SIZE) +
     (Entry(input, DATA_SIZE + |current|) + Entry(output, DATA_SIZE + |current| + |input|)))
  }

  /** The partition's bytes: header with checksum, the tables one behind the other, zeros. */
  function Built(current: seq<Byte>, input: seq<Byte>, output: seq<Byte>): (b: seq<Byte>)
    requires Fit(current, input, output)
    ensures |b| == PART_SIZE
  {
    var header := DataHeader(current, input, output);
    header[CHECKSUM_AT := Checksum(header, CHECKSUM_AT)] +
    (current + (input + (output + Zeros(PART_SIZE - DATA_SIZE - |current| - |input| - |output|))))
  }

  /** The table named there lies inside the data. */
  predicate InBounds(data: seq<Byte>, at: nat)
    requires at + 8 <= |data|
  {
    Read(data, at + 4, 4) + Read(data, at, 4) <= |data|
  }

  /** The memory from a table on, as a pointer to it gives access to: [] when the entry's size is 0. */
  function From(data: seq<Byte>, at: nat): seq<Byte>
    requires at + 8 <= |data|
  {
    if Read(data, at, 4) > 0 && InBounds(data, at) then data[Read(data, at + 4, 4)..] else []
  }

  /** The table whose size and offset stand at the given place; [] when there is none. */
  function Cast(data: seq<Byte>, at: nat): seq<Byte>
    requires at + 8 <= |data|
  {
    if Read(data, at, 4) > 0 && InBounds(data, at)
    then data[Read(data, at + 4, 4)..Read(data, at + 4, 4) + Read(data, at, 4)] else []
  }

  /** The length a table gives itself ends inside the memory. */
  predicate OwnInBounds(mem: seq<Byte>) { mem == [] || (|mem| >= 8 && Read(mem, 4, 4) <= |mem|) }

  /** The bytes of a table by the length it gives itself. */
  function Own(mem: seq<Byte>): seq<Byte> {
    if mem != [] && OwnInBounds(mem) then mem[..Read(mem, 4, 4)] else []
  }

  function Current(data: seq<Byte>): seq<Byte> requires |data| == PART_SIZE { Cast(data, 36) }
  function Input(data: seq<Byte>): seq<Byte> requires |data| == PART_SIZE { Cast(data, 44) }
  function Output(data: seq<Byte>): seq<Byte> requires |data| == PART_SIZE { Cast(data, 52) }

  /** What a host write copies of the tables it keeps. */
  function OwnCurrent(data: seq<Byte>): seq<Byte> requires |data| == PART_SIZE { Own(From(data, 36)) }
  function OwnOutput(data: seq<Byte>): seq<Byte> requires |data| == PART_SIZE { Own(From(data, 52)) }

  lemma CastEntry(data: seq<Byte>, at: nat, table: seq<Byte>, offset: nat)
    requires Lies(data, at, Entry(table, offset)) && Lies(data, offset, table)
    requires |table| < 0x1_0000_0000 && offset < 0x1_0000_0000
    ensures at + 8 <= |data| && InBounds(data, at) && Cast(data, at) == table
    ensures From(data, at) == if table == [] then [] else data[offset..]
  {
    hide LE, Lies, Read;
    Pow256Values();
    var where := if table == [] then 0 else offset;
    LiesEnd(data, at, Entry(table, offset));
    LiesEnd(data, offset, table);
    LiesConcat(data, at, LE(|table|, 4), LE(where, 4));
    ReadField(data, at, |table|, 4);
    ReadField(data, at + 4, where, 4);
  }

  /** The three tables read back as they were put in, wherever the others put them. */
  lemma CastBuilt(current: seq<Byte>, input: seq<Byte>, output: seq<Byte>)
    requires Fit(current, input, output)
    ensures var data := Built(current, input, output);
      && InBounds(data, 36) && InBounds(data, 44) && InBounds(data, 52)
      && Current(data) == current && Input(data) == input && Output(data) == output
      && From(data, 36) == (if current == [] then [] else data[DATA_SIZE..])
      && From(data, 44) == (if input == [] then [] else data[DATA_SIZE + |current|..])
      && From(data, 52) == (if output == [] then [] else data[DATA_SIZE + |current| + |input|..])
    ensures Lies(Built(current, input, output), DATA_SIZE + |current|, input)
  {
    hide LE, Lies, Read, Entry, Zeros, Sum, Cast, From, InBounds, Built;
    var data := Built(current, input, output);
    BuiltLies(current, input, output);
    CastEntry(data, 36, current, DATA_SIZE);
    CastEntry(data, 44, input, DATA_SIZE + |current|);
    CastEntry(data, 52, output, DATA_SIZE + |current| + |input|);
  }

  /** Where the entries and the tables lie. */
  lemma BuiltLies(current: seq<Byte>, input: seq<Byte>, output: seq<Byte>)
    requires Fit(current, input, output)
    ensures var data := Built(current, input, output);
      && Lies(data, 36, Entry(current, DATA_SIZE)) && Lies(data, DATA_SIZE, current)
      && Lies(data, 44, Entry(input, DATA_SIZE + |current|)) && Lies(data, DATA_SIZE + |current|, input)
      && Lies(data, 52, Entry(output, DATA_SIZE + |current| + |input|)) && Lies(data, DATA_SIZE + |current| + |input|, output)
  {
    hide LE, Lies, Read, Entry, Ascii, Zeros, Sum;
    var data := Built(current, input, output);
    var entries := Entry(current, DATA_SIZE) +
                   (Entry(input, DATA_SIZE + |current|) + Entry(output, DATA_SIZE + |current| + |input|));
    var header := DataHeader(current, input, output);
    var sealed := header[CHECKSUM_AT := Checksum(header, CHECKSUM_AT)];
    assert header[36..] == entries;
    assert sealed == sealed[..36] + entries;
    var rest := output + Zeros(PART_SIZE - DATA_SIZE - |current| - |input| - |output|);
    WholeLies(data);
    LiesConcat(data, 0, sealed, current + (input + rest));
    LiesConcat(data, 0, sealed[..36], entries);
    LiesConcat(data, 36, Entry(current, DATA_SIZE), Entry(input, DATA_SIZE + |current|) + Entry(output, DATA_SIZE + |current| + |input|));
    LiesConcat(data, 44, Entry(input, DATA_SIZE + |current|), Entry(output, DATA_SIZE + |current| + |input|));
    LiesConcat(data, DATA_SIZE, current, input + rest);
    LiesConcat(data, DATA_SIZE + |current|, input, rest);
    LiesConcat(data, DATA_SIZE + |current| + |input|, output, Zeros(PART_SIZE - DATA_SIZE - |current| - |input| - |output|));
  }

  lemma WholeLies(data: seq<Byte>)
    ensures Lies(data, 0, data)
  {
    assert data[0..|data|] == data;
  }

  /** Builds the partition's bytes from the tables pointed to, each as long as it says of itself. */
  method BuildPlatformConfigData(current: seq<Byte>, input: seq<Byte>, output: seq<Byte>) returns (data: array<Byte>)
    requires OwnInBounds(current) && OwnInBounds(input) && OwnInBounds(output)
    requires Fit(Own(current), Own(input), Own(output))
    ensures fresh(data) && data[..] == Built(Own(current), Own(input), Own(output))
  {
    var currentSize := if current != [] then Read(current, 4, 4) else 0;
    var inputSize := if input != [] then Read(input, 4, 4) else 0;
    var outputSize := if output != [] then Read(output, 4, 4) else 0;
    data := PutTables(current[..currentSize], input[..inputSize], output[..outputSize]);
  }

  method PutTables(current: seq<Byte>, input: seq<Byte>, output: seq<Byte>) returns (data: array<Byte>)
    requires Fit(current, input, output)
    ensures fresh(data) && data[..] == Built(current, input, output)
  {
    hide DataHeader, Checksum;
    data := new Byte[PART_SIZE](_ => 0);
    ghost var header := DataHeader(current, input, output);
    var offset := Put(data, 0, DataHeader(current, input, output));
    offset := Put(data, offset, current);
    offset := Put(data, offset, input);
    offset := Put(data, offset, output);
    assert data[offset..] == Zeros(PART_SIZE - offset);
    assert data[..] == data[..offset] + data[offset..];
    assert data[..DATA_SIZE] == header;
    GenerateChecksum(data, DATA_SIZE, CHECKSUM_AT);
  }

  // ---------------------------------------------------------------------------------------------
  // What the reader accepts

  const CURRENT_SIZE := 56

  function CurrentSignature(): (b: seq<Byte>) ensures |b| == 4 { Ascii("CCUR") }
  function InputSignature(): (b: seq<Byte>) ensures |b| == 4 { Ascii("CIN_") }
  function OutputSignature(): (b: seq<Byte>) ensures |b| == 4 { Ascii("COUT") }
  function DataSignature(): (b: seq<Byte>) ensures |b| == 4 { Ascii("DMHD") }

  /** The reader's check of a table: absent, or long enough for its fixed part, summing to 0 over its own length,
      and signed. Its own length need not be the size in the partition's header. */
  predicate TableAccepted(mem: seq<Byte>, size: nat, least: nat, signature: seq<Byte>)
    requires |signature| == 4 <= least && size <= |mem|
  {
    size == 0 || (least <= size && OwnInBounds(mem) && Sum(Own(mem)) % 256 == 0 && mem[..4] == signature)
  }

  /** The header is long enough and signed, the tables lie in the partition and are accepted, and the input
      table's own length is its size. */
  predicate Accepted(data: seq<Byte>) {
    && |data| == PART_SIZE && DATA_SIZE <= Read(data, 4, 4) <= PART_SIZE && data[..4] == DataSignature()
    && InBounds(data, 36) && InBounds(data, 44) && InBounds(data, 52)
    && TableAccepted(From(data, 36), |Current(data)|, CURRENT_SIZE, CurrentSignature())
    && TableAccepted(From(data, 44), |Input(data)|, INPUT_SIZE, InputSignature())
    && TableAccepted(From(data, 52), |Output(data)|, INPUT_SIZE, OutputSignature())
    && |Own(From(data, 44))| == |Input(data)|
  }

  /** The current configuration or the output table calls itself shorter than its fixed part, but not empty. */
  predicate Truncates(data: seq<Byte>)
    requires |data| == PART_SIZE
  {
    0 < |OwnCurrent(data)| < CURRENT_SIZE || 0 < |OwnOutput(data)| < INPUT_SIZE
  }

  /** Both tables a host write copies give themselves the size in the partition's header. */
  predicate LengthsAgree(data: seq<Byte>)
    requires |data| == PART_SIZE
  {
    |OwnCurrent(data)| == |Current(data)| && |OwnOutput(data)| == |Output(data)|
  }

  /** A table that says its length, sums to 0 and is signed. */
  predicate Proper(table: seq<Byte>, least: nat, signature: seq<Byte>)
    requires |signature| == 4 && 8 <= least
  {
    table == [] || (least <= |table| && Read(table, 4, 4) == |table| && Sum(table) % 256 == 0 && table[..4] == signature)
  }

  /** The bytes an accepted table calls its own are a proper table unless they cut its fixed part. */
  lemma OwnIsProper(mem: seq<Byte>, size: nat, least: nat, signature: seq<Byte>)
    requires |signature| == 4 && 8 <= least && size <= |mem| && (size == 0 ==> mem == [])
    requires TableAccepted(mem, size, least, signature)
    ensures OwnInBounds(mem) && (Proper(Own(mem), least, signature) <==> Own(mem) == [] || least <= |Own(mem)|)
  {
    hide Sum;
    if mem != [] && least <= |Own(mem)| {
      assert Own(mem)[4..8] == mem[4..8];
      assert Own(mem)[..4] == mem[..4];
    }
  }

  /** A proper table in place is accepted, and the bytes it calls its own are the table. */
  lemma ProperIsAccepted(mem: seq<Byte>, table: seq<Byte>, least: nat, signature: seq<Byte>)
    requires |signature| == 4 && 8 <= least && |table| <= |mem| && mem[..|table|] == table && (table == [] ==> mem == [])
    requires Proper(table, least, signature)
    ensures TableAccepted(mem, |table|, least, signature) && OwnInBounds(mem) && Own(mem) == table
  {
    hide Sum;
    if table != [] {
      assert mem[4..8] == mem[..|table|][4..8] == table[4..8];
      assert mem[..4] == mem[..|table|][..4];
    }
  }

  // ---------------------------------------------------------------------------------------------
  // Sequence numbers and status

  const SEQUENCE_RANGE: nat := 0x1_0000_0000

  /** Sequence number of an input or output table. */
  function SequenceNumber(table: seq<Byte>): nat
    requires |table| >= 40
  {
    Read(table, 36, 4) % SEQUENCE_RANGE
  }

  /** An input or output table is absent or long enough to hold its fixed part. */
  predicate Headed(table: seq<Byte>) { table == [] || |table| >= INPUT_SIZE }

  function LastOutputSequenceNumber(output: seq<Byte>): nat
    requires Headed(output)
  {
    if output == [] then 0 else SequenceNumber(output)
  }

  function NextSequenceNumber(output: seq<Byte>): nat
    requires Headed(output)
  {
    (LastOutputSequenceNumber(output) + 1) % SEQUENCE_RANGE
  }

  datatype ConfigError = NotFound | BadRequest | BrokenInterleave | Firmware | InsufficientResources | UnknownError

  datatype GoalStatus =
    | StatusUnknown | StatusNew | StatusSuccess
    | ErrBadRequest | ErrFirmware | ErrInsufficientResources | ErrUnknown

  function StatusError(e: ConfigError): GoalStatus {
    match e
    case BadRequest => ErrBadRequest
    case BrokenInterleave => ErrBadRequest
    case Firmware => ErrFirmware
    case InsufficientResources => ErrInsufficientResources
    case UnknownError => ErrUnknown
    case NotFound => StatusUnknown
  }

  /** Validation status in an output table: 1 is success. */
  function ValidationStatus(output: seq<Byte>): nat
    requires |output| >= INPUT_SIZE
  {
    Read(output, 40, 1)
  }

  /** The status of a goal; error is what the output's extension tables tell about a failure. */
  function Status(input: seq<Byte>, output: seq<Byte>, error: ConfigError): GoalStatus
    requires Headed(input) && Headed(output)
  {
    if input == [] then StatusUnknown
    else if output == [] then StatusNew
    else if SequenceNumber(output) != SequenceNumber(input) then StatusNew
    else if ValidationStatus(output) == 1 then StatusSuccess
    else StatusError(error)
  }

  /** The diagnostic's own check. */
  predicate GoalIsUnapplied(input: seq<Byte>, output: seq<Byte>)
    requires Headed(input) && Headed(output)
  {
    input != [] && (output == [] || SequenceNumber(input) != SequenceNumber(output))
  }

  // ---------------------------------------------------------------------------------------------
  // Host writes

  /** A goal's input table with its checksum. */
  function SealedInput(devices: seq<Device>, g: ConfigGoal, capacity: Word64, sequenceNumber: nat): Option<seq<Byte>>
    requires Encodable(g)
  {
    var table := ConfigInput(devices, g, capacity, sequenceNumber);
    if table.None? then None else Some(table.value[CHECKSUM_AT := Checksum(table.value, CHECKSUM_AT)])
  }

  /** An accepted partition whose copied tables leave room for the largest input table there is. */
  ghost predicate Stored(data: seq<Byte>) {
    && Accepted(data) && |data| == PART_SIZE && Headed(Input(data)) && Headed(Output(data))
    && DATA_SIZE + |OwnCurrent(data)| + |OwnOutput(data)| + MAX_INPUT + DIMM_INFO_SIZE <= PART_SIZE
  }

  const MAX_INPUT := INPUT_SIZE + PARTITION_SIZE + 2 * (INTERLEAVE_SIZE + 24 * DIMM_INFO_SIZE)

  lemma {:induction false} InputFits(devices: seq<Device>, g: ConfigGoal, capacity: Word64, sequenceNumber: nat)
    requires Distinct(devices) && Encodable(g) && ConfigInput(devices, g, capacity, sequenceNumber).Some?
    ensures INPUT_SIZE <= |ConfigInput(devices, g, capacity, sequenceNumber).value| <= MAX_INPUT
  {
    hide InterleaveTables, InputHeader, PartitionTable;
    TablesSize(devices, g, capacity, 0);
  }

  /** The partition after a goal was written; None when the goal cannot be encoded. */
  function WithGoal(data: seq<Byte>, devices: seq<Device>, g: ConfigGoal, capacity: Word64): Option<seq<Byte>>
    requires Stored(data) && Distinct(devices) && Encodable(g)
  {
    var input := SealedInput(devices, g, capacity, NextSequenceNumber(Output(data)));
    if input.None? then None
    else
      InputFits(devices, g, capacity, NextSequenceNumber(Output(data)));
      Some(Built(OwnCurrent(data), input.value, OwnOutput(data)))
  }

  /** The partition after the goal was deleted. */
  function WithoutGoal(data: seq<Byte>): seq<Byte>
    requires Stored(data)
  {
    Built(OwnCurrent(data), [], OwnOutput(data))
  }

  /** Writes a goal, or with None deletes it; the partition stays as it was when encoding fails. */
  method UpdateConfigGoal(data: seq<Byte>, devices: seq<Device>, goal: Option<ConfigGoal>, capacity: Word64)
    returns (ok: bool, written: seq<Byte>)
    requires Stored(data) && Distinct(devices) && (goal.Some? ==> Encodable(goal.value))
    ensures goal.None? ==> ok && written == WithoutGoal(data)
    ensures goal.Some? ==> WithGoal(data, devices, goal.value, capacity) == if ok then Some(written) else None
    ensures !ok ==> written == data
  {
    hide ConfigInput, From, Own, Cast, Built, Sum;
    written := data;
    var input := [];
    if goal.Some? {
      var sequenceNumber := (LastOutputSequenceNumber(Output(data)) + 1) % SEQUENCE_RANGE;
      var table;
      ok, table := EncodeConfigInput(devices, goal.value, capacity, sequenceNumber);
      if !ok { return; }
      InputFits(devices, goal.value, capacity, sequenceNumber);
      assert table[..table.Length] == table[..];
      GenerateChecksum(table, table.Length, CHECKSUM_AT);
      input := table[..];
      SealedIsProper(devices, goal.value, capacity, sequenceNumber);
    }
    OwnOfProper(input, INPUT_SIZE, InputSignature());
    AcceptedOwn(data);
    var built := BuildPlatformConfigData(From(data, 36), input, From(data, 52));
    written := built[..];
    ok := true;
  }

  lemma AcceptedOwn(data: seq<Byte>)
    requires Accepted(data)
    ensures OwnInBounds(From(data, 36)) && OwnInBounds(From(data, 52))
  {
    hide Sum, InputSignature, CurrentSignature, OutputSignature, DataSignature, Read, Own;
  }

  lemma OwnOfProper(table: seq<Byte>, least: nat, signature: seq<Byte>)
    requires |signature| == 4 && 8 <= least && Proper(table, least, signature)
    ensures OwnInBounds(table) && Own(table) == table
  {
    ProperIsAccepted(table, table, least, signature);
  }

  /** A goal's input table with its checksum is proper and carries its number. */
  lemma SealedIsProper(devices: seq<Device>, g: ConfigGoal, capacity: Word64, sequenceNumber: nat)
    requires Distinct(devices) && Encodable(g) && sequenceNumber < SEQUENCE_RANGE
    requires SealedInput(devices, g, capacity, sequenceNumber).Some?
    ensures var sealed := SealedInput(devices, g, capacity, sequenceNumber).value;
      && INPUT_SIZE <= |sealed| <= MAX_INPUT && Proper(sealed, INPUT_SIZE, InputSignature())
      && SequenceNumber(sealed) == sequenceNumber
  {
    hide Cast, Sum, InputHeader, InterleaveTables, PartitionTable, Read, Lies, InputSignature, CurrentSignature, OutputSignature, DataSignature;
    InputFits(devices, g, capacity, sequenceNumber);
    var table := ConfigInput(devices, g, capacity, sequenceNumber).value;
    var sealed := SealedInput(devices, g, capacity, sequenceNumber).value;
    WholeLies(table);
    LiesConcat(table, 0, InputHeader(|table|, sequenceNumber), table[INPUT_SIZE..]);
    HeaderFields(table, |table|, sequenceNumber);
    SameField(table, sealed, 36, 4);
    SameField(table, sealed, 4, 4);
    HeaderIsSigned(|table|, sequenceNumber);
    assert sealed[..4] == table[..4] == InputHeader(|table|, sequenceNumber)[..4];
    SealedSumsToZero(table, CHECKSUM_AT);
  }

  lemma HeaderIsSigned(length: nat, sequenceNumber: nat)
    ensures InputHeader(length, sequenceNumber)[..4] == InputSignature()
  {
    hide Ascii, LE;
  }

  /** A host write from proper tables leaves a stored partition holding just them. */
  lemma BuiltIsStored(current: seq<Byte>, input: seq<Byte>, output: seq<Byte>)
    requires Proper(current, CURRENT_SIZE, CurrentSignature()) && Proper(input, INPUT_SIZE, InputSignature())
    requires Proper(output, INPUT_SIZE, OutputSignature()) && |input| <= MAX_INPUT
    requires DATA_SIZE + |current| + |output| + MAX_INPUT + DIMM_INFO_SIZE <= PART_SIZE
    ensures var data := Built(current, input, output); Stored(data) && LengthsAgree(data)
  {
    hide Cast, From, Built, Own, Read, Sum, InputSignature, CurrentSignature, OutputSignature, DataSignature, Checksum, TableAccepted;
    var data := Built(current, input, output);
    CastBuilt(current, input, output);
    HeaderAccepted(current, input, output);
    TablesLie(current, input, output);
    ProperIsAccepted(From(data, 36), current, CURRENT_SIZE, CurrentSignature());
    ProperIsAccepted(From(data, 44), input, INPUT_SIZE, InputSignature());
    ProperIsAccepted(From(data, 52), output, INPUT_SIZE, OutputSignature());
  }

  /** A table cut short in its fixed part makes the reader refuse the partition. */
  lemma CutIsRefused(current: seq<Byte>, input: seq<Byte>, output: seq<Byte>)
    requires Fit(current, input, output) && (0 < |current| < CURRENT_SIZE || 0 < |output| < INPUT_SIZE)
    ensures !Accepted(Built(current, input, output))
  {
    hide Cast, From, Built, Own, OwnCurrent, OwnOutput, Read, Sum, InputSignature, CurrentSignature, OutputSignature, DataSignature;
    CastBuilt(current, input, output);
  }

  lemma HeaderAccepted(current: seq<Byte>, input: seq<Byte>, output: seq<Byte>)
    requires Fit(current, input, output)
    ensures var data := Built(current, input, output); Read(data, 4, 4) == DATA_SIZE && data[..4] == DataSignature()
  {
    hide Ascii, LE, Entry, Checksum, Read;
    Pow256Values();
    var data, header := Built(current, input, output), DataHeader(current, input, output);
    assert data[..4] == header[..4];
    assert header[4..8] == LE(DATA_SIZE, 4);
    assert data[4..8] == header[4..8];
    ReadField(data, 4, DATA_SIZE, 4);
  }

  lemma TablesLie(current: seq<Byte>, input: seq<Byte>, output: seq<Byte>)
    requires Fit(current, input, output)
    ensures var data := Built(current, input, output);
      && data[DATA_SIZE..][..|current|] == current
      && data[DATA_SIZE + |current|..][..|input|] == input
      && data[DATA_SIZE + |current| + |input|..][..|output|] == output
  {
    hide DataHeader, Checksum;
    var data := Built(current, input, output);
    var rest := input + (output + Zeros(PART_SIZE - DATA_SIZE - |current| - |input| - |output|));
    assert data[DATA_SIZE..] == current + rest;
    assert data[DATA_SIZE + |current|..] == rest;
    assert data[DATA_SIZE + |current| + |input|..] == output + Zeros(PART_SIZE - DATA_SIZE - |current| - |input| - |output|);
  }

  /** What a host write copies is proper unless it cuts a fixed part. */
  lemma CopiedProper(data: seq<Byte>)
    requires Accepted(data)
    ensures !Truncates(data) <==> Proper(OwnCurrent(data), CURRENT_SIZE, CurrentSignature())
                                  && Proper(OwnOutput(data), INPUT_SIZE, OutputSignature())
  {
    hide Own, Read, Sum, InputSignature, CurrentSignature, OutputSignature, DataSignature;
    OwnIsProper(From(data, 36), |Current(data)|, CURRENT_SIZE, CurrentSignature());
    OwnIsProper(From(data, 52), |Output(data)|, INPUT_SIZE, OutputSignature());
  }

  /** A written goal carries the next number. The current configuration and the output table are then what they
      call their own, and the partition is accepted again exactly if neither cuts its fixed part. */
  lemma GoalWritten(data: seq<Byte>, devices: seq<Device>, g: ConfigGoal, capacity: Word64)
    requires Stored(data) && Distinct(devices) && Encodable(g) && WithGoal(data, devices, g, capacity).Some?
    ensures var after := WithGoal(data, devices, g, capacity).value;
      && |after| == PART_SIZE
      && Current(after) == OwnCurrent(data) && Output(after) == OwnOutput(data)
      && Some(Input(after)) == SealedInput(devices, g, capacity, NextSequenceNumber(Output(data)))
      && |Input(after)| >= INPUT_SIZE && SequenceNumber(Input(after)) == NextSequenceNumber(Output(data))
      && (Stored(after) <==> !Truncates(data)) && (Stored(after) ==> LengthsAgree(after))
  {
    hide Cast, From, Built, Own, OwnCurrent, OwnOutput, Read, Sum, InputSignature, CurrentSignature, OutputSignature, DataSignature, Accepted, Proper, SequenceNumber, SealedInput, LengthsAgree;
    var n := NextSequenceNumber(Output(data));
    SealedIsProper(devices, g, capacity, n);
    var sealed := SealedInput(devices, g, capacity, n).value;
    WriteStored(data, sealed);
  }

  lemma WriteStored(data: seq<Byte>, input: seq<Byte>)
    requires Stored(data) && Proper(input, INPUT_SIZE, InputSignature()) && |input| <= MAX_INPUT
    ensures Fit(OwnCurrent(data), input, OwnOutput(data))
    ensures var after := Built(OwnCurrent(data), input, OwnOutput(data));
      && (Stored(after) <==> !Truncates(data)) && (Stored(after) ==> LengthsAgree(after))
      && Current(after) == OwnCurrent(data) && Output(after) == OwnOutput(data) && Input(after) == input
  {
    hide Cast, From, Built, Own, OwnCurrent, OwnOutput, Read, Sum, InputSignature, CurrentSignature, OutputSignature, DataSignature, Proper, LengthsAgree;
    CopiedProper(data);
    CastBuilt(OwnCurrent(data), input, OwnOutput(data));
    if Truncates(data) {
      CutIsRefused(OwnCurrent(data), input, OwnOutput(data));
    } else {
      BuiltIsStored(OwnCurrent(data), input, OwnOutput(data));
    }
  }

  lemma SameField(a: seq<Byte>, b: seq<Byte>, at: nat, k: nat)
    requires |a| == |b| && at + k <= |a| && forall j | at <= j < at + k :: a[j] == b[j]
    ensures Read(a, at, k) == Read(b, at, k)
  {
    assert a[at..at + k] == b[at..at + k];
  }

  lemma GoalDeleted(data: seq<Byte>)
    requires Stored(data)
    ensures var after := WithoutGoal(data);
      && |after| == PART_SIZE && Current(after) == OwnCurrent(data) && Output(after) == OwnOutput(data) && Input(after) == []
      && (Stored(after) <==> !Truncates(data)) && (Stored(after) ==> LengthsAgree(after))
  {
    hide Cast, From, Built, Own, OwnCurrent, OwnOutput, Read, Sum, InputSignature, CurrentSignature, OutputSignature, DataSignature, Accepted, LengthsAgree;
    WriteStored(data, []);
  }

  // ---------------------------------------------------------------------------------------------
  // Runs

  /** What the BIOS may do at boot: the input stays, and if there is one the output carries its number. The
      current configuration, the verdict and an output without an input are up to the BIOS. */
  ghost predicate BiosMayLeave(before: seq<Byte>, after: seq<Byte>) {
    && |before| == PART_SIZE && Stored(after) && Input(after) == Input(before)
    && (Input(after) != [] ==> Output(after) != [] && SequenceNumber(Output(after)) == SequenceNumber(Input(after)))
  }

  datatype Step =
    | Create(devices: seq<Device>, goal: ConfigGoal, capacity: Word64)
    | Delete
    | Boot(after: seq<Byte>)

  /** The stored bytes, and whether a goal was written, and not deleted, since the last boot. */
  datatype World = World(data: seq<Byte>, pending: bool)

  /** The step writes to the partition: it is accepted, and there is a goal to write or to delete. */
  ghost predicate Writes(w: World, step: Step) {
    && Stored(w.data)
    && match step
       case Create(devices, goal, capacity) =>
         Distinct(devices) && Encodable(goal) && AcceptsSizes(goal, capacity)
         && WithGoal(w.data, devices, goal, capacity).Some?
       case Delete => Input(w.data) != []
       case Boot(_) => false
  }

  ghost function Next(w: World, step: Step): World {
    match step
    case Create(devices, goal, capacity) =>
      if Writes(w, step) then World(WithGoal(w.data, devices, goal, capacity).value, true) else w
    case Delete => if Writes(w, step) then World(WithoutGoal(w.data), false) else w
    case Boot(after) => if BiosMayLeave(w.data, after) then World(after, false) else w
  }

  /** The pending number is the output's, or its successor while a goal waits for the next boot. */
  ghost predicate Inv(w: World) {
    && Stored(w.data)
    && (w.pending ==> Input(w.data) != [] && SequenceNumber(Input(w.data)) == NextSequenceNumber(Output(w.data)))
    && (!w.pending && Input(w.data) != [] ==>
          Output(w.data) != [] && SequenceNumber(Input(w.data)) == SequenceNumber(Output(w.data)))
  }

  /** The ways a host write breaks the handshake: it cuts a table's fixed part, or writes a goal and drops an
      output table that calls itself empty and carries a number other than 0. */
  ghost predicate Breaks(w: World, step: Step) {
    && Writes(w, step)
    && (|| Truncates(w.data)
        || (step.Create? && Output(w.data) != [] && OwnOutput(w.data) == [] && SequenceNumber(Output(w.data)) != 0))
  }

  /** Creating, deleting and booting keep the handshake exactly if the step is not such a write. */
  lemma NextKeepsInv(w: World, step: Step)
    requires Inv(w)
    ensures Inv(Next(w, step)) <==> !Breaks(w, step)
  {
    if Writes(w, step) {
      if step.Create? {
        CreateKeepsInv(w, step);
      } else {
        DeleteKeepsInv(w, step);
      }
    } else {
      hide Cast, From, OwnOutput, Built, WithGoal, WithoutGoal, Distinct, AcceptsSizes, Accepted, SequenceNumber, Truncates;
    }
  }

  lemma CreateKeepsInv(w: World, step: Step)
    requires Inv(w) && Writes(w, step) && step.Create?
    ensures Inv(Next(w, step)) <==> !Breaks(w, step)
  {
    hide Cast, From, OwnOutput, Built, WithGoal, Distinct, AcceptsSizes, Accepted, SequenceNumber, LengthsAgree, Truncates;
    hide NextSequenceNumber;
    GoalWritten(w.data, step.devices, step.goal, step.capacity);
    if !Truncates(w.data) { NumberAfter(w.data); }
  }

  /** The next number stays the next number unless the output table is dropped and carried one. */
  lemma NumberAfter(data: seq<Byte>)
    requires Stored(data) && !Truncates(data)
    ensures Headed(OwnOutput(data))
    ensures NextSequenceNumber(OwnOutput(data)) == NextSequenceNumber(Output(data)) <==>
            !(Output(data) != [] && OwnOutput(data) == [] && SequenceNumber(Output(data)) != 0)
  {
    hide Cast, From, OwnCurrent, OwnOutput, Accepted, SequenceNumber;
    NumberStays(data);
    NumberOne(Output(data));
  }

  lemma DeleteKeepsInv(w: World, step: Step)
    requires Inv(w) && Writes(w, step) && step.Delete?
    ensures Inv(Next(w, step)) <==> !Breaks(w, step)
  {
    hide Cast, From, OwnOutput, OwnCurrent, Built, WithoutGoal, Accepted, SequenceNumber, LengthsAgree, Truncates;
    GoalDeleted(w.data);
  }

  lemma NumberOne(output: seq<Byte>)
    requires Headed(output)
    ensures NextSequenceNumber(output) == 1 <==> LastOutputSequenceNumber(output) == 0
  {
    hide Read;
  }

  /** An output table's own bytes carry its number, if there are enough. */
  lemma NumberStays(data: seq<Byte>)
    requires Accepted(data)
    ensures |OwnOutput(data)| >= INPUT_SIZE ==> SequenceNumber(OwnOutput(data)) == SequenceNumber(Output(data))
    ensures Output(data) == [] ==> OwnOutput(data) == []
  {
    hide Cast, From, Sum, InputSignature, CurrentSignature, OutputSignature, DataSignature, FromLE;
    var mem, output := From(data, 52), Output(data);
    CastIsFrom(data, 52);
    if |Own(mem)| >= INPUT_SIZE {
      assert Own(mem)[36..40] == mem[36..40];
      assert output[36..40] == mem[36..40];
    }
  }

  lemma CastIsFrom(data: seq<Byte>, at: nat)
    requires at + 8 <= |data|
    ensures |Cast(data, at)| <= |From(data, at)| && Cast(data, at) == From(data, at)[..|Cast(data, at)|]
    ensures Cast(data, at) == [] <==> From(data, at) == []
  {
    hide Read;
  }

  /** An output table of 48 bytes that calls itself empty and carries number 5. */
  function UnsizedOutput(): (b: seq<Byte>)
    ensures |b| == INPUT_SIZE
  {
    OutputSignature() + (LE(0, 4) + (Zeros(28) + (LE(5, 4) + Zeros(8))))
  }

  lemma UnsizedFields()
    ensures Read(UnsizedOutput(), 4, 4) == 0 && Read(UnsizedOutput(), 36, 4) == 5 && UnsizedOutput()[..4] == OutputSignature()
  {
    hide LE, Read, OutputSignature, Zeros;
    Pow256Values();
    var b := UnsizedOutput();
    WholeLies(b);
    LiesConcat(b, 0, OutputSignature(), LE(0, 4) + (Zeros(28) + (LE(5, 4) + Zeros(8))));
    LiesConcat(b, 4, LE(0, 4), Zeros(28) + (LE(5, 4) + Zeros(8)));
    LiesConcat(b, 8, Zeros(28), LE(5, 4) + Zeros(8));
    LiesConcat(b, 36, LE(5, 4), Zeros(8));
    ReadField(b, 4, 0, 4);
    ReadField(b, 36, 5, 4);
  }

  lemma UnsizedAccepted()
    ensures var data := Built([], [], UnsizedOutput());
      && Stored(data) && Input(data) == [] && Output(data) == UnsizedOutput()
      && OwnOutput(data) == [] && OwnCurrent(data) == []
  {
    hide Cast, From, Built, Read, UnsizedOutput, Checksum;
    hide CurrentSignature, InputSignature, OutputSignature, DataSignature;
    var output := UnsizedOutput();
    var data := Built([], [], output);
    CastBuilt([], [], output);
    HeaderAccepted([], [], output);
    TablesLie([], [], output);
    UnsizedFields();
    var mem := From(data, 52);
    assert mem[..INPUT_SIZE] == output;
    assert mem[4..8] == mem[..INPUT_SIZE][4..8];
    SameBytes(mem, output, 4, 4);
    assert mem[..4] == mem[..INPUT_SIZE][..4];
  }

  lemma SameBytes(a: seq<Byte>, b: seq<Byte>, at: nat, k: nat)
    requires at + k <= |a| && at + k <= |b| && a[at..at + k] == b[at..at + k]
    ensures Read(a, at, k) == Read(b, at, k)
  {
  }

  /** The reader accepts a partition with such an output table, and whatever goal is written to it, the output
      table is gone and the goal carries a number that is neither the output's nor its successor. */
  lemma UnsizedOutputBreaks(devices: seq<Device>, goal: ConfigGoal, capacity: Word64)
    requires Distinct(devices) && Encodable(goal) && AcceptsSizes(goal, capacity)
    requires SealedInput(devices, goal, capacity, 6).Some?
    ensures Inv(World(Built([], [], UnsizedOutput()), false))
    ensures var after := Next(World(Built([], [], UnsizedOutput()), false), Create(devices, goal, capacity));
      && after.pending && Stored(after.data) && Output(after.data) == []
      && Input(after.data) != [] && SequenceNumber(Input(after.data)) == 6
  {
    hide Cast, From, Own, OwnCurrent, OwnOutput, Built, Distinct, AcceptsSizes, Encodable, Accepted, LengthsAgree, Read, UnsizedOutput, SealedInput;
    var data := Built([], [], UnsizedOutput());
    var w, step := World(data, false), Create(devices, goal, capacity);
    UnsizedAccepted();
    UnsizedFields();
    assert NextSequenceNumber(Output(data)) == 6;
    GoalWritten(data, devices, goal, capacity);
    assert Writes(w, step);
  }

  ghost predicate Start(w: World) {
    Stored(w.data) && Input(w.data) == [] && !w.pending
  }

  ghost function Run(w: World, steps: seq<Step>): World {
    if steps == [] then w else Next(Run(w, steps[..|steps| - 1]), steps[|steps| - 1])
  }

  lemma RunOn(w: World, steps: seq<Step>, i: nat)
    requires i < |steps|
    ensures Run(w, steps[..i + 1]) == Next(Run(w, steps[..i]), steps[i])
  {
    assert steps[..i + 1][..i] == steps[..i];
  }

  /** Over all runs the handshake holds at every point exactly if no step breaks it. */
  lemma InvAlways(w: World, steps: seq<Step>)
    requires Inv(w)
    ensures (forall i: nat | i <= |steps| :: Inv(Run(w, steps[..i]))) <==>
            (forall i: nat | i < |steps| :: !Breaks(Run(w, steps[..i]), steps[i]))
  {
    hide Inv, Breaks, Next;
    forall i: nat | i < |steps| && Inv(Run(w, steps[..i]))
      ensures Inv(Run(w, steps[..i + 1])) <==> !Breaks(Run(w, steps[..i]), steps[i])
    {
      RunOn(w, steps, i);
      NextKeepsInv(Run(w, steps[..i]), steps[i]);
    }
    assert Run(w, steps[..0]) == w;
    var good := (i: nat) => i <= |steps| && Inv(Run(w, steps[..i]));
    var bad := (i: nat) => i < |steps| && Breaks(Run(w, steps[..i]), steps[i]);
    AllAlong(|steps|, good, bad);
    forall i: nat | i <= |steps| ensures good(i) <==> Inv(Run(w, steps[..i])) {}
    forall i: nat | i < |steps| ensures bad(i) <==> Breaks(Run(w, steps[..i]), steps[i]) {}
  }

  ghost predicate StatusIsNew(data: seq<Byte>, error: ConfigError) {
    Stored(data) && Status(Input(data), Output(data), error) == StatusNew
  }

  /** What the handshake is for. */
  ghost predicate NewExactlyPending(w: World, error: ConfigError) {
    && Stored(w.data)
    && (StatusIsNew(w.data, error) <==> w.pending)
    && (GoalIsUnapplied(Input(w.data), Output(w.data)) <==> w.pending)
    && (Input(w.data) != [] ==>
          || SequenceNumber(Input(w.data)) == LastOutputSequenceNumber(Output(w.data))
          || SequenceNumber(Input(w.data)) == NextSequenceNumber(Output(w.data)))
  }

  /** Over all runs of creating, re-creating, deleting and booting from a DIMM without a goal in which no step
      breaks the handshake: the status is NEW exactly when a goal was written since the last boot, the
      diagnostic's check says the same, and the pending number is the output's or its successor. */
  lemma NewExactlySinceBoot(w: World, steps: seq<Step>, error: ConfigError)
    requires Start(w) && forall i: nat | i < |steps| :: !Breaks(Run(w, steps[..i]), steps[i])
    ensures NewExactlyPending(Run(w, steps), error)
  {
    hide Cast, Run, Read, Accepted, Breaks, NewExactlyPending;
    InvAlways(w, steps);
    assert steps[..|steps|] == steps;
    InvMeans(Run(w, steps), error);
  }

  lemma InvMeans(w: World, error: ConfigError)
    requires Inv(w)
    ensures NewExactlyPending(w, error)
  {
    hide Cast, Read, Accepted, OwnCurrent, OwnOutput;
  }

  /** So it is whenever the lengths agree in the partitions the DIMM starts with and the BIOS leaves. */
  lemma {:induction false} NewWhenLengthsAgree(w: World, steps: seq<Step>, error: ConfigError)
    requires Start(w) && LengthsAgree(w.data)
    requires forall step | step in steps && step.Boot? && Accepted(step.after) :: LengthsAgree(step.after)
    ensures NewExactlyPending(Run(w, steps), error)
    ensures Inv(Run(w, steps)) && LengthsAgree(Run(w, steps).data)
  {
    hide Cast, From, Own, Read, Accepted, Next, LengthsAgree;
    if steps != [] {
      var before, step := steps[..|steps| - 1], steps[|steps| - 1];
      NewWhenLengthsAgree(w, before, error);
      assert step in steps;
      AgreementStays(Run(w, before), step);
    }
  }

  lemma AgreementStays(w: World, step: Step)
    requires Inv(w) && LengthsAgree(w.data) && (step.Boot? && Accepted(step.after) ==> LengthsAgree(step.after))
    ensures Inv(Next(w, step)) && LengthsAgree(Next(w, step).data)
  {
    hide Cast, From, Own, OwnCurrent, OwnOutput, Built, WithGoal, WithoutGoal, Distinct, AcceptsSizes, SequenceNumber;
    assert !Breaks(w, step);
    NextKeepsInv(w, step);
    if Writes(w, step) {
      if step.Create? {
        GoalWritten(w.data, step.devices, step.goal, step.capacity);
      } else {
        GoalDeleted(w.data);
      }
    }
  }

  /** The two checks agree on any tables whatever. */
  lemma ChecksAgree(input: seq<Byte>, output: seq<Byte>, error: ConfigError)
    requires Headed(input) && Headed(output)
    ensures Status(input, output, error) == StatusNew <==> GoalIsUnapplied(input, output)
  {
  }

  /** A host write leaves the current configuration and the output table as they were exactly if both give
      themselves the size in the partition's header; the next write then always does. */
  lemma HostWritesKeep(w: World, step: Step)
    requires Writes(w, step)
    ensures var after := Next(w, step).data;
      && |after| == PART_SIZE
      && (Current(after) == Current(w.data) && Output(after) == Output(w.data) <==> LengthsAgree(w.data))
      && (Stored(after) ==> LengthsAgree(after))
  {
    hide Cast, From, Own, OwnCurrent, OwnOutput, Built, WithGoal, WithoutGoal, Distinct, AcceptsSizes, SequenceNumber;
    if step.Create? {
      GoalWritten(w.data, step.devices, step.goal, step.capacity);
    } else {
      GoalDeleted(w.data);
    }
    OwnOrSize(w.data);
  }

  /** A table and the bytes it calls its own start alike: they are the same exactly if they are as long. */
  lemma OwnOrSize(data: seq<Byte>)
    requires Accepted(data)
    ensures OwnCurrent(data) == Current(data) <==> |OwnCurrent(data)| == |Current(data)|
    ensures OwnOutput(data) == Output(data) <==> |OwnOutput(data)| == |Output(data)|
  {
    hide Cast, From, Sum, InputSignature, CurrentSignature, OutputSignature, DataSignature, Read;
    CastIsFrom(data, 36);
    CastIsFrom(data, 52);
  }

  /** The input table at the offset reads back as the goal. */
  ghost predicate ReadsBackAs(data: seq<Byte>, offset: nat, g: ConfigGoal, me: Guid, devices: seq<Device>) {
    && offset + 8 <= |data| && offset + Read(data, offset + 4, 4) + DIMM_INFO_SIZE <= |data|
    && var mem, end := data[offset..], Read(data, offset + 4, 4);
    && Walkable(mem, INPUT_SIZE, end) && ReadTables(mem, INPUT_SIZE, end, ZERO_GOAL, me, devices) == Some(g)
  }

  /** A goal that was just written reads back as it was given exactly if its sizes fit a word in bytes, and with
      status NEW. */
  lemma CreatedGoalReadsBack(data: seq<Byte>, g: ConfigGoal, devices: seq<Device>, k: nat, error: ConfigError)
    requires Stored(data) && Recoverable(g, devices, k)
    ensures WithGoal(data, devices, g, devices[k].capacity).Some?
    ensures var after := WithGoal(data, devices, g, devices[k].capacity).value;
      var offset := DATA_SIZE + |OwnCurrent(data)|;
      && Lies(after, offset, Input(after)) && Read(after, offset + 4, 4) == |Input(after)|
      && (ReadsBackAs(after, offset, Recovered(g), devices[k].guid, devices) <==> SizesFit(g))
      && (!Truncates(data) ==> StatusIsNew(after, error))
  {
    hide Cast, From, Own, OwnCurrent, OwnOutput, Built, Sum, Read, Lies, ReadTables, Walkable, Recoverable;
    hide Accepted, Truncates, LengthsAgree, SealedInput, StatusIsNew, ReadsBackAs, Distinct, Encodable, DataHeader, SequenceNumber;
    var n := NextSequenceNumber(Output(data));
    RecoverableSeals(g, devices, k, n);
    var capacity := devices[k].capacity;
    GoalWritten(data, devices, g, capacity);
    if !Truncates(data) { NewAfterWrite(data, devices, g, capacity, error); }
    var sealed := SealedInput(devices, g, capacity, n).value;
    CastBuilt(OwnCurrent(data), sealed, OwnOutput(data));
    SealedReadsBack(g, devices, k, n, WithGoal(data, devices, g, capacity).value, DATA_SIZE + |OwnCurrent(data)|);
  }

  lemma RecoverableSeals(g: ConfigGoal, devices: seq<Device>, k: nat, sequenceNumber: nat)
    requires Recoverable(g, devices, k)
    ensures Distinct(devices) && Encodable(g) && k < |devices|
    ensures SealedInput(devices, g, devices[k].capacity, sequenceNumber).Some?
    ensures |SealedInput(devices, g, devices[k].capacity, sequenceNumber).value| <= MAX_INPUT
  {
    hide InterleaveTables, PartitionTable, InputHeader, Distinct, Encodable, Checksum, AcceptsSizes;
    InputFits(devices, g, devices[k].capacity, sequenceNumber);
  }

  /** A sealed input table reads back as its goal, wherever it lies, exactly if the sizes fit a word in bytes. */
  lemma SealedReadsBack(g: ConfigGoal, devices: seq<Device>, k: nat, n: nat, data: seq<Byte>, offset: nat)
    requires Recoverable(g, devices, k) && Encodable(g) && n < SEQUENCE_RANGE
    requires SealedInput(devices, g, devices[k].capacity, n).Some?
    requires var sealed := SealedInput(devices, g, devices[k].capacity, n).value;
      Lies(data, offset, sealed) && offset + |sealed| + DIMM_INFO_SIZE <= |data|
    ensures offset + 8 <= |data| && Read(data, offset + 4, 4) == |SealedInput(devices, g, devices[k].capacity, n).value|
    ensures ReadsBackAs(data, offset, Recovered(g), devices[k].guid, devices) <==> SizesFit(g)
  {
    hide Sum, InputHeader, InterleaveTables, PartitionTable, Read, Lies, ReadTables, Walkable, AcceptsSizes, Checksum;
    hide Distinct, Encodable;
    var capacity := devices[k].capacity;
    InputFits(devices, g, capacity, n);
    var table := ConfigInput(devices, g, capacity, n).value;
    var sealed := SealedInput(devices, g, capacity, n).value;
    var mem := data[offset..];
    LiesFrom(data, offset, sealed);
    assert sealed == sealed[..INPUT_SIZE] + sealed[INPUT_SIZE..];
    LiesConcat(mem, 0, sealed[..INPUT_SIZE], sealed[INPUT_SIZE..]);
    assert sealed[INPUT_SIZE..] == table[INPUT_SIZE..];
    GoalRoundTrip(g, devices, k, n, mem);
    LengthOf(table, sealed, n, data, offset);
  }

  lemma TruncatesNot(data: seq<Byte>)
    requires Stored(data) && !Truncates(data)
    ensures OwnOutput(data) == [] || |OwnOutput(data)| >= INPUT_SIZE
  {
    hide Cast, From, OwnCurrent, OwnOutput, Accepted;
  }

  lemma NewAfterWrite(data: seq<Byte>, devices: seq<Device>, g: ConfigGoal, capacity: Word64, error: ConfigError)
    requires Stored(data) && Distinct(devices) && Encodable(g) && WithGoal(data, devices, g, capacity).Some?
    requires !Truncates(data)
    ensures StatusIsNew(WithGoal(data, devices, g, capacity).value, error)
  {
    hide Cast, From, Own, OwnCurrent, OwnOutput, Built, WithGoal, Distinct, Encodable, Accepted, SequenceNumber, LengthsAgree, Truncates;
    TruncatesNot(data);
    GoalWritten(data, devices, g, capacity);
    NumberStays(data);
  }

  lemma LiesFrom(data: seq<Byte>, offset: nat, b: seq<Byte>)
    requires Lies(data, offset, b)
    ensures offset <= |data| && Lies(data[offset..], 0, b)
  {
    assert data[offset..][0..|b|] == data[offset..offset + |b|];
  }

  lemma LengthOf(table: seq<Byte>, sealed: seq<Byte>, sequenceNumber: nat, data: seq<Byte>, offset: nat)
    requires INPUT_SIZE <= |table| == |sealed| < 0x1_0000_0000 && sequenceNumber < 0x1_0000_0000
    requires table == InputHeader(|table|, sequenceNumber) + table[INPUT_SIZE..]
    requires forall j | 0 <= j < |table| && j != CHECKSUM_AT :: sealed[j] == table[j]
    requires Lies(data, offset, sealed)
    ensures offset + 8 <= |data| && Read(data, offset + 4, 4) == |table|
  {
    hide InputHeader, LE;
    WholeLies(table);
    LiesConcat(table, 0, InputHeader(|table|, sequenceNumber), table[INPUT_SIZE..]);
    HeaderFields(table, |table|, sequenceNumber);
    SameField(table, sealed, 4, 4);
    LiesEnd(data, offset, sealed);
    SliceOfSlice(data, offset, offset + |sealed|, 4, 8);
  }
}
