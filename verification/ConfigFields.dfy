/** The fields of the stored tables, place by place: the interleave format word, the identity in a DIMM entry and
    the header all tables begin with. */
module ConfigFields {
  import opened Bytes
  import opened ConfigGoals
  import opened ConfigHandshake
  import opened ConfigTables
  import opened Options
  import opened Words

  // ---------------------------------------------------------------------------------------------
  // The format word

  function SizeBytes(s: InterleaveSize): nat {
    match s
    case Size64B => 64
    case Size128B => 128
    case Size256B => 256
    case Size4KB => 4096
    case Size1GB => GB
  }

  /** The numbers of DIMMs a set can be interleaved over. */
  const SUPPORTED: seq<nat> := [1, 2, 3, 4, 6, 8, 12, 16, 24]

  function Pow2(k: nat): nat { if k == 0 then 1 else 2 * Pow2(k - 1) }

  /** Sizes are coded as their multiple of 64 bytes, up to 128: the largest has the last bit. */
  lemma SizeCode(s: InterleaveSize)
    ensures SizeBits(s) == if SizeBytes(s) / 64 < 128 then SizeBytes(s) / 64 else 128
  {
  }

  /** The k-th number of DIMMs is coded as bit k, and none as nothing. */
  lemma WaysCode(w: InterleaveWays, k: nat)
    requires k < |SUPPORTED| && Ways(w) == SUPPORTED[k]
    ensures WaysBits(w) == Pow2(k)
  {
    assert Pow2(2) == 4 && Pow2(3) == 8;
    assert Pow2(4) == 16 && Pow2(5) == 32;
    assert Pow2(6) == 64 && Pow2(7) == 128;
  }

  /** The format word: channel size in bits 7:0, controller size in 15:8, ways in 24:16, recommended in 31, and
      zero between. */
  lemma FormatWordIs(f: InterleaveFormat)
    ensures var w := FormatWord(f);
      && w % 0x100 == SizeBits(f.channel) && w / 0x100 % 0x100 == SizeBits(f.imc)
      && w / 0x1_0000 % 0x8000 == WaysBits(f.ways) && w / 0x8000_0000 == (if f.recommended then 1 else 0)
  {
    WordFields(SizeBits(f.channel), SizeBits(f.imc), WaysBits(f.ways), if f.recommended then 1 else 0);
  }

  lemma WordFields(c: nat, i: nat, w: nat, r: nat)
    requires c < 0x100 && i < 0x100 && w < 0x200 && r < 2
    ensures var word := c + i * 0x100 + w * 0x1_0000 + r * 0x8000_0000;
      && word % 0x100 == c && word / 0x100 % 0x100 == i && word / 0x1_0000 % 0x8000 == w && word / 0x8000_0000 == r
  {
  }

  /** A word that names a channel size, a controller size and a number of ways or none, and nothing else. */
  predicate ProperWord(word: nat) {
    && word % 0x100 in {1, 2, 4, 64, 128} && word / 0x100 % 0x100 in {1, 2, 4, 64, 128}
    && word / 0x1_0000 % 0x8000 in {0, 1, 2, 4, 8, 16, 32, 64, 128, 256}
  }

  /** A word read into a format and written again is the same exactly if it is proper. */
  lemma WordComesBack(word: Word32, before: InterleaveFormat)
    ensures FormatWord(WordFormat(word, before)) == word <==> ProperWord(word)
  {
    hide FormatWord, WordFormat;
    var f := WordFormat(word, before);
    FormatWordIs(f);
    ReadFields(word, before);
    WordIsSum(word);
    WordIsSum(FormatWord(f));
  }

  /** What reading a word gives, coded again: each part is there if it names something. */
  lemma ReadFields(word: Word32, before: InterleaveFormat)
    ensures var f, ways := WordFormat(word, before), word / 0x1_0000 % 0x8000;
      && (SizeBits(f.channel) == word % 0x100 <==> word % 0x100 in {1, 2, 4, 64, 128})
      && (SizeBits(f.imc) == word / 0x100 % 0x100 <==> word / 0x100 % 0x100 in {1, 2, 4, 64, 128})
      && (WaysBits(f.ways) == ways <==> ways in {0, 1, 2, 4, 8, 16, 32, 64, 128, 256})
      && (if f.recommended then 1 else 0) == word / 0x8000_0000
  {
    var ways := word / 0x1_0000 % 0x8000;
    assert ways < 0x200 ==> word / 0x1_0000 % 0x200 == ways;
  }

  lemma WordIsSum(word: Word32)
    ensures word == word % 0x100 + word / 0x100 % 0x100 * 0x100 + word / 0x1_0000 % 0x8000 * 0x1_0000 + word / 0x8000_0000 * 0x8000_0000
  {
    DivDiv(word, 0x100, 0x100);
    DivDiv(word, 0x1_0000, 0x8000);
    Split(word, 0x100);
    Split(word / 0x100, 0x100);
    Split(word / 0x1_0000, 0x8000);
  }

  lemma Split(n: nat, d: nat)
    requires d > 0
    ensures n == n % d + n / d * d
  {
  }

  // ---------------------------------------------------------------------------------------------
  // The identity in a DIMM entry

  /** A DIMM entry begins with manufacturer, serial number and model, then six bytes of nothing. */
  lemma EntryBegins(mem: seq<Byte>, at: nat, d: Device, r: Range)
    requires ValidDevice(d) && Lies(mem, at, DimmInfo(d, r))
    ensures at + DIMM_INFO_SIZE <= |mem|
    ensures mem[at..at + 2] == d.manufacturer && mem[at + 2..at + 6] == d.serial && mem[at + 6..at + 26] == d.model
    ensures forall k | at + 26 <= k < at + 32 :: mem[k] == 0
  {
    hide LE, Read, Lies;
    var ranges := LE(r.offset, 8) + LE(r.size, 8);
    var rest := Zeros(6) + ranges;
    LiesEnd(mem, at, DimmInfo(d, r));
    LiesConcat(mem, at, d.manufacturer, d.serial + (d.model + rest));
    LiesConcat(mem, at + 2, d.serial, d.model + rest);
    LiesConcat(mem, at + 6, d.model, rest);
    LiesConcat(mem, at + 26, Zeros(6), ranges);
    LiesEnd(mem, at, d.manufacturer);
    LiesEnd(mem, at + 2, d.serial);
    LiesEnd(mem, at + 6, d.model);
    LiesEnd(mem, at + 26, Zeros(6));
    forall k | at + 26 <= k < at + 32 ensures mem[k] == 0 {
      assert mem[at + 26..at + 32][k - at - 26] == mem[k];
    }
  }

  // ---------------------------------------------------------------------------------------------
  // The header of the stored tables

  const DATA_HEADER := 36
  const INTEL: seq<Byte> := [0x49, 0x4E, 0x54, 0x45, 0x4C, 0x20]
  const PURLEY: seq<Byte> := [0x50, 0x55, 0x52, 0x4C, 0x45, 0x59, 0x20, 0x20]
  const INTL: seq<Byte> := [0x49, 0x4E, 0x54, 0x4C]

  lemma {:induction false} AsciiAt(s: string)
    requires forall k | 0 <= k < |s| :: s[k] as int < 256
    ensures forall k | 0 <= k < |s| :: Ascii(s)[k] == s[k] as int
  {
    if s != "" { AsciiAt(s[1..]); }
  }

  /** The texts in the header, in ASCII codes. */
  lemma TextsAre()
    ensures Ascii("INTEL ") == INTEL && Ascii("PURLEY  ") == PURLEY && Ascii("INTL") == INTL
  {
    hide Ascii;
    AsciiAt("INTEL ");
    AsciiAt("PURLEY  ");
    AsciiAt("INTL");
  }

  /** The four signatures. */
  lemma SignaturesAre()
    ensures DataSignature() == [0x44, 0x4D, 0x48, 0x44] && CurrentSignature() == [0x43, 0x43, 0x55, 0x52]
    ensures InputSignature() == [0x43, 0x49, 0x4E, 0x5F] && OutputSignature() == [0x43, 0x4F, 0x55, 0x54]
  {
    hide Ascii;
    AsciiAt("DMHD");
    AsciiAt("CCUR");
    AsciiAt("CIN_");
    AsciiAt("COUT");
  }

  /** The header all tables begin with, but its checksum in byte 9: signature, length, revision, OEM, OEM table, its
      revision, creator, its revision. */
  ghost predicate HeaderAt(mem: seq<Byte>, signature: seq<Byte>, length: nat) {
    && DATA_HEADER <= |mem| && mem[0..4] == signature && Read(mem, 4, 4) == length
    && Read(mem, 8, 1) == 1 && mem[10..16] == INTEL && mem[16..24] == PURLEY
    && Read(mem, 24, 4) == 2 && mem[28..32] == INTL && Read(mem, 32, 4) == 0
  }

  /** Its bytes, as both tables the host writes spell it. */
  function HeaderBytes(signature: seq<Byte>, length: nat, checksum: Byte): (b: seq<Byte>)
    requires |signature| == 4
    ensures |b| == DATA_HEADER
  {
    signature + (LE(length, 4) + (LE(1, 1) + ([checksum] + (INTEL + (PURLEY +
    (LE(2, 4) + (INTL + LE(0, 4))))))))
  }

  lemma HeaderReads(mem: seq<Byte>, signature: seq<Byte>, length: nat, checksum: Byte)
    requires |signature| == 4 && length < 0x1_0000_0000 && Lies(mem, 0, HeaderBytes(signature, length, checksum))
    ensures HeaderAt(mem, signature, length)
  {
    hide LE, Read, Lies, Ascii;
    Pow256Values();
    var rest7 := INTL + LE(0, 4);
    var rest6 := LE(2, 4) + rest7;
    var rest5 := PURLEY + rest6;
    var rest4 := INTEL + rest5;
    var rest3 := [checksum] + rest4;
    var rest2 := LE(1, 1) + rest3;
    LiesEnd(mem, 0, HeaderBytes(signature, length, checksum));
    LiesConcat(mem, 0, signature, LE(length, 4) + rest2);
    LiesConcat(mem, 4, LE(length, 4), rest2);
    LiesConcat(mem, 8, LE(1, 1), rest3);
    LiesConcat(mem, 9, [checksum], rest4);
    LiesConcat(mem, 10, INTEL, rest5);
    LiesConcat(mem, 16, PURLEY, rest6);
    LiesConcat(mem, 24, LE(2, 4), rest7);
    LiesConcat(mem, 28, INTL, LE(0, 4));
    LiesEnd(mem, 0, signature);
    LiesEnd(mem, 10, INTEL);
    LiesEnd(mem, 16, PURLEY);
    LiesEnd(mem, 28, INTL);
    ReadField(mem, 4, length, 4);
    ReadField(mem, 8, 1, 1);
    ReadField(mem, 24, 2, 4);
    ReadField(mem, 32, 0, 4);
  }

  /** Replacing the checksum of a header spells the header with that checksum. */
  lemma Sealed(b: seq<Byte>, signature: seq<Byte>, length: nat, c: Byte)
    requires |signature| == 4 && DATA_HEADER <= |b| && b[..DATA_HEADER] == HeaderBytes(signature, length, 0)
    ensures Lies(b[CHECKSUM_AT := c], 0, HeaderBytes(signature, length, c))
  {
    hide LE, Ascii;
    assert b[CHECKSUM_AT := c][0..DATA_HEADER] == b[..DATA_HEADER][CHECKSUM_AT := c];
    assert HeaderBytes(signature, length, 0)[CHECKSUM_AT := c] == HeaderBytes(signature, length, c);
  }

  /** The partition a host write builds begins with the header, which sums to 0. */
  lemma BuiltHeader(current: seq<Byte>, input: seq<Byte>, output: seq<Byte>)
    requires Fit(current, input, output)
    ensures HeaderAt(Built(current, input, output), DataSignature(), DATA_SIZE)
    ensures Sum(Built(current, input, output)[..DATA_SIZE]) % 256 == 0
  {
    hide LE, Ascii, Entry, Checksum, Sum, Lies;
    var header := DataHeader(current, input, output);
    var c := Checksum(header, CHECKSUM_AT);
    DataHeaderBegins(current, input, output);
    Sealed(header, DataSignature(), DATA_SIZE, c);
    HeaderReads(header[CHECKSUM_AT := c], DataSignature(), DATA_SIZE, c);
    SealedSumsToZero(header, CHECKSUM_AT);
    var data := Built(current, input, output);
    assert data[..DATA_SIZE] == header[CHECKSUM_AT := c];
    HeaderStays(data, header[CHECKSUM_AT := c], DataSignature(), DATA_SIZE);
  }

  lemma DataHeaderBegins(current: seq<Byte>, input: seq<Byte>, output: seq<Byte>)
    ensures DataHeader(current, input, output)[..DATA_HEADER] == HeaderBytes(DataSignature(), DATA_SIZE, 0)
  {
    hide Ascii, Entry;
    TextsAre();
    assert LE(0, 1) == [0];
  }

  lemma HeaderStays(mem: seq<Byte>, table: seq<Byte>, signature: seq<Byte>, length: nat)
    requires |table| <= |mem| && mem[..|table|] == table && HeaderAt(table, signature, length)
    ensures HeaderAt(mem, signature, length)
  {
    hide Ascii;
    assert forall k | 0 <= k < |table| :: mem[k] == mem[..|table|][k];
    assert forall i, j | 0 <= i <= j <= |table| :: mem[i..j] == table[i..j];
  }

  /** A goal's input table begins with the header, sums to 0, and carries the number after the output's, or 1 when
      there is no output. */
  lemma GoalHeader(data: seq<Byte>, devices: seq<Device>, g: ConfigGoal, capacity: Word64, after: seq<Byte>)
    requires Stored(data) && Distinct(devices) && Encodable(g) && WithGoal(data, devices, g, capacity) == Some(after)
    ensures |after| == PART_SIZE && INPUT_SIZE <= |Input(after)|
    ensures HeaderAt(Input(after), InputSignature(), |Input(after)|) && Sum(Input(after)) % 256 == 0
    ensures var output := Output(data);
      Read(Input(after), 36, 4) == if |output| < 40 then 1 else (Read(output, 36, 4) + 1) % 0x1_0000_0000
  {
    hide LE, Ascii, Built, Cast, Accepted, ConfigInput, Sum, Lies, SequenceNumber, Read, HeaderAt, HeaderBytes, InputSignature;
    GoalWritten(data, devices, g, capacity);
    var number, input := NextSequenceNumber(Output(data)), Input(after);
    SealedIsProper(devices, g, capacity, number);
    InputHeaderBegins(devices, g, capacity, number);
    InputFits(devices, g, capacity, number);
    var table := ConfigInput(devices, g, capacity, number).value;
    var c := Checksum(table, CHECKSUM_AT);
    Sealed(table, InputSignature(), |table|, c);
    HeaderReads(input, InputSignature(), |table|, c);
    NumberIs(input);
    if Output(data) != [] { NumberIs(Output(data)); }
  }

  lemma InputHeaderBegins(devices: seq<Device>, g: ConfigGoal, capacity: Word64, number: nat)
    requires Encodable(g) && ConfigInput(devices, g, capacity, number).Some?
    ensures var table := ConfigInput(devices, g, capacity, number).value;
      DATA_HEADER <= |table| && table[..DATA_HEADER] == HeaderBytes(InputSignature(), |table|, 0)
  {
    hide Ascii, InterleaveTables, PartitionTable;
    TextsAre();
    assert LE(0, 1) == [0];
    var table := ConfigInput(devices, g, capacity, number).value;
    assert table[..DATA_HEADER] == InputHeader(|table|, number)[..DATA_HEADER];
    assert InputHeader(|table|, number)[..DATA_HEADER] == HeaderBytes(InputSignature(), |table|, 0);
  }

  lemma NumberIs(table: seq<Byte>)
    requires |table| >= 40
    ensures SequenceNumber(table) == Read(table, 36, 4)
  {
    ReadBound(table[36..40]);
    Pow256Values();
  }

  // ---------------------------------------------------------------------------------------------
  // Damage

  /** A table with one byte changed, other than in its length, is refused. */
  lemma ChangedTable(mem: seq<Byte>, size: nat, least: nat, signature: seq<Byte>, i: nat, b: Byte)
    requires |signature| == 4 && 8 <= least && 0 < size <= |mem| && OwnInBounds(mem) && Sum(Own(mem)) % 256 == 0
    requires i < |Own(mem)| && !(4 <= i < 8) && b != mem[i]
    ensures !TableAccepted(mem[i := b], size, least, signature)
  {
    hide Sum;
    var changed, own := mem[i := b], Own(mem);
    assert changed[4..8] == mem[4..8];
    assert Own(changed) == own[i := b];
    SumSplit(own, i);
    SumSplit(own[i := b], i);
    assert own[i := b][..i] == own[..i] && own[i := b][i + 1..] == own[i + 1..];
    Differ(Sum(own), b - own[i]);
  }

  lemma Differ(n: nat, d: int)
    requires n % 256 == 0 && -256 < d < 256 && d != 0
    ensures (n + d) % 256 != 0
  {
  }

  lemma {:induction false} OtherNumber(a: seq<Byte>, i: nat, b: Byte)
    requires i < |a| && b != a[i]
    ensures FromLE(a[i := b]) != FromLE(a)
    decreases |a|
  {
    if i > 0 {
      OtherNumber(a[1..], i - 1, b);
      assert a[i := b][1..] == a[1..][i - 1 := b];
    } else {
      assert a[i := b][1..] == a[1..];
    }
  }

  /** A table whose length changed no longer has the size it is stored with. */
  lemma ChangedLength(mem: seq<Byte>, i: nat, b: Byte)
    requires OwnInBounds(mem) && 8 <= |mem| && 4 <= i < 8 && b != mem[i]
    ensures OwnInBounds(mem[i := b]) ==> |Own(mem[i := b])| != |Own(mem)|
  {
    hide FromLE;
    OtherNumber(mem[4..8], i - 4, b);
    assert mem[i := b][4..8] == mem[4..8][i - 4 := b];
  }

  /** Any byte of the goal's table in a partition the host built, and any of the other tables but in their lengths,
      cannot change without the partition being refused; nor can the signature. */
  lemma DamageIsRefused(current: seq<Byte>, input: seq<Byte>, output: seq<Byte>, at: nat, b: Byte)
    requires Fit(current, input, output) && Proper(current, CURRENT_SIZE, CurrentSignature())
    requires Proper(input, INPUT_SIZE, InputSignature()) && Proper(output, INPUT_SIZE, OutputSignature())
    requires var first, second := DATA_SIZE + |current|, DATA_SIZE + |current| + |input|;
      || at < 4
      || (DATA_SIZE <= at < first && !(4 <= at - DATA_SIZE < 8))
      || first <= at < second
      || (second <= at < second + |output| && !(4 <= at - second < 8))
    requires b != Built(current, input, output)[at]
    ensures !Accepted(Built(current, input, output)[at := b])
  {
    hide Sum, InputSignature, CurrentSignature, OutputSignature, Built, Cast, From, InBounds, Accepted, Proper, TableAccepted;
    var data := Built(current, input, output);
    CastBuilt(current, input, output);
    TablesLie(current, input, output);
    if at < 4 {
      DamagedSignature(current, input, output, at, b);
    } else if at < DATA_SIZE + |current| {
      DamagedTable(data, 36, current, DATA_SIZE, CURRENT_SIZE, CurrentSignature(), at, b);
    } else if DATA_SIZE + |current| + 4 <= at < DATA_SIZE + |current| + 8 && input != [] {
      DamagedLength(data, input, DATA_SIZE + |current|, at, b);
    } else if at < DATA_SIZE + |current| + |input| {
      DamagedTable(data, 44, input, DATA_SIZE + |current|, INPUT_SIZE, InputSignature(), at, b);
    } else {
      DamagedTable(data, 52, output, DATA_SIZE + |current| + |input|, INPUT_SIZE, OutputSignature(), at, b);
    }
    if Accepted(data[at := b]) { RefusedTable(data[at := b]); }
  }

  lemma RefusedTable(data: seq<Byte>)
    requires |data| == PART_SIZE && Accepted(data)
    ensures TableAccepted(From(data, 36), |Cast(data, 36)|, CURRENT_SIZE, CurrentSignature())
    ensures TableAccepted(From(data, 44), |Cast(data, 44)|, INPUT_SIZE, InputSignature())
    ensures TableAccepted(From(data, 52), |Cast(data, 52)|, INPUT_SIZE, OutputSignature())
  {
    hide InputSignature, CurrentSignature, OutputSignature, DataSignature, TableAccepted, Read, Own;
  }

  /** A change in the length of the partition's header alone is refused exactly if that then is below the header's own
      size, or above the partition's. */
  lemma HeaderLength(current: seq<Byte>, input: seq<Byte>, output: seq<Byte>, at: nat, b: Byte)
    requires Proper(current, CURRENT_SIZE, CurrentSignature()) && Proper(input, INPUT_SIZE, InputSignature())
    requires Proper(output, INPUT_SIZE, OutputSignature()) && |input| <= MAX_INPUT
    requires DATA_SIZE + |current| + |output| + MAX_INPUT + DIMM_INFO_SIZE <= PART_SIZE
    requires 4 <= at < 8
    ensures var changed := Built(current, input, output)[at := b]; Accepted(changed) <==> 60 <= Read(changed, 4, 4) <= 0x2_0000
  {
    hide Sum, InputSignature, CurrentSignature, OutputSignature, DataSignature, Built, Own, Read, TableAccepted, Proper, Cast, From, InBounds;
    BuiltIsStored(current, input, output);
    var data := Built(current, input, output);
    var changed := data[at := b];
    assert changed[..4] == data[..4];
    CastBuilt(current, input, output);
    SameTable(data, changed, 36, DATA_SIZE);
    SameTable(data, changed, 44, DATA_SIZE + |current|);
    SameTable(data, changed, 52, DATA_SIZE + |current| + |input|);
  }

  lemma SameTable(a: seq<Byte>, b: seq<Byte>, entry: nat, offset: nat)
    requires |a| == |b| == PART_SIZE && 8 <= entry <= 52 && DATA_SIZE <= offset <= |a| && a[8..] == b[8..]
    requires From(a, entry) == [] || From(a, entry) == a[offset..]
    ensures InBounds(a, entry) == InBounds(b, entry) && From(a, entry) == From(b, entry) && Cast(a, entry) == Cast(b, entry)
  {
    hide Read;
    assert forall k | 8 <= k < |a| :: a[k] == a[8..][k - 8] && b[k] == b[8..][k - 8];
    SameField(a, b, entry, 4);
    SameField(a, b, entry + 4, 4);
    assert a[offset..] == b[offset..];
    if From(a, entry) != [] {
      StartIs(a, entry, offset);
      var end := offset + Read(a, entry, 4);
      assert a[offset..end] == b[offset..end];
    } else {
      assert !(Read(a, entry, 4) > 0 && InBounds(a, entry)) by { NothingFrom(a, entry); }
    }
  }

  lemma NothingFrom(data: seq<Byte>, entry: nat)
    requires entry + 8 <= |data| && From(data, entry) == []
    ensures !(Read(data, entry, 4) > 0 && InBounds(data, entry))
  {
    hide Read;
  }

  lemma DamagedSignature(current: seq<Byte>, input: seq<Byte>, output: seq<Byte>, at: nat, b: Byte)
    requires Fit(current, input, output) && at < 4 && b != Built(current, input, output)[at]
    ensures !Accepted(Built(current, input, output)[at := b])
  {
    hide DataSignature, Built, Read, Own, Cast, InBounds, TableAccepted;
    HeaderAccepted(current, input, output);
    var data := Built(current, input, output);
    assert data[at := b][..4] == data[..4][at := b];
    assert data[..4][at] == data[at];
  }

  lemma DamagedLength(data: seq<Byte>, table: seq<Byte>, offset: nat, at: nat, b: Byte)
    requires |data| == PART_SIZE && table != [] && InBounds(data, 44) && Cast(data, 44) == table
    requires DATA_SIZE <= offset && offset + |table| <= |data|
    requires From(data, 44) == data[offset..] && data[offset..][..|table|] == table
    requires Proper(table, INPUT_SIZE, InputSignature()) && offset + 4 <= at < offset + 8 && b != data[at]
    ensures !Accepted(data[at := b])
  {
    hide Sum, Own, OwnInBounds, InputSignature, Accepted, TableAccepted;
    var mem, changed := data[offset..], data[at := b];
    ProperIsAccepted(mem, table, INPUT_SIZE, InputSignature());
    SameField(data, changed, 44, 4);
    SameField(data, changed, 48, 4);
    StartIs(data, 44, offset);
    assert changed[offset..] == mem[at - offset := b];
    ChangedLength(mem, at - offset, b);
    LengthAccepted(changed);
  }

  lemma LengthAccepted(data: seq<Byte>)
    ensures Accepted(data) ==> |data| == PART_SIZE && |Own(From(data, 44))| == |Cast(data, 44)|
    ensures Accepted(data) && From(data, 44) != [] ==> OwnInBounds(From(data, 44))
  {
    hide InputSignature, CurrentSignature, OutputSignature, DataSignature, Read, Own, Sum, OwnInBounds;
  }

  lemma DamagedTable(data: seq<Byte>, entry: nat, table: seq<Byte>, offset: nat, least: nat, signature: seq<Byte>, at: nat, b: Byte)
    requires |data| == PART_SIZE && entry in {36, 44, 52} && |signature| == 4 && 8 <= least
    requires DATA_SIZE <= offset && offset + |table| <= |data| && InBounds(data, entry) && Cast(data, entry) == table
    requires From(data, entry) == data[offset..] && data[offset..][..|table|] == table
    requires Proper(table, least, signature) && offset <= at < offset + |table| && !(4 <= at - offset < 8) && b != data[at]
    ensures InBounds(data[at := b], entry)
    ensures !TableAccepted(From(data[at := b], entry), |Cast(data[at := b], entry)|, least, signature)
  {
    hide Sum, Own, OwnInBounds, TableAccepted, Proper;
    var mem, changed := data[offset..], data[at := b];
    ProperIsAccepted(mem, table, least, signature);
    SameField(data, changed, entry, 4);
    SameField(data, changed, entry + 4, 4);
    assert Read(data, entry, 4) > 0 && Read(data, entry + 4, 4) == offset by { StartIs(data, entry, offset); }
    assert changed[offset..] == mem[at - offset := b];
    OwnSums(mem, table, least, signature);
    ChangedTable(mem, |table|, least, signature, at - offset, b);
  }

  lemma StartIs(data: seq<Byte>, entry: nat, offset: nat)
    requires |data| == PART_SIZE && entry + 8 <= DATA_SIZE && offset < |data| && From(data, entry) == data[offset..]
    ensures Read(data, entry, 4) > 0 && Read(data, entry + 4, 4) == offset
  {
    hide Read;
    assert |data[offset..]| > 0;
  }

  lemma OwnSums(mem: seq<Byte>, table: seq<Byte>, least: nat, signature: seq<Byte>)
    requires |signature| == 4 && 8 <= least && Proper(table, least, signature) && table != []
    requires Own(mem) == table
    ensures Sum(Own(mem)) % 256 == 0
  {
    hide Sum, Own;
  }
}
