/** Configuration goals: the capacity arithmetic in 64-bit words, the size validation and the layout of a
    DIMM's capacity that follows from a goal. */
module ConfigGoals {
  import opened Arithmetic
  import opened Options
  import opened Words

  const GB: nat := 0x4000_0000

  /** The size that stands for all remaining capacity: (NVM_UINT64)-1. */
  const ALL: Word64 := 0xFFFF_FFFF_FFFF_FFFF

  /** The most gibibytes whose bytes fit a word: (2^64 - 2) >> 30. */
  const MAX_GB: Word64 := 0x3_FFFF_FFFF

  // ---------------------------------------------------------------------------------------------
  // Goals

  datatype InterleaveSize = Size64B | Size128B | Size256B | Size4KB | Size1GB

  datatype InterleaveWays = Ways0 | Ways1 | Ways2 | Ways3 | Ways4 | Ways6 | Ways8 | Ways12 | Ways16 | Ways24

  datatype InterleaveFormat = InterleaveFormat(
    recommended: bool, channel: InterleaveSize, imc: InterleaveSize, ways: InterleaveWays)

  type Guid = nat

  datatype AppDirectSettings = AppDirectSettings(interleave: InterleaveFormat, mirrored: bool, dimms: seq<Guid>)

  datatype AppDirectSet = AppDirectSet(size: Word64, setId: nat, settings: AppDirectSettings)

  /** Sizes in gibibytes; only the first count of the two sets mean something. */
  datatype ConfigGoal = ConfigGoal(memorySize: Word64, count: nat, sets: seq<AppDirectSet>)

  const MAX_SETS := 2

  ghost predicate WellFormed(g: ConfigGoal) { |g.sets| == MAX_SETS && g.count <= MAX_SETS }

  // ---------------------------------------------------------------------------------------------
  // Capacity

  function UsableCapacity(capacity: Word64): (u: Word64)
    ensures u % GB == 0 && u <= capacity < u + GB
  {
    assert (capacity - capacity % GB) % GB == 0 by { MultipleMod(capacity / GB, GB); }
    capacity - capacity % GB
  }

  function SizeFromCapacity(size: Word64, remaining: Word64, mirrored: bool): Word64 {
    if size == ALL then (if mirrored then remaining / GB / 2 else remaining / GB) else size
  }

  /** What is left after a set of this size; None when it does not fit. The doubling of a mirrored size
      wraps. */
  function Charge(size: Word64, remaining: Word64, mirrored: bool): Option<Word64> {
    var once := SizeFromCapacity(size, remaining, mirrored);
    var gibibytes := if mirrored then Wrap(once * 2) else once;
    if gibibytes > MAX_GB then None
    else
      var bytes := Wrap(gibibytes * GB);
      if bytes > remaining then None else Some(remaining - bytes)
  }

  method ValidateInterleaveSetSize(size: Word64, remaining: Word64, mirrored: bool) returns (ok: bool, left: Word64)
    ensures Charge(size, remaining, mirrored) == if ok then Some(left) else None
    ensures !ok ==> left == remaining
  {
    left := remaining;
    var actual := SizeFromCapacity(size, remaining, mirrored);
    if mirrored {
      actual := Wrap(actual * 2);
    }
    if actual > MAX_GB {
      return false, left;
    }
    var bytes := Wrap(actual * GB);
    if bytes > remaining {
      return false, left;
    }
    return true, remaining - bytes;
  }

  /** The bytes a set takes, without wrapping: twice its size when mirrored. */
  function Need(size: Word64, remaining: Word64, mirrored: bool): nat {
    SizeFromCapacity(size, remaining, mirrored) * (if mirrored then 2 else 1) * GB
  }

  /** The validation accepts exactly the sets that fit, unless doubling wraps. */
  lemma ChargeIsExact(size: Word64, remaining: Word64, mirrored: bool)
    requires mirrored && size != ALL ==> size < U64 / 2
    ensures Charge(size, remaining, mirrored)
         == if Need(size, remaining, mirrored) <= remaining then Some(remaining - Need(size, remaining, mirrored)) else None
  {
    var gibibytes := SizeFromCapacity(size, remaining, mirrored) * (if mirrored then 2 else 1);
    WrapIsId(gibibytes);
    if gibibytes > MAX_GB { assert gibibytes * GB >= U64; } else { WrapIsId(gibibytes * GB); }
  }

  /** When doubling wraps the set never fits; it is accepted exactly if the wrapped size does. */
  lemma DoublingWraps(size: Word64, remaining: Word64)
    requires U64 / 2 <= size < ALL
    ensures Need(size, remaining, true) > remaining
    ensures Charge(size, remaining, true).Some? <==> (size * 2 - U64) * GB <= remaining
    ensures Charge(U64 / 2, remaining, true) == Some(remaining)
  {
    assert Wrap(size * 2) == size * 2 - U64;
    if size * 2 - U64 > MAX_GB { assert (size * 2 - U64) * GB >= U64; } else { WrapIsId((size * 2 - U64) * GB); }
  }

  /** A size survives being written in bytes and read back in gibibytes exactly when its bytes fit a word. */
  lemma SizeSurvives(size: Word64)
    ensures Wrap(size * GB) / GB == size <==> size <= MAX_GB
  {
    if size <= MAX_GB {
      WrapIsId(size * GB);
      MultipleMod(size, GB);
    }
  }

  /** Charges sets k.. one after the other; an empty set is refused. */
  function ChargeSets(g: ConfigGoal, k: nat, remaining: Word64): Option<Word64>
    requires k <= g.count <= |g.sets|
    decreases g.count - k
  {
    if k == g.count then Some(remaining)
    else if g.sets[k].size == 0 then None
    else
      var left := Charge(g.sets[k].size, remaining, g.sets[k].settings.mirrored);
      if left.None? then None else ChargeSets(g, k + 1, left.value)
  }

  predicate AcceptsSizes(g: ConfigGoal, capacity: Word64)
    requires g.count <= |g.sets|
  {
    var left := Charge(g.memorySize, UsableCapacity(capacity), false);
    left.Some? && ChargeSets(g, 0, left.value).Some?
  }

  method ValidateConfigGoalSize(g: ConfigGoal, capacity: Word64) returns (ok: bool)
    requires WellFormed(g)
    ensures ok <==> AcceptsSizes(g, capacity)
  {
    var remaining;
    ok, remaining := ValidateInterleaveSetSize(g.memorySize, UsableCapacity(capacity), false);
    if !ok { return; }
    var i := 0;
    ghost var first := remaining;
    while i < g.count && ok
      invariant 0 <= i <= g.count
      invariant ok ==> ChargeSets(g, 0, first) == ChargeSets(g, i, remaining)
      invariant !ok ==> ChargeSets(g, 0, first) == None
    {
      if g.sets[i].size == 0 {
        ok := false;
      } else {
        ok, remaining := ValidateInterleaveSetSize(g.sets[i].size, remaining, g.sets[i].settings.mirrored);
      }
      i := i + 1;
    }
  }

  // ---------------------------------------------------------------------------------------------
  // The layout

  /** A range of a DIMM's persistent partition, in bytes. */
  datatype Range = Range(offset: Word64, size: Word64)

  /** The partition table's persistent size; memory is what is left. */
  function PartitionSize(g: ConfigGoal, capacity: Word64): Word64 {
    var usable := UsableCapacity(capacity);
    if g.memorySize == ALL then 0
    else Wrap(usable - Wrap(SizeFromCapacity(g.memorySize, usable, false) * GB))
  }

  /** What the encoder counts as left for the sets. */
  function ForSets(g: ConfigGoal, capacity: Word64): Word64 {
    Wrap(UsableCapacity(capacity) - Wrap(g.memorySize * GB))
  }

  /** The gibibytes written for each set: a set of all remaining capacity gets what the sets before left. */
  function WrittenSize(g: ConfigGoal, capacity: Word64, k: nat): Word64
    requires WellFormed(g) && k < g.count
  {
    var first := SizeFromCapacity(g.sets[0].size, ForSets(g, capacity), g.sets[0].settings.mirrored);
    if k == 0 then first
    else SizeFromCapacity(g.sets[1].size, Wrap(ForSets(g, capacity) - Wrap(first * GB)), g.sets[1].settings.mirrored)
  }

  /** The gibibytes written as a set's offset: the requested size of the set before it. */
  function WrittenOffset(g: ConfigGoal, k: nat): Word64
    requires WellFormed(g) && k < g.count
  {
    if k == 0 then 0 else g.sets[0].size
  }

  /** The range every DIMM of set k is given. */
  function SetRange(g: ConfigGoal, capacity: Word64, k: nat): Range
    requires WellFormed(g) && k < g.count
  {
    Range(Wrap(WrittenOffset(g, k) * GB), Wrap(WrittenSize(g, capacity, k) * GB))
  }

  /** The ranges start at 0, follow each other without gap or overlap, and end inside the partition. */
  ghost predicate LaidOut(g: ConfigGoal, capacity: Word64)
    requires WellFormed(g)
  {
    && (g.count > 0 ==> SetRange(g, capacity, 0).offset == 0)
    && (g.count > 1 ==> SetRange(g, capacity, 1).offset == SetRange(g, capacity, 0).offset + SetRange(g, capacity, 0).size)
    && (g.count > 0 ==>
          var last := SetRange(g, capacity, g.count - 1);
          last.offset + last.size <= PartitionSize(g, capacity))
  }

  ghost predicate Unmirrored(g: ConfigGoal) {
    forall s | s in g.sets :: !s.settings.mirrored
  }

  /** An accepted explicit memory size and the partition share the usable capacity exactly, both in whole
      gibibytes, and the encoder's count of what the sets may use is the partition. */
  lemma MemoryAndPartition(g: ConfigGoal, capacity: Word64)
    requires WellFormed(g) && AcceptsSizes(g, capacity) && g.memorySize != ALL
    ensures g.memorySize * GB + PartitionSize(g, capacity) == UsableCapacity(capacity)
    ensures ForSets(g, capacity) == PartitionSize(g, capacity)
    ensures PartitionSize(g, capacity) % GB == 0
    ensures Charge(g.memorySize, UsableCapacity(capacity), false) == Some(PartitionSize(g, capacity))
  {
    var usable := UsableCapacity(capacity);
    ChargeIsExact(g.memorySize, usable, false);
    WrapIsId(g.memorySize * GB);
    WrapIsId(usable - g.memorySize * GB);
    AddMultiple(usable, 0 - g.memorySize, GB);
  }

  /** Asking for all of a whole number of gibibytes takes exactly all. */
  lemma AllTakesAll(remaining: Word64)
    requires remaining % GB == 0
    ensures Charge(ALL, remaining, false) == Some(0)
    ensures SizeFromCapacity(ALL, remaining, false) * GB == remaining
  {
    ChargeIsExact(ALL, remaining, false);
  }

  /** An accepted set leaves whole gibibytes, and its bytes are written without wrapping. */
  lemma ChargedExactly(size: Word64, remaining: Word64)
    requires remaining % GB == 0 && Charge(size, remaining, false).Some?
    ensures var gb := SizeFromCapacity(size, remaining, false);
      && Wrap(gb * GB) == gb * GB
      && Charge(size, remaining, false) == Some(remaining - gb * GB)
      && (remaining - gb * GB) % GB == 0
  {
    var gb := SizeFromCapacity(size, remaining, false);
    ChargeIsExact(size, remaining, false);
    WrapIsId(gb * GB);
    AddMultiple(remaining, -gb, GB);
  }

  /** For an accepted goal without mirroring and with an explicit memory size, the sets' sizes are written
      without wrapping and the ranges are laid out soundly, except when the first of two sets asks for all
      that remains (then the second starts at the wrapped flag value, beyond the end of any partition but
      the largest). */
  lemma LayoutSound(g: ConfigGoal, capacity: Word64)
    requires WellFormed(g) && AcceptsSizes(g, capacity) && Unmirrored(g) && g.memorySize != ALL
    ensures forall k | 0 <= k < g.count ::
              SetRange(g, capacity, k).size == WrittenSize(g, capacity, k) * GB
    ensures LaidOut(g, capacity) <==>
            (g.count == 2 && g.sets[0].size == ALL ==> PartitionSize(g, capacity) == U64 - GB)
  {
    hide UsableCapacity, Charge, SizeFromCapacity, PartitionSize, ForSets;
    MemoryAndPartition(g, capacity);
    var partition := PartitionSize(g, capacity);
    if g.count > 0 {
      var s0 := g.sets[0];
      assert !s0.settings.mirrored;
      assert Charge(s0.size, partition, false).Some?;
      ChargedExactly(s0.size, partition);
      if g.count > 1 { SecondSet(g, capacity, partition); }
    }
  }

  lemma SecondSet(g: ConfigGoal, capacity: Word64, partition: Word64)
    requires WellFormed(g) && Unmirrored(g) && g.count == 2 && ForSets(g, capacity) == partition
    requires partition % GB == 0 && ChargeSets(g, 0, partition).Some? && PartitionSize(g, capacity) == partition
    ensures SetRange(g, capacity, 1).size == WrittenSize(g, capacity, 1) * GB
    ensures LaidOut(g, capacity) <==> (g.sets[0].size == ALL ==> partition == U64 - GB)
  {
    hide Charge, ForSets, PartitionSize;
    var s0, s1 := g.sets[0], g.sets[1];
    assert !s0.settings.mirrored && !s1.settings.mirrored;
    ChargedExactly(s0.size, partition);
    var left := partition - SizeFromCapacity(s0.size, partition, false) * GB;
    assert Charge(s1.size, left, false).Some? by { assert ChargeSets(g, 1, left).Some?; }
    WrapIsId(left);
    ChargedExactly(s1.size, left);
    if s0.size == ALL {
      AllTakesAll(partition);
      FlagOffset();
      assert s1.size == ALL by { NothingFits(s1.size); }
    }
  }

  /** The flag value times a gibibyte, in a word. */
  lemma FlagOffset()
    ensures Wrap(ALL * GB) == U64 - GB
  {
    assert ALL * GB == (GB - 1) * U64 + (U64 - GB);
    DivModUnique(ALL * GB, GB - 1, U64 - GB, U64);
  }

  lemma NothingFits(size: Word64)
    requires size != 0 && Charge(size, 0, false).Some?
    ensures size == ALL
  {
    if size != ALL { ChargeIsExact(size, 0, false); }
  }

  /** With the flag on the last set the ranges fill the partition to its end. */
  lemma AllFillsPartition(g: ConfigGoal, capacity: Word64)
    requires WellFormed(g) && AcceptsSizes(g, capacity) && Unmirrored(g) && g.memorySize != ALL
    requires g.count > 0 && g.sets[g.count - 1].size == ALL && (g.count == 2 ==> g.sets[0].size != ALL)
    ensures var last := SetRange(g, capacity, g.count - 1); last.offset + last.size == PartitionSize(g, capacity)
  {
    hide Charge, ForSets, PartitionSize;
    MemoryAndPartition(g, capacity);
    LayoutSound(g, capacity);
    var partition := PartitionSize(g, capacity);
    if g.count == 1 {
      AllTakesAll(partition);
    } else {
      assert !g.sets[0].settings.mirrored;
      ChargedExactly(g.sets[0].size, partition);
      var left := partition - g.sets[0].size * GB;
      WrapIsId(left);
      AllTakesAll(left);
    }
  }

  // ---------------------------------------------------------------------------------------------
  // The layout with mirroring

  /** The bytes a set takes of every DIMM: its range, and a copy of it when mirrored. */
  function Footprint(g: ConfigGoal, capacity: Word64, k: nat): nat
    requires WellFormed(g) && k < g.count
  {
    SetRange(g, capacity, k).size * (if g.sets[k].settings.mirrored then 2 else 1)
  }

  /** The footprints start at 0, follow each other without gap or overlap, and end inside the partition. */
  ghost predicate FootprintsLaidOut(g: ConfigGoal, capacity: Word64)
    requires WellFormed(g)
  {
    && (g.count > 0 ==> SetRange(g, capacity, 0).offset == 0)
    && (g.count > 1 ==> SetRange(g, capacity, 1).offset == SetRange(g, capacity, 0).offset + Footprint(g, capacity, 0))
    && (g.count > 0 ==>
          SetRange(g, capacity, g.count - 1).offset + Footprint(g, capacity, g.count - 1) <= PartitionSize(g, capacity))
  }

  /** An accepted set is charged just its footprint, even where its size in bytes wraps. */
  lemma ChargedFootprint(size: Word64, remaining: Word64, mirrored: bool)
    requires remaining % GB == 0 && Charge(size, remaining, mirrored).Some?
    ensures var range := Wrap(SizeFromCapacity(size, remaining, mirrored) * GB);
      var footprint := range * (if mirrored then 2 else 1);
      && footprint <= remaining && Charge(size, remaining, mirrored) == Some(remaining - footprint)
      && (remaining - footprint) % GB == 0
  {
    if mirrored && size != ALL && size >= U64 / 2 {
      WrappedRange(size, remaining);
    } else {
      var gb := SizeFromCapacity(size, remaining, mirrored);
      ChargeIsExact(size, remaining, mirrored);
      WrapIsId(gb * GB);
      AddMultiple(remaining, -gb * (if mirrored then 2 else 1), GB);
    }
  }

  /** From 2^63 gibibytes on, what is left of a mirrored set's size in bytes is the size above 2^63. */
  lemma WrappedRange(size: Word64, remaining: Word64)
    requires U64 / 2 <= size < ALL && remaining % GB == 0 && Charge(size, remaining, true).Some?
    ensures var rest := size - U64 / 2;
      && Wrap(size * GB) == rest * GB && rest * GB * 2 <= remaining
      && Charge(size, remaining, true) == Some(remaining - rest * GB * 2) && (remaining - rest * GB * 2) % GB == 0
  {
    var rest := size - U64 / 2;
    assert Wrap(size * 2) == rest * 2;
    if rest * 2 > MAX_GB {
      assert false;
    } else {
      WrapIsId(rest * 2 * GB);
      assert size * GB == rest * GB + (GB / 2) * U64;
      DivModUnique(size * GB, GB / 2, rest * GB, U64);
      AddMultiple(remaining, -rest * 2, GB);
    }
  }

  /** For every accepted goal with an explicit memory size, mirrored or not, the footprints are laid out
      soundly exactly if no second set follows a mirrored one or one that asks for all that remains. The two
      exceptions are where the wrapped offset happens to be right: a mirrored first set of just 2^63 gibibytes
      takes no space, and all of the largest partition ends where the flag value wraps to. */
  lemma FootprintsSound(g: ConfigGoal, capacity: Word64)
    requires WellFormed(g) && AcceptsSizes(g, capacity) && g.memorySize != ALL
    ensures FootprintsLaidOut(g, capacity) <==>
            (g.count == 2 ==>
               if g.sets[0].settings.mirrored then g.sets[0].size == U64 / 2
               else g.sets[0].size == ALL ==> PartitionSize(g, capacity) == U64 - GB)
  {
    hide UsableCapacity, Charge, SizeFromCapacity, PartitionSize, ForSets;
    MemoryAndPartition(g, capacity);
    var partition := PartitionSize(g, capacity);
    if g.count > 0 {
      var s0 := g.sets[0];
      assert Charge(s0.size, partition, s0.settings.mirrored).Some?;
      ChargedFootprint(s0.size, partition, s0.settings.mirrored);
      if g.count == 2 {
        SecondOffset(g, capacity, partition);
        if SetRange(g, capacity, 1).offset == Footprint(g, capacity, 0) { SecondFits(g, capacity, partition); }
      }
    }
  }

  /** The second set's offset is where the first footprint ends exactly under that condition; it lies inside the
      first footprint exactly if a mirrored first set has another explicit size. */
  lemma SecondOffset(g: ConfigGoal, capacity: Word64, partition: Word64)
    requires WellFormed(g) && g.count == 2 && ForSets(g, capacity) == partition && partition % GB == 0
    requires g.sets[0].size != 0 && Charge(g.sets[0].size, partition, g.sets[0].settings.mirrored).Some?
    ensures var s0, offset := g.sets[0], SetRange(g, capacity, 1).offset;
      && (offset == Footprint(g, capacity, 0) <==>
            if s0.settings.mirrored then s0.size == U64 / 2 else s0.size == ALL ==> partition == U64 - GB)
      && (offset < Footprint(g, capacity, 0) <==> s0.settings.mirrored && s0.size != ALL && s0.size != U64 / 2)
  {
    hide ForSets;
    var s0 := g.sets[0];
    ChargedFootprint(s0.size, partition, s0.settings.mirrored);
    if s0.size == ALL {
      FlagOffset();
      AllTakesAll(partition);
    } else if s0.settings.mirrored && s0.size >= U64 / 2 {
      WrappedRange(s0.size, partition);
    } else {
      ChargeIsExact(s0.size, partition, s0.settings.mirrored);
      WrapIsId(s0.size * GB);
    }
  }

  /** A second set that starts where the first footprint ends is charged from the encoder's own count. */
  lemma SecondFits(g: ConfigGoal, capacity: Word64, partition: Word64)
    requires WellFormed(g) && g.count == 2 && ForSets(g, capacity) == partition && partition % GB == 0
    requires ChargeSets(g, 0, partition).Some? && SetRange(g, capacity, 1).offset == Footprint(g, capacity, 0)
    ensures Footprint(g, capacity, 0) + Footprint(g, capacity, 1) <= partition
  {
    hide ForSets;
    var s0, s1 := g.sets[0], g.sets[1];
    SecondOffset(g, capacity, partition);
    ChargedFootprint(s0.size, partition, s0.settings.mirrored);
    if s0.settings.mirrored { WrappedRange(s0.size, partition); }
    var left := partition - Footprint(g, capacity, 0);
    assert ChargeSets(g, 1, left).Some?;
    WrapIsId(left);
    ChargedFootprint(s1.size, left, s1.settings.mirrored);
  }

  /** For an accepted goal the second set starts inside the first one's footprint exactly if the first is
      mirrored with a size of its own, other than 2^63 gibibytes. */
  lemma MirroredFirstSetOverlaps(g: ConfigGoal, capacity: Word64)
    requires WellFormed(g) && AcceptsSizes(g, capacity) && g.memorySize != ALL && g.count == 2
    ensures SetRange(g, capacity, 1).offset < SetRange(g, capacity, 0).offset + Footprint(g, capacity, 0) <==>
            g.sets[0].settings.mirrored && g.sets[0].size != ALL && g.sets[0].size != U64 / 2
  {
    hide UsableCapacity, Charge, SizeFromCapacity, PartitionSize, ForSets;
    MemoryAndPartition(g, capacity);
    SecondOffset(g, capacity, PartitionSize(g, capacity));
  }

  // ---------------------------------------------------------------------------------------------
  // All capacity as memory

  /** A set that takes nothing of a DIMM whose capacity all goes to memory. */
  predicate TakesNothing(s: AppDirectSet, usable: Word64) {
    if s.settings.mirrored then s.size == U64 / 2 || usable == 0 || usable == U64 - GB else usable == U64 - GB
  }

  /** The sets accepted beside all capacity as memory: those that ask for all that remains, and mirrored ones of just
      2^63 gibibytes. */
  lemma BesideAllMemory(size: Word64, mirrored: bool)
    ensures size != 0 && Charge(size, 0, mirrored).Some? <==> size == ALL || (mirrored && size == U64 / 2)
    ensures Charge(size, 0, mirrored).Some? ==> Charge(size, 0, mirrored) == Some(0)
  {
    if mirrored && size != ALL && size >= U64 / 2 { DoublingWraps(size, 0); } else { ChargeIsExact(size, 0, mirrored); }
  }

  /** Memory of all capacity leaves nothing, yet the encoder counts a gibibyte more than the usable capacity as left
      for the sets. */
  lemma AllMemoryLeaves(g: ConfigGoal, capacity: Word64)
    requires g.memorySize == ALL
    ensures PartitionSize(g, capacity) == 0 && Charge(ALL, UsableCapacity(capacity), false) == Some(0)
    ensures var usable := UsableCapacity(capacity);
      usable <= U64 - GB && ForSets(g, capacity) == if usable == U64 - GB then 0 else usable + GB
  {
    var usable := UsableCapacity(capacity);
    AllTakesAll(usable);
    FlagOffset();
    WholeWord(usable);
    if usable == U64 - GB { assert Wrap(0) == 0; } else { DivModUnique(usable - (U64 - GB), -1, usable + GB, U64); }
  }

  lemma WholeWord(n: Word64)
    requires n % GB == 0
    ensures n <= U64 - GB
  {
  }

  /** A set beside it is written with nothing exactly if it is one of those. */
  lemma TakenBeside(s: AppDirectSet, usable: Word64, counted: Word64)
    requires s.size != 0 && Charge(s.size, 0, s.settings.mirrored).Some? && usable % GB == 0 && usable <= U64 - GB
    requires counted == if usable == U64 - GB then 0 else usable + GB
    ensures Wrap(SizeFromCapacity(s.size, counted, s.settings.mirrored) * GB) == 0 <==> TakesNothing(s, usable)
  {
    BesideAllMemory(s.size, s.settings.mirrored);
    var gb := SizeFromCapacity(s.size, counted, s.settings.mirrored);
    if s.size == ALL {
      WrapIsId(gb * GB);
    } else {
      assert gb * GB == (GB / 2) * U64;
      DivModUnique(gb * GB, GB / 2, 0, U64);
    }
  }

  /** With all capacity as memory an accepted goal is laid out soundly exactly if its last set takes nothing, and a
      set before it is mirrored with just 2^63 gibibytes. */
  lemma AllMemorySound(g: ConfigGoal, capacity: Word64)
    requires WellFormed(g) && AcceptsSizes(g, capacity) && g.memorySize == ALL
    ensures FootprintsLaidOut(g, capacity) <==>
            && (g.count > 0 ==> TakesNothing(g.sets[g.count - 1], UsableCapacity(capacity)))
            && (g.count == 2 ==> g.sets[0].settings.mirrored && g.sets[0].size == U64 / 2)
  {
    hide UsableCapacity, Charge, SizeFromCapacity, PartitionSize, ForSets, TakesNothing;
    AllMemoryLeaves(g, capacity);
    var usable, counted := UsableCapacity(capacity), ForSets(g, capacity);
    if g.count > 0 {
      var s0 := g.sets[0];
      BesideAllMemory(s0.size, s0.settings.mirrored);
      assert usable % GB == 0;
      TakenBeside(s0, usable, counted);
      if g.count == 2 { SecondBeside(g, capacity, counted); }
    }
  }

  lemma SecondBeside(g: ConfigGoal, capacity: Word64, counted: Word64)
    requires WellFormed(g) && g.count == 2 && g.memorySize == ALL && ChargeSets(g, 0, 0).Some?
    requires PartitionSize(g, capacity) == 0 && counted == ForSets(g, capacity)
    requires counted == if UsableCapacity(capacity) == U64 - GB then 0 else UsableCapacity(capacity) + GB
    ensures FootprintsLaidOut(g, capacity) <==>
            TakesNothing(g.sets[1], UsableCapacity(capacity)) && g.sets[0].settings.mirrored && g.sets[0].size == U64 / 2
  {
    hide Charge, ForSets, TakesNothing, PartitionSize;
    var s0, s1 := g.sets[0], g.sets[1];
    BesideAllMemory(s0.size, s0.settings.mirrored);
    assert ChargeSets(g, 1, 0).Some?;
    BesideAllMemory(s1.size, s1.settings.mirrored);
    WholeWord(UsableCapacity(capacity));
    TakenBeside(s0, UsableCapacity(capacity), counted);
    if s0.size == ALL {
      FlagOffset();
    } else {
      assert s0.size * GB == (GB / 2) * U64;
      DivModUnique(s0.size * GB, GB / 2, 0, U64);
      WrapIsId(counted);
      TakenBeside(s1, UsableCapacity(capacity), counted);
    }
  }
}
