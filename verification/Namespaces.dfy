/** Where a new namespace goes: the security criteria, the App Direct search over interleave sets and the
    storage search over DIMMs. */
module Namespaces {
  import opened Alignment
  import opened Arithmetic
  import opened ConfigGoals
  import opened Options
  import opened Words

  // ---------------------------------------------------------------------------------------------
  // Security

  /** Requested features; both off means they are ignored. */
  datatype SecurityFeatures = SecurityFeatures(encryption: bool, eraseCapable: bool)

  /** What discovery tells of a DIMM: whether its lock state means encryption, and whether it can be erased. */
  datatype DimmSecurity = DimmSecurity(encrypted: bool, eraseCapable: bool)

  predicate Ignored(f: SecurityFeatures) { !f.encryption && !f.eraseCapable }

  /** The single-DIMM check; None stands for a failed discovery. */
  predicate DimmMeets(d: Option<DimmSecurity>, f: SecurityFeatures) {
    Ignored(f) || (d.Some? && d.value.encrypted == f.encryption && d.value.eraseCapable == f.eraseCapable)
  }

  method DimmMeetsSecurityCriteria(d: Option<DimmSecurity>, f: SecurityFeatures) returns (met: bool)
    ensures met <==> DimmMeets(d, f)
  {
    if !f.eraseCapable && !f.encryption {
      return true;
    }
    if d.None? {
      return false;
    }
    var encryptionMet := if f.encryption then d.value.encrypted else !d.value.encrypted;
    if encryptionMet && f.eraseCapable {
      return d.value.eraseCapable;
    } else if encryptionMet {
      return !d.value.eraseCapable;
    }
    return false;
  }

  /** The DIMMs before the first failed discovery. */
  function Discovered(dimms: seq<Option<DimmSecurity>>): (n: nat)
    ensures n <= |dimms|
    ensures forall i | 0 <= i < n :: dimms[i].Some?
    ensures n < |dimms| ==> dimms[n].None?
  {
    if dimms == [] || dimms[0].None? then 0 else 1 + Discovered(dimms[1..])
  }

  /** What the loop with its two shared flags and early breaks decides, for any input: the request is ignored,
      or at least one DIMM is discovered and all up to the first failed discovery pass alone. */
  ghost predicate SetMeets(dimms: seq<Option<DimmSecurity>>, f: SecurityFeatures) {
    Ignored(f) || (Discovered(dimms) > 0 && forall i | 0 <= i < Discovered(dimms) :: DimmMeets(dimms[i], f))
  }

  method InterleaveMeetsSecurityCriteria(dimms: seq<Option<DimmSecurity>>, f: SecurityFeatures) returns (met: bool)
    ensures met <==> SetMeets(dimms, f)
  {
    var allLocked, allErase := false, false;
    met := false;
    if !f.eraseCapable && !f.encryption {
      met := true;
    } else {
      var i := 0;
      while i < |dimms|
        invariant 0 <= i <= |dimms|
        invariant forall k | 0 <= k < i :: dimms[k].Some? && DimmMeets(dimms[k], f)
        invariant i == 0 ==> !allLocked && !allErase
        invariant i > 0 ==> allLocked == f.encryption && allErase == f.eraseCapable
      {
        if dimms[i].None? { break; }
        var d := dimms[i].value;
        if f.encryption {
          if d.encrypted { allLocked := true; } else { allLocked := false; break; }
        } else {
          if !d.encrypted { allLocked := false; } else { allLocked := true; break; }
        }
        if f.eraseCapable {
          if d.eraseCapable { allErase := true; } else { allErase := false; break; }
        } else {
          if !d.eraseCapable { allErase := false; } else { allErase := true; break; }
        }
        i := i + 1;
      }
      DiscoveredIs(dimms, i);
    }
    if !met {
      var encryptionFound := allLocked == f.encryption;
      var eraseFound := allErase == f.eraseCapable;
      if eraseFound && encryptionFound { met := true; }
    }
  }

  lemma {:induction false} DiscoveredIs(dimms: seq<Option<DimmSecurity>>, i: nat)
    requires i <= |dimms| && forall k | 0 <= k < i :: dimms[k].Some?
    ensures Discovered(dimms) >= i
    ensures i == |dimms| || dimms[i].None? ==> Discovered(dimms) == i
  {
    if i > 0 {
      assert forall k | 0 <= k < |dimms[1..]| :: dimms[1..][k] == dimms[k + 1];
      DiscoveredIs(dimms[1..], i - 1);
    }
  }

  /** When every discovery succeeds and the set is not empty, a set passes exactly when each DIMM would. */
  lemma SetMeetsIsForAll(dimms: seq<Option<DimmSecurity>>, f: SecurityFeatures)
    requires dimms != [] && forall i | 0 <= i < |dimms| :: dimms[i].Some?
    ensures SetMeets(dimms, f) <==> forall i | 0 <= i < |dimms| :: DimmMeets(dimms[i], f)
  {
    DiscoveredIs(dimms, |dimms|);
  }

  // ---------------------------------------------------------------------------------------------
  // App Direct

  datatype NamespaceDetails = NamespaceDetails(setId: Word32, appDirect: bool)

  datatype InterleaveSet = InterleaveSet(
    driverId: Word32, available: Word64, dimms: seq<Option<DimmSecurity>>, settings: InterleaveFormat)

  datatype Request = Request(
    blockSize: nat, blockCount: Word64, security: SecurityFeatures, format: Option<InterleaveFormat>,
    driverMinimum: Word64, allowAdjustment: bool)

  datatype Failure = BadSize | BadAlignment | BadSecurityGoal | BadSetting | DriverFailed

  datatype Placement = Placed(id: Word32, blockCount: Word64) | Failed(error: Failure)

  /** App Direct namespaces are asked for in bytes; any block size that needs no rounding will do here. */
  ghost predicate ValidRequest(q: Request) {
    0 < q.blockSize <= 0xFFFF && RealBlockSize(q.blockSize) == q.blockSize
  }

  ghost predicate ValidSet(s: InterleaveSet) { 0 < |s.dimms| < 256 }

  /** Details that cannot be read are skipped. */
  predicate HasNamespace(namespaces: seq<Option<NamespaceDetails>>, id: Word32) {
    exists i | 0 <= i < |namespaces| ::
      namespaces[i].Some? && namespaces[i].value.setId == id && namespaces[i].value.appDirect
  }

  method InterleaveSetHasNamespace(namespaces: seq<Option<NamespaceDetails>>, id: Word32) returns (has: bool)
    ensures has <==> HasNamespace(namespaces, id)
  {
    has := false;
    for i := 0 to |namespaces|
      invariant forall k | 0 <= k < i ::
                  !(namespaces[k].Some? && namespaces[k].value.setId == id && namespaces[k].value.appDirect)
    {
      if namespaces[i].Some? {
        if namespaces[i].value.setId == id && namespaces[i].value.appDirect { return true; }
      }
    }
  }

  function MinimumSize(ways: nat, driverMinimum: Word64): nat {
    if GB * ways > driverMinimum then GB * ways else driverMinimum
  }

  /** By one is the only number of ways that can be asked for. */
  predicate FormatMet(s: InterleaveSet, format: Option<InterleaveFormat>) {
    format.None? ||
    (&& format.value.channel == s.settings.channel && format.value.imc == s.settings.imc
     && (format.value.ways == Ways1 ==> s.settings.ways == Ways1))
  }

  /** The block count for a set: adjusted to its own number of ways when that is allowed. */
  function CountFor(q: Request, s: InterleaveSet): Word64
    requires ValidRequest(q) && ValidSet(s)
  {
    if q.allowAdjustment then AdjustBlockCount(q.blockCount, q.blockSize, |s.dimms|) else q.blockCount
  }

  function CapacityFor(q: Request, s: InterleaveSet): Word64
    requires ValidRequest(q) && ValidSet(s)
  {
    Wrap(CountFor(q, s) * q.blockSize)
  }

  /** A set without a namespace that has room for the capacity, which is not too small. */
  predicate SizeMet(q: Request, s: InterleaveSet, namespaces: seq<Option<NamespaceDetails>>)
    requires ValidRequest(q) && ValidSet(s)
  {
    && !HasNamespace(namespaces, s.driverId)
    && s.available >= CapacityFor(q, s) >= MinimumSize(|s.dimms|, q.driverMinimum)
  }

  predicate AlignmentMet(q: Request, s: InterleaveSet)
    requires ValidRequest(q) && ValidSet(s)
  {
    AlignmentIsLcm(q.blockSize, |s.dimms|);
    CapacityFor(q, s) % AlignmentSize(q.blockSize, |s.dimms|) == 0
  }

  ghost predicate Suitable(q: Request, s: InterleaveSet, namespaces: seq<Option<NamespaceDetails>>)
    requires ValidRequest(q) && ValidSet(s)
  {
    && SizeMet(q, s, namespaces) && SetMeets(s.dimms, q.security)
    && FormatMet(s, q.format) && AlignmentMet(q, s)
  }

  ghost predicate ValidSets(sets: seq<InterleaveSet>) {
    forall i | 0 <= i < |sets| :: ValidSet(sets[i])
  }

  /** The error when no set is suitable, from what some set large enough met. */
  function SearchError(size: bool, alignment: bool, security: bool, format: bool): Failure {
    if size && !alignment then BadAlignment
    else if security && format then BadSecurityGoal
    else if format then BadSecurityGoal
    else if security then BadSetting
    else if size then BadSecurityGoal
    else BadSize
  }

  ghost predicate SomeSize(q: Request, sets: seq<InterleaveSet>, ns: seq<Option<NamespaceDetails>>, n: nat)
    requires ValidRequest(q) && ValidSets(sets) && n <= |sets|
  {
    exists i | 0 <= i < n :: SizeMet(q, sets[i], ns)
  }

  ghost predicate SomeAligned(q: Request, sets: seq<InterleaveSet>, ns: seq<Option<NamespaceDetails>>, n: nat)
    requires ValidRequest(q) && ValidSets(sets) && n <= |sets|
  {
    exists i | 0 <= i < n :: SizeMet(q, sets[i], ns) && AlignmentMet(q, sets[i])
  }

  ghost predicate SomeSecure(q: Request, sets: seq<InterleaveSet>, ns: seq<Option<NamespaceDetails>>, n: nat)
    requires ValidRequest(q) && ValidSets(sets) && n <= |sets|
  {
    exists i | 0 <= i < n :: SizeMet(q, sets[i], ns) && SetMeets(sets[i].dimms, q.security)
  }

  ghost predicate SomeFormat(q: Request, sets: seq<InterleaveSet>, ns: seq<Option<NamespaceDetails>>, n: nat)
    requires ValidRequest(q) && ValidSets(sets) && n <= |sets|
  {
    exists i | 0 <= i < n :: SizeMet(q, sets[i], ns) && FormatMet(sets[i], q.format)
  }

  /** Index of the first suitable set; the number of sets when there is none. */
  ghost function FirstSuitable(q: Request, sets: seq<InterleaveSet>, ns: seq<Option<NamespaceDetails>>): (k: nat)
    requires ValidRequest(q) && ValidSets(sets)
    ensures k <= |sets|
    ensures k < |sets| ==> Suitable(q, sets[k], ns)
    ensures forall i | 0 <= i < k :: !Suitable(q, sets[i], ns)
  {
    if sets == [] || Suitable(q, sets[0], ns) then 0
    else
      assert forall i | 0 <= i < |sets[1..]| :: sets[1..][i] == sets[i + 1];
      1 + FirstSuitable(q, sets[1..], ns)
  }

  /** What the search comes to: the first suitable set with its own block count, or why there is none. */
  ghost function AppDirectSearch(q: Request, sets: seq<InterleaveSet>, ns: seq<Option<NamespaceDetails>>): Placement
    requires ValidRequest(q) && ValidSets(sets)
  {
    var k := FirstSuitable(q, sets, ns);
    if k < |sets| then Placed(sets[k].driverId, CountFor(q, sets[k]))
    else Failed(SearchError(SomeSize(q, sets, ns, |sets|), SomeAligned(q, sets, ns, |sets|),
                            SomeSecure(q, sets, ns, |sets|), SomeFormat(q, sets, ns, |sets|)))
  }

  /** Finds the first suitable set, or reports why there is none. */
  method FindInterleaveWithCapacity(q: Request, sets: seq<InterleaveSet>, ns: seq<Option<NamespaceDetails>>)
    returns (r: Placement)
    requires ValidRequest(q) && ValidSets(sets)
    ensures r.Placed? <==> exists i | 0 <= i < |sets| :: Suitable(q, sets[i], ns)
    ensures r == AppDirectSearch(q, sets, ns)
  {
    hide CountFor, CapacityFor, HasNamespace, MinimumSize, SetMeets, FormatMet;
    var security, format, alignment, size := false, false, false, false;
    var i := 0;
    while i < |sets|
      invariant i <= |sets|
      invariant forall k | 0 <= k < i :: !Suitable(q, sets[k], ns)
      invariant size == SomeSize(q, sets, ns, i) && alignment == SomeAligned(q, sets, ns, i)
      invariant security == SomeSecure(q, sets, ns, i) && format == SomeFormat(q, sets, ns, i)
    {
      var e := Examine(q, sets[i], ns);
      if e.Some? {
        size := true;
        security := security || e.value.security;
        format := format || e.value.format;
        alignment := alignment || e.value.alignment;
        if e.value.security && e.value.format && e.value.alignment {
          FirstSuitableIs(q, sets, ns, i);
          return Placed(sets[i].driverId, e.value.count);
        }
      }
      i := i + 1;
    }
    r := Failed(SearchError(size, alignment, security, format));
  }

  /** A placed App Direct namespace, whose request fits a word as every one in bytes does: it is on the first suitable
      set, fits what is available there, and has a gibibyte a DIMM and the driver's minimum. Unless that may be
      adjusted it is as large as asked for; else it is the smallest multiple of the block size and of a page a DIMM
      that covers the request. */
  lemma AppDirectPlaced(q: Request, sets: seq<InterleaveSet>, ns: seq<Option<NamespaceDetails>>, m: nat)
    requires ValidRequest(q) && ValidSets(sets) && AppDirectSearch(q, sets, ns).Placed? && q.blockCount * q.blockSize < U64
    ensures var r := AppDirectSearch(q, sets, ns);
      exists k: nat :: k < |sets| && Suitable(q, sets[k], ns) && (forall i | 0 <= i < k :: !Suitable(q, sets[i], ns))
        && r.id == sets[k].driverId
        && var size, ways := r.blockCount * q.blockSize, |sets[k].dimms|;
           && 0x4000_0000 * ways <= size <= sets[k].available && q.driverMinimum <= size
           && size % q.blockSize == 0 && size % (4096 * ways) == 0
           && (!q.allowAdjustment ==> r.blockCount == q.blockCount)
           && (q.allowAdjustment ==>
                 && q.blockCount * q.blockSize <= size
                 && (q.blockCount * q.blockSize <= m && m % q.blockSize == 0 && m % (4096 * ways) == 0 ==> size <= m))
  {
    hide Suitable, CountFor, AlignmentMet, SizeMet;
    var k := FirstSuitable(q, sets, ns);
    PlacedSize(q, sets[k], ns, m);
  }

  lemma PlacedSize(q: Request, s: InterleaveSet, ns: seq<Option<NamespaceDetails>>, m: nat)
    requires ValidRequest(q) && ValidSet(s) && Suitable(q, s, ns) && q.blockCount * q.blockSize < U64
    ensures var size, ways := CountFor(q, s) * q.blockSize, |s.dimms|;
      && 0x4000_0000 * ways <= size <= s.available && q.driverMinimum <= size
      && size % q.blockSize == 0 && size % (4096 * ways) == 0
      && (!q.allowAdjustment ==> CountFor(q, s) == q.blockCount)
      && (q.allowAdjustment ==>
            && q.blockCount * q.blockSize <= size
            && (q.blockCount * q.blockSize <= m && m % q.blockSize == 0 && m % (4096 * ways) == 0 ==> size <= m))
  {
    hide AlignmentMet, HasNamespace, SetMeets, FormatMet, AdjustBlockCount, Aligned, RealBlockSize;
    var ways := |s.dimms|;
    SizeMetCovers(q, s, ns);
    AlignedIs(q, s);
    if q.allowAdjustment {
      AdjustIsExact(q.blockCount, q.blockSize, ways);
      AlignedIsLeast(q.blockCount, q.blockSize, ways, m);
      DividesIs(q.blockSize, m);
      DividesIs(PAGE_SIZE * ways, m);
    } else {
      WrapIsId(q.blockCount * q.blockSize);
    }
  }

  /** Why no set is suitable: the size, if no set has room for one; the alignment, if none with room is aligned; the
      format, if of those with room some are aligned and some secure, but none has it; and else the security. */
  lemma AppDirectRefused(q: Request, sets: seq<InterleaveSet>, ns: seq<Option<NamespaceDetails>>)
    requires ValidRequest(q) && ValidSets(sets) && AppDirectSearch(q, sets, ns).Failed?
    ensures var error, n := AppDirectSearch(q, sets, ns).error, |sets|;
      && (forall i | 0 <= i < n :: !Suitable(q, sets[i], ns))
      && (error == BadSize <==> forall i | 0 <= i < n :: !SizeMet(q, sets[i], ns))
      && (error == BadAlignment <==>
            && (exists i | 0 <= i < n :: SizeMet(q, sets[i], ns))
            && (forall i | 0 <= i < n && SizeMet(q, sets[i], ns) :: !AlignmentMet(q, sets[i])))
      && (error == BadSetting <==>
            && (exists i | 0 <= i < n :: SizeMet(q, sets[i], ns) && AlignmentMet(q, sets[i]))
            && (exists i | 0 <= i < n :: SizeMet(q, sets[i], ns) && SetMeets(sets[i].dimms, q.security))
            && (forall i | 0 <= i < n && SizeMet(q, sets[i], ns) :: !FormatMet(sets[i], q.format)))
      && error in {BadSize, BadAlignment, BadSetting, BadSecurityGoal}
  {
    hide SizeMet, AlignmentMet, SetMeets, FormatMet;
  }

  lemma FirstSuitableIs(q: Request, sets: seq<InterleaveSet>, ns: seq<Option<NamespaceDetails>>, i: nat)
    requires ValidRequest(q) && ValidSets(sets) && i < |sets| && Suitable(q, sets[i], ns)
    requires forall k | 0 <= k < i :: !Suitable(q, sets[k], ns)
    ensures FirstSuitable(q, sets, ns) == i
  {
    hide Suitable;
    var k := FirstSuitable(q, sets, ns);
    assert k <= i;
  }

  /** What is found out about a set that is large enough. */
  datatype Findings = Findings(count: Word64, security: bool, format: bool, alignment: bool)

  method Examine(q: Request, s: InterleaveSet, ns: seq<Option<NamespaceDetails>>) returns (e: Option<Findings>)
    requires ValidRequest(q) && ValidSet(s)
    ensures e.Some? <==> SizeMet(q, s, ns)
    ensures e.Some? ==>
              e.value.count == CountFor(q, s) && e.value.security == SetMeets(s.dimms, q.security)
              && e.value.format == FormatMet(s, q.format) && e.value.alignment == AlignmentMet(q, s)
  {
    hide RealBlockSize, AdjustBlockCount, AlignmentSize, SetMeets, HasNamespace;
    var has := InterleaveSetHasNamespace(ns, s.driverId);
    if has { return None; }
    var count := q.blockCount;
    if q.allowAdjustment {
      count := AdjustNamespaceBlockCount(count, q.blockSize, |s.dimms|);
    }
    var capacity := Wrap(count * q.blockSize);
    if s.available < capacity || capacity < MinimumSize(|s.dimms|, q.driverMinimum) { return None; }
    var security := InterleaveMeetsSecurityCriteria(s.dimms, q.security);
    AlignmentIsLcm(q.blockSize, |s.dimms|);
    var alignment := GetAlignmentSize(q.blockSize, |s.dimms|);
    e := Some(Findings(count, security, FormatMet(s, q.format), capacity % alignment == 0));
  }

  /** The largest App Direct namespace there is room for. */
  method GetLargestAppDirectNamespace(sets: seq<InterleaveSet>, ns: seq<Option<NamespaceDetails>>)
    returns (size: Word64)
    ensures forall i | 0 <= i < |sets| && !HasNamespace(ns, sets[i].driverId) :: sets[i].available <= size
    ensures size == 0 || exists i | 0 <= i < |sets| :: !HasNamespace(ns, sets[i].driverId) && sets[i].available == size
  {
    hide HasNamespace;
    size := 0;
    for i := 0 to |sets|
      invariant forall k | 0 <= k < i && !HasNamespace(ns, sets[k].driverId) :: sets[k].available <= size
      invariant size == 0 || exists k | 0 <= k < i :: !HasNamespace(ns, sets[k].driverId) && sets[k].available == size
    {
      if sets[i].available > size {
        var has := InterleaveSetHasNamespace(ns, sets[i].driverId);
        if !has { size := sets[i].available; }
      }
    }
  }

  /** A placed namespace is never larger than the reported largest size: the search accepts only capacities
      up to it. */
  lemma PlacedWithinLargest(q: Request, sets: seq<InterleaveSet>, ns: seq<Option<NamespaceDetails>>, largest: Word64)
    requires ValidRequest(q) && ValidSets(sets) && FirstSuitable(q, sets, ns) < |sets|
    requires forall i | 0 <= i < |sets| && !HasNamespace(ns, sets[i].driverId) :: sets[i].available <= largest
    ensures var s := sets[FirstSuitable(q, sets, ns)];
      MinimumSize(|s.dimms|, q.driverMinimum) <= CapacityFor(q, s) <= s.available <= largest
  {
    hide HasNamespace, CapacityFor, MinimumSize;
    var k := FirstSuitable(q, sets, ns);
    assert Suitable(q, sets[k], ns);
  }

  /** What makes a set suitable, field by field: no readable App Direct namespace has its id; the capacity is at
      least a gibibyte a DIMM and the driver's minimum, and at most what is available; it is a multiple of the block
      size and of a page a DIMM; every DIMM, all of them discovered, has just the security asked for, if any is; and
      the channel and controller sizes are those asked for, by one if by one is asked for. */
  lemma SuitableIs(q: Request, s: InterleaveSet, ns: seq<Option<NamespaceDetails>>)
    requires ValidRequest(q) && ValidSet(s) && forall i | 0 <= i < |s.dimms| :: s.dimms[i].Some?
    ensures var capacity, ways := CapacityFor(q, s), |s.dimms|;
      Suitable(q, s, ns) <==>
      && (forall i | 0 <= i < |ns| && ns[i].Some? && ns[i].value.appDirect :: ns[i].value.setId != s.driverId)
      && 0x4000_0000 * ways <= capacity <= s.available && q.driverMinimum <= capacity
      && capacity % q.blockSize == 0 && capacity % (4096 * ways) == 0
      && (q.security.encryption || q.security.eraseCapable ==>
            forall i | 0 <= i < ways ::
              && s.dimms[i].value.encrypted == q.security.encryption
              && s.dimms[i].value.eraseCapable == q.security.eraseCapable)
      && (q.format.Some? ==>
            && s.settings.channel == q.format.value.channel && s.settings.imc == q.format.value.imc
            && (q.format.value.ways == Ways1 ==> s.settings.ways == Ways1))
  {
    hide Lcm, CapacityFor, AlignmentSize, SetMeets, Discovered;
    AlignedIs(q, s);
    SetMeetsIsForAll(s.dimms, q.security);
  }

  lemma AlignedIs(q: Request, s: InterleaveSet)
    requires ValidRequest(q) && ValidSet(s)
    ensures AlignmentMet(q, s) <==> CapacityFor(q, s) % q.blockSize == 0 && CapacityFor(q, s) % (4096 * |s.dimms|) == 0
  {
    hide Lcm, CapacityFor, AlignmentSize, RealBlockSize;
    var capacity, page := CapacityFor(q, s), PAGE_SIZE * |s.dimms|;
    AlignmentIsLcm(q.blockSize, |s.dimms|);
    LcmIsLeast(q.blockSize, page, capacity);
    DividesIs(q.blockSize, capacity);
    DividesIs(page, capacity);
    DividesIs(Lcm(q.blockSize, page), capacity);
    if Divides(Lcm(q.blockSize, page), capacity) {
      Multiples(q.blockSize, Lcm(q.blockSize, page), capacity);
      Multiples(page, Lcm(q.blockSize, page), capacity);
    }
  }

  /** When adjustment is allowed and the rounded capacity fits a word, alignment never stands in the way,
      and the placed capacity is the least aligned one that covers the request. */
  lemma AdjustedIsAligned(q: Request, s: InterleaveSet)
    requires ValidRequest(q) && ValidSet(s) && q.allowAdjustment
    requires Aligned(q.blockCount, q.blockSize, |s.dimms|) < U64
    ensures AlignmentMet(q, s) && CapacityFor(q, s) == Aligned(q.blockCount, q.blockSize, |s.dimms|)
  {
    hide Lcm, AdjustBlockCount, Aligned, Ceiling;
    AdjustIsExact(q.blockCount, q.blockSize, |s.dimms|);
    WrapIsId(Aligned(q.blockCount, q.blockSize, |s.dimms|));
    AlignmentIsLcm(q.blockSize, |s.dimms|);
    AlignedIsLeast(q.blockCount, q.blockSize, |s.dimms|, 0);
    LcmIsLeast(q.blockSize, PAGE_SIZE * |s.dimms|, Aligned(q.blockCount, q.blockSize, |s.dimms|));
  }

  /** A capacity that meets the size condition covers the request exactly if the request fits a word, as every
      App Direct request does; if it may be adjusted it is then the least aligned one that covers it. */
  lemma SizeMetCovers(q: Request, s: InterleaveSet, ns: seq<Option<NamespaceDetails>>)
    requires ValidRequest(q) && ValidSet(s) && SizeMet(q, s, ns)
    ensures q.blockCount * q.blockSize <= CapacityFor(q, s) <==> q.blockCount * q.blockSize < U64
    ensures q.blockSize == 1 ==> q.blockCount <= CapacityFor(q, s)
    ensures !q.allowAdjustment && q.blockCount * q.blockSize < U64 ==> CapacityFor(q, s) == q.blockCount * q.blockSize
    ensures q.allowAdjustment && q.blockCount * q.blockSize < U64 ==>
              AlignmentMet(q, s) && CapacityFor(q, s) == Aligned(q.blockCount, q.blockSize, |s.dimms|)
  {
    hide Lcm, AdjustBlockCount, Aligned, Ceiling, RoundUp, HasNamespace, AlignmentSize, RealBlockSize;
    var n, ways := q.blockCount * q.blockSize, |s.dimms|;
    if n < U64 {
      WrapIsId(n);
      if q.allowAdjustment {
        if Aligned(q.blockCount, q.blockSize, ways) >= U64 { TooSmallWhenWrapped(q, s, ns); }
        AdjustedIsAligned(q, s);
        AlignedIsLeast(q.blockCount, q.blockSize, ways, 0);
      }
    }
  }

  /** A rounding that leaves the word ends below one alignment unit, which is less than the minimum. */
  lemma TooSmallWhenWrapped(q: Request, s: InterleaveSet, ns: seq<Option<NamespaceDetails>>)
    requires ValidRequest(q) && ValidSet(s) && q.allowAdjustment && q.blockCount * q.blockSize < U64
    requires Aligned(q.blockCount, q.blockSize, |s.dimms|) >= U64
    ensures !SizeMet(q, s, ns)
  {
    hide Lcm, Ceiling, RoundUp, HasNamespace, AlignmentSize;
    var n, ways := q.blockCount * q.blockSize, |s.dimms|;
    AlignmentIsLcm(q.blockSize, ways);
    WrapIsId(n);
    var alignment := AlignmentSize(q.blockSize, ways);
    CeilingWraps(n, alignment);
    WholeBlocks(RoundUp(n, alignment), q.blockSize);
  }

  // ---------------------------------------------------------------------------------------------
  // Storage

  /** A DIMM of the pool: whether it is known, its handle, the largest storage namespace it has room for
      (None when that cannot be read) and its discovered security. */
  datatype PoolDimm = PoolDimm(known: bool, handle: Word32, free: Option<Word64>, security: Option<DimmSecurity>)

  datatype Verdict = Found(handle: Word32) | Refused(error: Failure)

  predicate Fits(d: PoolDimm, capacity: Word64, minimum: nat, f: SecurityFeatures) {
    d.known && d.free.Some? && d.free.value >= capacity >= minimum && DimmMeets(d.security, f)
  }

  /** Why a known DIMM is no place. */
  function Refusal(d: PoolDimm, capacity: Word64, minimum: nat, f: SecurityFeatures): Failure {
    if d.free.None? then DriverFailed
    else if !(d.free.value >= capacity >= minimum) then BadSize
    else BadSecurityGoal
  }

  /** The first DIMM that fits; otherwise the refusal of the last known DIMM. */
  function SearchDimms(dimms: seq<PoolDimm>, capacity: Word64, minimum: nat, f: SecurityFeatures, last: Failure): Verdict {
    if dimms == [] then Refused(last)
    else if Fits(dimms[0], capacity, minimum, f) then Found(dimms[0].handle)
    else SearchDimms(dimms[1..], capacity, minimum, f,
                     if dimms[0].known then Refusal(dimms[0], capacity, minimum, f) else last)
  }

  method CheckCapacityAndSecurity(dimms: seq<PoolDimm>, capacity: Word64, minimum: nat, f: SecurityFeatures)
    returns (v: Verdict)
    ensures v == SearchDimms(dimms, capacity, minimum, f, DriverFailed)
  {
    hide DimmMeets;
    var error := DriverFailed;
    for i := 0 to |dimms|
      invariant SearchDimms(dimms, capacity, minimum, f, DriverFailed) == SearchDimms(dimms[i..], capacity, minimum, f, error)
    {
      assert dimms[i..][1..] == dimms[i + 1..];
      if dimms[i].known {
        error := DriverFailed;
        if dimms[i].free.Some? {
          error := BadSize;
          if dimms[i].free.value >= capacity && capacity >= minimum {
            error := BadSecurityGoal;
            var met := DimmMeetsSecurityCriteria(dimms[i].security, f);
            if met { return Found(dimms[i].handle); }
          }
        }
      }
    }
    v := Refused(error);
  }

  ghost predicate SomeFits(dimms: seq<PoolDimm>, capacity: Word64, minimum: nat, f: SecurityFeatures) {
    exists i | 0 <= i < |dimms| :: Fits(dimms[i], capacity, minimum, f)
  }

  /** The search is sound and complete, takes the first DIMM, and its error is about the last known one. */
  lemma {:induction false} SearchDimmsIs(dimms: seq<PoolDimm>, capacity: Word64, minimum: nat, f: SecurityFeatures, last: Failure)
    ensures var v := SearchDimms(dimms, capacity, minimum, f, last);
      && (v.Found? <==> SomeFits(dimms, capacity, minimum, f))
      && (v.Found? ==> exists i | 0 <= i < |dimms| ::
            && Fits(dimms[i], capacity, minimum, f) && v.handle == dimms[i].handle
            && forall k | 0 <= k < i :: !Fits(dimms[k], capacity, minimum, f))
      && (v.Refused? ==>
            || (v.error == last && forall i | 0 <= i < |dimms| :: !dimms[i].known)
            || (exists i | 0 <= i < |dimms| ::
                  && dimms[i].known && v.error == Refusal(dimms[i], capacity, minimum, f)
                  && forall k | i < k < |dimms| :: !dimms[k].known))
  {
    hide Fits, Refusal;
    if dimms != [] && !Fits(dimms[0], capacity, minimum, f) {
      var rest := dimms[1..];
      var next := if dimms[0].known then Refusal(dimms[0], capacity, minimum, f) else last;
      SearchDimmsIs(rest, capacity, minimum, f, next);
      assert forall i | 0 <= i < |rest| :: rest[i] == dimms[i + 1];
      assert forall i | 0 < i < |dimms| :: dimms[i] == rest[i - 1];
      var v := SearchDimms(dimms, capacity, minimum, f, last);
      if v.Found? {
        var i :| 0 <= i < |rest| && Fits(rest[i], capacity, minimum, f) && v.handle == rest[i].handle
                 && forall k | 0 <= k < i :: !Fits(rest[k], capacity, minimum, f);
        assert dimms[i + 1] == rest[i];
      } else if !(forall i | 0 <= i < |rest| :: !rest[i].known) {
        var i :| 0 <= i < |rest| && rest[i].known && v.error == Refusal(rest[i], capacity, minimum, f)
                 && (forall k | i < k < |rest| :: !rest[k].known);
        assert dimms[i + 1] == rest[i];
      }
    }
  }

  /** Storage namespaces live on one DIMM; block sizes up to the largest whole cache line of 16 bits. */
  ghost predicate ValidStorage(q: Request) { 0 < q.blockSize <= 0xFFC0 }

  /** The rounded capacity, as far as rounding is allowed. */
  function StorageCapacity(q: Request): Word64
    requires ValidStorage(q)
  {
    var size := RealBlockSize(q.blockSize);
    Wrap((if q.allowAdjustment then AdjustBlockCount(q.blockCount, size, 1) else q.blockCount) * size)
  }

  function StorageAlignment(q: Request): (a: Word32)
    requires ValidStorage(q)
    ensures a > 0
  {
    AlignmentIsLcm(RealBlockSize(q.blockSize), 1);
    AlignmentSize(RealBlockSize(q.blockSize), 1)
  }

  /** The capacity that is tried when the rounded one is too large. */
  function FallbackCapacity(q: Request): Word64
    requires ValidStorage(q)
  {
    Wrap(StorageCapacity(q) - StorageAlignment(q))
  }

  /** The storage search: the rounded capacity first, and one alignment unit less when the last refusal was
      for the size. */
  function StorageSearch(q: Request, dimms: seq<PoolDimm>): Placement
    requires ValidStorage(q)
  {
    var minimum := MinimumSize(1, q.driverMinimum);
    var first := SearchDimms(dimms, StorageCapacity(q), minimum, q.security, DriverFailed);
    var second := SearchDimms(dimms, FallbackCapacity(q), minimum, q.security, DriverFailed);
    if StorageCapacity(q) % StorageAlignment(q) != 0 then Failed(BadAlignment)
    else if first.Found? then Placed(first.handle, Quotient(StorageCapacity(q), RealBlockSize(q.blockSize)))
    else if first.error != BadSize then Failed(first.error)
    else if second.Found? then Placed(second.handle, Quotient(FallbackCapacity(q), RealBlockSize(q.blockSize)))
    else Failed(second.error)
  }

  method FindDimmWithCapacity(q: Request, dimms: seq<PoolDimm>) returns (r: Placement)
    requires ValidStorage(q)
    ensures r == StorageSearch(q, dimms)
  {
    hide StorageCapacity, StorageAlignment, SearchDimms, Quotient, Fits;
    var minimum := MinimumSize(1, q.driverMinimum);
    var size := RealBlockSize(q.blockSize);
    var capacity, alignment := AlignStorage(q);
    if capacity % alignment != 0 {
      return Failed(BadAlignment);
    }
    var v := CheckCapacityAndSecurity(dimms, capacity, minimum, q.security);
    if v.Found? {
      return Placed(v.handle, Quotient(capacity, size));
    }
    if v.error == BadSize {
      capacity := Wrap(capacity as int - alignment as int);
      v := CheckCapacityAndSecurity(dimms, capacity, minimum, q.security);
      if v.Found? {
        return Placed(v.handle, Quotient(capacity, size));
      }
    }
    return Failed(v.error);
  }

  method AlignStorage(q: Request) returns (capacity: Word64, alignment: Word32)
    requires ValidStorage(q)
    ensures capacity == StorageCapacity(q) && alignment == StorageAlignment(q)
  {
    hide RealBlockSize, AdjustBlockCount, AlignmentSize;
    var count, size := q.blockCount, RealBlockSize(q.blockSize);
    RealSizeFits(q.blockSize);
    if q.allowAdjustment {
      count := AdjustNamespaceBlockCount(count, size, 1);
    }
    capacity := Wrap(count * size);
    alignment := GetAlignmentSize(size, 1);
  }

  lemma RealSizeFits(block: nat)
    requires 0 < block <= 0xFFC0
    ensures 0 < RealBlockSize(block) <= 0xFFC0 && RealBlockSize(RealBlockSize(block)) == RealBlockSize(block)
  {
  }

  /** The request in bytes, before rounding. */
  function Requested(q: Request): nat { q.blockCount * RealBlockSize(q.blockSize) }

  /** The rounded capacity, where it is aligned: the least aligned one at or above the request if that fits a
      word, nothing if rounding leaves the word, and less than the request if the request does not fit. */
  lemma AlignedCapacity(q: Request)
    requires ValidStorage(q) && StorageCapacity(q) % StorageAlignment(q) == 0
    ensures var size, capacity := RealBlockSize(q.blockSize), StorageCapacity(q);
      && (Aligned(q.blockCount, size, 1) < U64 ==> capacity == Aligned(q.blockCount, size, 1))
      && (Requested(q) < U64 <= Aligned(q.blockCount, size, 1) ==> capacity == 0)
      && (Requested(q) >= U64 ==> capacity < Wrap(Requested(q)) + StorageAlignment(q))
  {
    hide Lcm, Aligned, AlignmentSize, RealBlockSize, Ceiling, Gcd, Divides, RoundUp;
    RealSizeFits(q.blockSize);
    var size, alignment, n := RealBlockSize(q.blockSize), StorageAlignment(q), Requested(q);
    AlignmentIsLcm(size, 1);
    AlignedIsLeast(q.blockCount, size, 1, 0);
    if q.allowAdjustment {
      var rounded := RoundUp(Wrap(n), alignment);
      WholeBlocks(rounded, size);
      if Aligned(q.blockCount, size, 1) < U64 {
        AdjustIsExact(q.blockCount, size, 1);
        WrapIsId(Aligned(q.blockCount, size, 1));
      } else {
        RoundedWord(Wrap(n), alignment);
        if n < U64 {
          WrapIsId(n);
          IsCeiling(q.blockCount, size);
          BelowIsZero(StorageCapacity(q), alignment);
        }
      }
    } else if n < U64 {
      WrapIsId(n);
      IsCeiling(q.blockCount, size);
      AlignedStays(n, alignment);
    }
  }

  lemma IsCeiling(count: Word64, size: nat)
    requires 0 < size <= 0xFFFF && RealBlockSize(size) == size
    ensures Aligned(count, size, 1) == (LcmIsMultiple(size, PAGE_SIZE); Ceiling(count * size, Lcm(size, PAGE_SIZE)))
  {
  }

  lemma AlignedStays(n: nat, alignment: nat)
    requires alignment > 0 && n % alignment == 0
    ensures Ceiling(n, alignment) == n
  {
  }

  lemma BelowIsZero(n: nat, d: nat)
    requires n < d && n % d == 0
    ensures n == 0
  {
  }

  /** Rounding a word up stays within one unit above it, or leaves the word and ends below one unit. */
  lemma RoundedWord(n: Word64, alignment: Word32)
    requires alignment > 0
    ensures RoundUp(n, alignment) < n + alignment
    ensures Ceiling(n, alignment) >= U64 ==> RoundUp(n, alignment) < alignment
  {
    hide Ceiling;
    CeilingIsLeast(n, alignment, 0);
    if Ceiling(n, alignment) >= U64 { CeilingWraps(n, alignment); } else { RoundUpIsCeiling(n, alignment); }
  }

  /** For an aligned rounded capacity: it covers the request by less than one alignment unit exactly if the
      rounded request fits a word; the capacity one unit less is within a unit of the request exactly if the
      request is neither empty nor more than 2^64 bytes. */
  lemma StorageCapacities(q: Request)
    requires ValidStorage(q) && StorageCapacity(q) % StorageAlignment(q) == 0
    ensures var size, alignment, capacity := RealBlockSize(q.blockSize), StorageAlignment(q), StorageCapacity(q);
      && (Requested(q) <= capacity < Requested(q) + alignment <==> Aligned(q.blockCount, size, 1) < U64)
      && FallbackCapacity(q) == (if capacity > 0 then capacity else U64) - alignment
      && (Within(q, FallbackCapacity(q)) <==> 0 < Requested(q) <= U64)
      && (capacity > 0 ==> (Within(q, capacity) <==> 0 < Requested(q) <= U64))
  {
    hide Lcm, Aligned, AlignmentSize, RealBlockSize, Ceiling, Gcd, Divides, StorageCapacity;
    RealSizeFits(q.blockSize);
    var size, alignment, capacity := RealBlockSize(q.blockSize), StorageAlignment(q), StorageCapacity(q);
    AlignmentIsLcm(size, 1);
    AlignedIsLeast(q.blockCount, size, 1, 0);
    AlignedCapacity(q);
    if capacity > 0 {
      assert Divides(alignment, capacity) by { DividesIs(alignment, capacity); }
      AtLeast(alignment, capacity);
    }
    FallbackIs(q);
    if Requested(q) == U64 {
      assert Wrap(U64) == 0;
      if capacity > 0 { BelowIsZero(capacity, alignment); }
    } else if Requested(q) > U64 {
      WrapBelow(Requested(q));
    } else if Requested(q) == 0 {
      EmptyRequest(size);
    }
  }

  lemma FallbackIs(q: Request)
    requires ValidStorage(q) && (StorageCapacity(q) == 0 || StorageCapacity(q) >= StorageAlignment(q))
    ensures FallbackCapacity(q) == (if StorageCapacity(q) > 0 then StorageCapacity(q) else U64) - StorageAlignment(q)
  {
    hide StorageCapacity, StorageAlignment;
    var capacity, alignment := StorageCapacity(q), StorageAlignment(q);
    if capacity > 0 { WrapIsId(capacity - alignment); } else { DivModUnique(0 - alignment as int, -1, U64 - alignment, U64); }
  }

  lemma WrapBelow(n: nat)
    requires n >= U64
    ensures Wrap(n) <= n - U64
  {
  }

  lemma EmptyRequest(size: nat)
    requires 0 < size <= 0xFFFF
    ensures Aligned(0, size, 1) == 0
  {
    LcmIsMultiple(RealBlockSize(size), PAGE_SIZE * 1);
    assert 0 * RealBlockSize(size) == 0;
  }

  /** Within one alignment unit of the request. */
  predicate Within(q: Request, capacity: nat)
    requires ValidStorage(q)
  {
    Requested(q) - StorageAlignment(q) <= capacity < Requested(q) + StorageAlignment(q)
  }

  lemma DividesIs(d: nat, n: int)
    requires d > 0
    ensures Divides(d, n) <==> n % d == 0
  {
  }

  lemma DividesLess(d: nat, n: int)
    requires Divides(d, n)
    ensures Divides(d, n - d)
  {
    hide Divides;
    Positive(d, n);
    assert (n / d - 1) * d == n - d;
    DividesMultiple(d, n / d - 1);
  }

  /** The last known DIMM says how much room it has, and that is too little, or the capacity is. */
  ghost predicate LastKnownTooSmall(dimms: seq<PoolDimm>, capacity: Word64, minimum: nat) {
    exists i | 0 <= i < |dimms| ::
      && dimms[i].known && (forall k | i < k < |dimms| :: !dimms[k].known)
      && dimms[i].free.Some? && !(dimms[i].free.value >= capacity >= minimum)
  }

  /** A search that finds nothing ends with a size error exactly if it is the last known DIMM's. */
  lemma RefusedForSize(dimms: seq<PoolDimm>, capacity: Word64, minimum: nat, f: SecurityFeatures)
    requires !SomeFits(dimms, capacity, minimum, f)
    ensures SearchDimms(dimms, capacity, minimum, f, DriverFailed) == Refused(BadSize) <==>
            LastKnownTooSmall(dimms, capacity, minimum)
  {
    hide SearchDimms, Fits, SomeFits;
    SearchDimmsIs(dimms, capacity, minimum, f, DriverFailed);
    if LastKnownTooSmall(dimms, capacity, minimum) {
      var i :| 0 <= i < |dimms| && dimms[i].known && (forall k | i < k < |dimms| :: !dimms[k].known)
               && dimms[i].free.Some? && !(dimms[i].free.value >= capacity >= minimum);
      assert forall j | 0 <= j < |dimms| && dimms[j].known && (forall k | j < k < |dimms| :: !dimms[k].known) :: j == i;
    }
  }

  /** A storage namespace is placed exactly when an aligned capacity fits somewhere: the rounded one, or one
      unit less if the last known DIMM has too little room for the rounded one. */
  lemma StoragePlacedIff(q: Request, dimms: seq<PoolDimm>)
    requires ValidStorage(q)
    ensures var minimum := MinimumSize(1, q.driverMinimum);
      StorageSearch(q, dimms).Placed? <==>
      && StorageCapacity(q) % StorageAlignment(q) == 0
      && (|| SomeFits(dimms, StorageCapacity(q), minimum, q.security)
          || (&& LastKnownTooSmall(dimms, StorageCapacity(q), minimum)
              && SomeFits(dimms, FallbackCapacity(q), minimum, q.security)))
  {
    hide SomeFits, LastKnownTooSmall, StorageCapacity, FallbackCapacity, StorageAlignment, Quotient, SearchDimms;
    var minimum := MinimumSize(1, q.driverMinimum);
    SearchDimmsIs(dimms, StorageCapacity(q), minimum, q.security, DriverFailed);
    SearchDimmsIs(dimms, FallbackCapacity(q), minimum, q.security, DriverFailed);
    if !SomeFits(dimms, StorageCapacity(q), minimum, q.security) {
      RefusedForSize(dimms, StorageCapacity(q), minimum, q.security);
    }
  }

  /** The capacity a placed storage namespace was searched with. */
  function StorageUsed(q: Request, dimms: seq<PoolDimm>): Word64
    requires ValidStorage(q)
  {
    if SearchDimms(dimms, StorageCapacity(q), MinimumSize(1, q.driverMinimum), q.security, DriverFailed).Found?
    then StorageCapacity(q) else FallbackCapacity(q)
  }

  /** A placed storage namespace: the capacity it was searched with meets the minimum and fits the chosen DIMM,
      the first that takes it. It is within one alignment unit of the request exactly if that is neither empty
      nor more than 2^64 bytes, and it is aligned and made of the whole blocks reported exactly if the rounded
      capacity is not 0, or the alignment divides 2^64. */
  lemma StorageSound(q: Request, dimms: seq<PoolDimm>)
    requires ValidStorage(q) && StorageSearch(q, dimms).Placed?
    ensures var r, minimum, capacity := StorageSearch(q, dimms), MinimumSize(1, q.driverMinimum), StorageUsed(q, dimms);
      && minimum <= capacity
      && exists i | 0 <= i < |dimms| ::
           && Fits(dimms[i], capacity, minimum, q.security) && r.id == dimms[i].handle
           && forall k | 0 <= k < i :: !Fits(dimms[k], capacity, minimum, q.security)
    ensures Within(q, StorageUsed(q, dimms)) <==> 0 < Requested(q) <= U64
    ensures var capacity, alignment := StorageUsed(q, dimms), StorageAlignment(q);
      capacity % alignment == 0 && StorageSearch(q, dimms).blockCount * RealBlockSize(q.blockSize) == capacity
      <==> StorageCapacity(q) > 0 || U64 % alignment == 0
  {
    hide StorageCapacity, FallbackCapacity, StorageAlignment, SearchDimms, RealBlockSize, Within, DimmMeets;
    var minimum := MinimumSize(1, q.driverMinimum);
    StorageCapacities(q);
    SearchDimmsIs(dimms, StorageCapacity(q), minimum, q.security, DriverFailed);
    SearchDimmsIs(dimms, FallbackCapacity(q), minimum, q.security, DriverFailed);
    SizeDividesAlignment(q);
    UsedIsWhole(q, StorageUsed(q, dimms));
  }

  lemma SizeDividesAlignment(q: Request)
    requires ValidStorage(q)
    ensures RealBlockSize(q.blockSize) > 0 && Divides(RealBlockSize(q.blockSize), StorageAlignment(q))
  {
    hide Lcm, Divides, RealBlockSize, AlignmentSize;
    RealSizeFits(q.blockSize);
    AlignmentIsLcm(RealBlockSize(q.blockSize), 1);
    LcmIsMultiple(RealBlockSize(q.blockSize), PAGE_SIZE);
  }

  lemma UsedIsWhole(q: Request, capacity: Word64)
    requires ValidStorage(q) && StorageCapacity(q) % StorageAlignment(q) == 0
    requires Divides(RealBlockSize(q.blockSize), StorageAlignment(q))
    requires capacity == FallbackCapacity(q) || (capacity == StorageCapacity(q) && capacity > 0)
    requires FallbackCapacity(q) == (if StorageCapacity(q) > 0 then StorageCapacity(q) else U64) - StorageAlignment(q)
    ensures RealBlockSize(q.blockSize) > 0
    ensures var size, alignment := RealBlockSize(q.blockSize), StorageAlignment(q);
      capacity % alignment == 0 && Quotient(capacity, size) * size == capacity
      <==> StorageCapacity(q) > 0 || U64 % alignment == 0
  {
    hide StorageCapacity, FallbackCapacity, StorageAlignment, RealBlockSize, Divides;
    var size, alignment := RealBlockSize(q.blockSize), StorageAlignment(q);
    Positive(size, alignment);
    DividesIs(alignment, capacity);
    if capacity % alignment == 0 {
      Multiples(size, alignment, capacity);
      Positive(size, capacity);
    }
    AddMultiple(StorageCapacity(q), -1, alignment);
    AddMultiple(U64, -1, alignment);
  }

  /** The DIMM of a placed storage namespace, field by field: it is known, has the room and just the security asked
      for, if any is; and the capacity is at least a gibibyte and the driver's minimum. */
  lemma StorageDimm(q: Request, dimms: seq<PoolDimm>)
    requires ValidStorage(q) && StorageSearch(q, dimms).Placed?
    ensures var capacity := StorageUsed(q, dimms);
      && 0x4000_0000 <= capacity && q.driverMinimum <= capacity
      && exists i | 0 <= i < |dimms| ::
           && dimms[i].known && dimms[i].handle == StorageSearch(q, dimms).id
           && dimms[i].free.Some? && capacity <= dimms[i].free.value
           && (q.security.encryption || q.security.eraseCapable ==>
                 && dimms[i].security.Some? && dimms[i].security.value.encrypted == q.security.encryption
                 && dimms[i].security.value.eraseCapable == q.security.eraseCapable)
  {
    hide StorageSearch, StorageUsed;
    StorageSound(q, dimms);
    var capacity, minimum := StorageUsed(q, dimms), MinimumSize(1, q.driverMinimum);
    var i :| 0 <= i < |dimms| && Fits(dimms[i], capacity, minimum, q.security) && StorageSearch(q, dimms).id == dimms[i].handle;
  }

  /** And such a DIMM is never passed over: while one has the room and the security for the rounded capacity,
      which is aligned and large enough, the namespace is placed. */
  lemma StorageFound(q: Request, dimms: seq<PoolDimm>, i: nat)
    requires ValidStorage(q) && i < |dimms| && dimms[i].known && dimms[i].free.Some?
    requires StorageCapacity(q) % StorageAlignment(q) == 0 && StorageCapacity(q) <= dimms[i].free.value
    requires 0x4000_0000 <= StorageCapacity(q) && q.driverMinimum <= StorageCapacity(q)
    requires q.security.encryption || q.security.eraseCapable ==>
               dimms[i].security == Some(DimmSecurity(q.security.encryption, q.security.eraseCapable))
    ensures StorageSearch(q, dimms).Placed?
  {
    hide StorageCapacity, StorageAlignment, FallbackCapacity, StorageSearch, LastKnownTooSmall;
    StoragePlacedIff(q, dimms);
    assert Fits(dimms[i], StorageCapacity(q), MinimumSize(1, q.driverMinimum), q.security);
  }

  /** Why a search over the DIMMs finds none: the driver, if no DIMM is known or the last known one's room cannot be
      read; the size, if that has too little room or the capacity is too small; else the security. */
  lemma RefusedFor(dimms: seq<PoolDimm>, capacity: Word64, minimum: nat, f: SecurityFeatures)
    requires !SomeFits(dimms, capacity, minimum, f)
    ensures var v := SearchDimms(dimms, capacity, minimum, f, DriverFailed);
      && v.Refused? && v.error in {DriverFailed, BadSize, BadSecurityGoal}
      && (v.error == BadSize <==> LastKnownTooSmall(dimms, capacity, minimum))
      && (v.error == DriverFailed <==> LastKnownUnread(dimms))
  {
    hide SearchDimms, Fits, SomeFits, LastKnownTooSmall;
    SearchDimmsIs(dimms, capacity, minimum, f, DriverFailed);
    RefusedForSize(dimms, capacity, minimum, f);
    if exists i :: 0 <= i < |dimms| && dimms[i].known && forall k | i < k < |dimms| :: !dimms[k].known {
      var i :| 0 <= i < |dimms| && dimms[i].known && forall k | i < k < |dimms| :: !dimms[k].known;
      assert forall j | 0 <= j < |dimms| && dimms[j].known && (forall k | j < k < |dimms| :: !dimms[k].known) :: j == i;
    }
  }

  /** No DIMM is known, or the room of the last known one cannot be read. */
  ghost predicate LastKnownUnread(dimms: seq<PoolDimm>) {
    || (forall i | 0 <= i < |dimms| :: !dimms[i].known)
    || (exists i | 0 <= i < |dimms| ::
          dimms[i].known && dimms[i].free.None? && forall k | i < k < |dimms| :: !dimms[k].known)
  }

  /** Why a storage namespace is not placed: the alignment exactly if the rounded capacity is not aligned; else what
      the last known DIMM is refused for at the capacity tried last. */
  lemma StorageRefused(q: Request, dimms: seq<PoolDimm>)
    requires ValidStorage(q) && StorageSearch(q, dimms).Failed?
    ensures var error, minimum := StorageSearch(q, dimms).error, MinimumSize(1, q.driverMinimum);
      var tried := if LastKnownTooSmall(dimms, StorageCapacity(q), minimum) then FallbackCapacity(q) else StorageCapacity(q);
      && (error == BadAlignment <==> StorageCapacity(q) % StorageAlignment(q) != 0)
      && (error == DriverFailed <==> error != BadAlignment && LastKnownUnread(dimms))
      && (error == BadSize <==> error != BadAlignment && LastKnownTooSmall(dimms, tried, minimum))
      && error in {BadAlignment, DriverFailed, BadSize, BadSecurityGoal}
  {
    hide SomeFits, LastKnownTooSmall, StorageCapacity, FallbackCapacity, StorageAlignment, Quotient, SearchDimms, LastKnownUnread;
    var minimum := MinimumSize(1, q.driverMinimum);
    if StorageCapacity(q) % StorageAlignment(q) == 0 {
      StoragePlacedIff(q, dimms);
      RefusedFor(dimms, StorageCapacity(q), minimum, q.security);
      if LastKnownTooSmall(dimms, StorageCapacity(q), minimum) {
        RefusedFor(dimms, FallbackCapacity(q), minimum, q.security);
      }
    }
  }

  /** The rounded capacity is not aligned only where it may not be adjusted, or rounding leaves the word; a request
      that may not be adjusted is taken as it is, modulo 2^64, and is aligned exactly if it is made of whole pages. */
  lemma StorageUnaligned(q: Request)
    requires ValidStorage(q)
    ensures var size := RealBlockSize(q.blockSize);
      && (!q.allowAdjustment ==> StorageCapacity(q) == Wrap(Requested(q)))
      && (!q.allowAdjustment && Requested(q) < U64 ==>
            (StorageCapacity(q) % StorageAlignment(q) == 0 <==> Requested(q) % 4096 == 0))
      && (q.allowAdjustment && Aligned(q.blockCount, size, 1) < U64 ==> StorageCapacity(q) % StorageAlignment(q) == 0)
  {
    hide Lcm, Aligned, AlignmentSize, RealBlockSize, Ceiling, AdjustBlockCount;
    RealSizeFits(q.blockSize);
    var size, n := RealBlockSize(q.blockSize), Requested(q);
    AlignmentIsLcm(size, 1);
    LcmIsMultiple(size, PAGE_SIZE);
    LcmIsLeast(size, PAGE_SIZE, if q.allowAdjustment then Aligned(q.blockCount, size, 1) else n);
    if !q.allowAdjustment && n < U64 {
      WrapIsId(n);
      DividesIs(PAGE_SIZE, n);
      DividesIs(StorageAlignment(q), n);
      DividesMultiple(size, q.blockCount);
      if Divides(StorageAlignment(q), n) { Multiples(PAGE_SIZE, StorageAlignment(q), n); }
    }
    if q.allowAdjustment && Aligned(q.blockCount, size, 1) < U64 {
      AdjustIsExact(q.blockCount, size, 1);
      WrapIsId(Aligned(q.blockCount, size, 1));
      AlignedIsLeast(q.blockCount, size, 1, 0);
      DividesIs(StorageAlignment(q), Aligned(q.blockCount, size, 1));
    }
  }

  /** A request of 2^64 bytes and a gibibyte becomes a namespace of a gibibyte. */
  lemma WrappedRequestIsPlaced(f: SecurityFeatures, security: DimmSecurity)
    requires Ignored(f)
    ensures var q := Request(4096, 0x10_0000_0004_0000, f, None, 0, false);
      && Requested(q) == U64 + GB
      && StorageSearch(q, [PoolDimm(true, 1, Some(GB), Some(security))]) == Placed(1, 0x4_0000)
  {
    hide AlignmentSize;
    PageBlocks();
    var q := Request(4096, 0x10_0000_0004_0000, f, None, 0, false);
    assert StorageCapacity(q) == GB;
  }

  /** The smaller capacity is not always tried: a DIMM that has room for it goes unused when a later DIMM
      with room for more lacks the security asked for. */
  lemma FallbackMissed()
    ensures exists q: Request, dimms: seq<PoolDimm> ::
      && ValidStorage(q) && StorageCapacity(q) % StorageAlignment(q) == 0
      && SomeFits(dimms, FallbackCapacity(q), MinimumSize(1, q.driverMinimum), q.security)
      && StorageSearch(q, dimms) == Failed(BadSecurityGoal)
  {
    hide RealBlockSize, AlignmentSize;
    var q := Request(4096, 0x4_0001, SecurityFeatures(true, false), None, 0, false);
    var small := PoolDimm(true, 1, Some(GB), Some(DimmSecurity(true, false)));
    var unlocked := PoolDimm(true, 2, Some(2 * GB), Some(DimmSecurity(false, false)));
    PageBlocks();
    assert StorageCapacity(q) == GB + 4096 && FallbackCapacity(q) == GB;
    TwoDimms(q, small, unlocked);
  }

  lemma PageBlocks()
    ensures RealBlockSize(4096) == 4096 && AlignmentSize(4096, 1) == 4096
  {
    assert Wrap32(PAGE_SIZE * 1) == 4096;
    assert Gcd(4096, 4096) == 4096;
  }

  lemma TwoDimms(q: Request, small: PoolDimm, unlocked: PoolDimm)
    requires ValidStorage(q) && StorageCapacity(q) % StorageAlignment(q) == 0
    requires !Fits(small, StorageCapacity(q), MinimumSize(1, q.driverMinimum), q.security)
    requires !Fits(unlocked, StorageCapacity(q), MinimumSize(1, q.driverMinimum), q.security)
    requires Fits(small, FallbackCapacity(q), MinimumSize(1, q.driverMinimum), q.security)
    requires unlocked.known && Refusal(unlocked, StorageCapacity(q), MinimumSize(1, q.driverMinimum), q.security) == BadSecurityGoal
    ensures SomeFits([small, unlocked], FallbackCapacity(q), MinimumSize(1, q.driverMinimum), q.security)
    ensures StorageSearch(q, [small, unlocked]) == Failed(BadSecurityGoal)
  {
    hide Fits, Refusal, StorageCapacity, StorageAlignment, FallbackCapacity;
    var dimms := [small, unlocked];
    assert dimms[0] == small;
    var c, m := StorageCapacity(q), MinimumSize(1, q.driverMinimum);
    assert dimms[1..] == [unlocked] && [unlocked][1..] == [];
    var e := if small.known then Refusal(small, c, m, q.security) else DriverFailed;
    assert SearchDimms([], c, m, q.security, BadSecurityGoal) == Refused(BadSecurityGoal);
    assert SearchDimms([unlocked], c, m, q.security, e) == Refused(BadSecurityGoal);
  }
}
