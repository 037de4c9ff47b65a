/** The status of a goal: what the output table's extension tables complain of, and what status follows from the
    stored bytes over all runs. */
module ConfigStatus {
  import opened Bytes
  import opened ConfigHandshake
  import opened ConfigTables

  // ---------------------------------------------------------------------------------------------
  // What the output complains of

  function PartitionSays(status: nat): ConfigError {
    if status == 3 then BrokenInterleave
    else if status == 4 || status == 8 then BadRequest
    else if status == 5 || status == 7 then InsufficientResources
    else if status == 6 then Firmware
    else if status == 1 then NotFound
    else UnknownError
  }

  function InterleaveSays(status: nat): ConfigError {
    if status == 3 then BrokenInterleave
    else if status == 4 || status == 9 || status == 10 || status == 11 then BadRequest
    else if status == 5 || status == 6 || status == 7 then InsufficientResources
    else if status == 2 || status == 1 || status == 8 then NotFound
    else UnknownError
  }

  function TableSays(mem: seq<Byte>, at: nat): ConfigError
    requires at + PARTITION_SIZE <= |mem|
  {
    if Read(mem, at, 2) == PARTITION_TYPE then PartitionSays(Read(mem, at + 4, 4))
    else if Read(mem, at, 2) == INTERLEAVE_TYPE then InterleaveSays(Read(mem, at + 13, 1))
    else NotFound
  }

  /** The walk over the extension tables up to the first that complains. */
  function OutputError(mem: seq<Byte>, at: nat, end: nat): ConfigError
    requires end + PARTITION_SIZE <= |mem|
    decreases end - at
  {
    if at >= end then NotFound
    else if Read(mem, at + 2, 2) <= 4 then BadRequest
    else if TableSays(mem, at) != NotFound then TableSays(mem, at)
    else OutputError(mem, at + Read(mem, at + 2, 2), end)
  }

  method GetConfigError(mem: seq<Byte>, end: nat) returns (error: ConfigError)
    requires end + PARTITION_SIZE <= |mem|
    ensures error == OutputError(mem, INPUT_SIZE, end)
  {
    hide Read;
    error := NotFound;
    var offset := INPUT_SIZE;
    while offset < end && error == NotFound
      invariant OutputError(mem, INPUT_SIZE, end) == if error == NotFound then OutputError(mem, offset, end) else error
      decreases end - offset, error == NotFound
    {
      var at := offset;
      if Read(mem, at + 2, 2) <= 4 {
        error := BadRequest;
        break;
      }
      offset := offset + Read(mem, at + 2, 2);
      if Read(mem, at, 2) == PARTITION_TYPE {
        error := PartitionSays(Read(mem, at + 4, 4));
      } else if Read(mem, at, 2) == INTERLEAVE_TYPE {
        error := InterleaveSays(Read(mem, at + 13, 1));
      }
    }
  }

  /** A table with nothing to complain of: long enough, and a success, a request not processed, a failed
      partitioning, or no table with a status. */
  predicate Silent(mem: seq<Byte>, at: nat)
    requires at + PARTITION_SIZE <= |mem|
  {
    && Read(mem, at + 2, 2) > 4
    && (Read(mem, at, 2) == 4 ==> Read(mem, at + 4, 4) == 1)
    && (Read(mem, at, 2) == 5 ==> mem[at + 13] == 1 || mem[at + 13] == 2 || mem[at + 13] == 8)
  }

  /** The walk comes to the table at t: all before it are silent. */
  ghost predicate Comes(mem: seq<Byte>, at: nat, end: nat, t: nat)
    requires end + PARTITION_SIZE <= |mem|
    decreases end - at
  {
    at < end && (t == at || (Silent(mem, at) && Comes(mem, at + Read(mem, at + 2, 2), end, t)))
  }

  /** The complaint of a table, told by its bytes: a request that is bad, or for DIMMs that are not there; one the
      firmware refused; one there are no resources for; one refused for no known reason. */
  predicate Complains(mem: seq<Byte>, t: nat, e: ConfigError)
    requires t + PARTITION_SIZE <= |mem|
  {
    var kind, partition, interleave := Read(mem, t, 2), Read(mem, t + 4, 4), mem[t + 13];
    if Read(mem, t + 2, 2) <= 4 then e == BadRequest
    else match e
      case BadRequest =>
        (kind == 4 && partition in [4, 8]) || (kind == 5 && interleave in [4, 9, 10, 11])
      case BrokenInterleave => (kind == 4 && partition == 3) || (kind == 5 && interleave == 3)
      case Firmware => kind == 4 && partition == 6
      case InsufficientResources =>
        (kind == 4 && partition in [5, 7]) || (kind == 5 && interleave in [5, 6, 7])
      case UnknownError =>
        (kind == 4 && (partition in [0, 2] || partition > 8)) || (kind == 5 && (interleave == 0 || interleave > 11))
      case NotFound => false
  }

  lemma OneByte(mem: seq<Byte>, at: nat)
    requires at < |mem|
    ensures Read(mem, at, 1) == mem[at]
  {
    assert mem[at..at + 1] == [mem[at]];
    assert FromLE([]) == 0;
    assert [mem[at]][1..] == [];
  }

  lemma SaysOrSilent(mem: seq<Byte>, at: nat)
    requires at + PARTITION_SIZE <= |mem|
    ensures Silent(mem, at) <==> Read(mem, at + 2, 2) > 4 && TableSays(mem, at) == NotFound
    ensures forall e :: Complains(mem, at, e) <==>
              !Silent(mem, at) && e == if Read(mem, at + 2, 2) <= 4 then BadRequest else TableSays(mem, at)
  {
    OneByte(mem, at + 13);
    hide Read;
  }

  /** The error is the complaint of the first table that is not silent; it is not found exactly if all are. */
  lemma {:induction false} FirstComplaint(mem: seq<Byte>, at: nat, end: nat, e: ConfigError)
    requires end + PARTITION_SIZE <= |mem| && e != NotFound
    ensures OutputError(mem, at, end) == e <==> ComplaintComes(mem, at, end, e)
    decreases end - at
  {
    hide Read, TableSays, Complains, Silent;
    if at < end {
      SaysOrSilent(mem, at);
      assert Comes(mem, at, end, at);
      var next := at + Read(mem, at + 2, 2);
      if Silent(mem, at) {
        FirstComplaint(mem, next, end, e);
        assert !Complains(mem, at, e);
        if ComplaintComes(mem, at, end, e) {
          var t: nat :| t < end && Comes(mem, at, end, t) && Complains(mem, t, e);
          assert Comes(mem, next, end, t);
        }
        if ComplaintComes(mem, next, end, e) {
          var t: nat :| t < end && Comes(mem, next, end, t) && Complains(mem, t, e);
          assert Comes(mem, at, end, t);
        }
      }
    }
  }

  ghost predicate ComplaintComes(mem: seq<Byte>, at: nat, end: nat, e: ConfigError)
    requires end + PARTITION_SIZE <= |mem|
  {
    exists t: nat :: t < end && Comes(mem, at, end, t) && Complains(mem, t, e)
  }

  // ---------------------------------------------------------------------------------------------
  // Over all runs

  /** There is a goal, and the BIOS has seen it. */
  ghost predicate Processed(w: World)
    requires |w.data| == PART_SIZE
  {
    Input(w.data) != [] && !w.pending
  }

  lemma InvStatus(w: World, error: ConfigError)
    requires Inv(w)
    ensures Processed(w) ==> |Output(w.data)| >= INPUT_SIZE
    ensures var status := Status(Input(w.data), Output(w.data), error);
      && (status == StatusNew <==> w.pending)
      && (status == StatusSuccess <==> Processed(w) && Output(w.data)[40] == 1)
      && (status == StatusUnknown <==>
            Input(w.data) == [] || (Processed(w) && Output(w.data)[40] != 1 && error == NotFound))
      && (status == ErrBadRequest <==>
            Processed(w) && Output(w.data)[40] != 1 && (error == BadRequest || error == BrokenInterleave))
      && (status == ErrFirmware <==> Processed(w) && Output(w.data)[40] != 1 && error == Firmware)
      && (status == ErrInsufficientResources <==> Processed(w) && Output(w.data)[40] != 1 && error == InsufficientResources)
      && (status == ErrUnknown <==> Processed(w) && Output(w.data)[40] != 1 && error == UnknownError)
  {
    hide Accepted, Cast, Read;
    InvMeans(w, error);
    if Processed(w) { OneByte(Output(w.data), 40); }
  }

  /** Over all runs from a DIMM without a goal in which no step breaks the handshake: NEW exactly while a goal is
      pending; SUCCESS exactly if it is not and byte 40 of the output table the boot left is 1; and otherwise the
      error, each kind told apart. */
  lemma StatusExactly(w: World, steps: seq<Step>, error: ConfigError)
    requires Start(w) && forall i: nat | i < |steps| :: !Breaks(Run(w, steps[..i]), steps[i])
    ensures var v := Run(w, steps);
      && Stored(v.data) && (Processed(v) ==> |Output(v.data)| >= INPUT_SIZE)
      && var status := Status(Input(v.data), Output(v.data), error);
      && (status == StatusNew <==> v.pending)
      && (status == StatusSuccess <==> Processed(v) && Output(v.data)[40] == 1)
      && (status == StatusUnknown <==>
            Input(v.data) == [] || (Processed(v) && Output(v.data)[40] != 1 && error == NotFound))
      && (status == ErrBadRequest <==>
            Processed(v) && Output(v.data)[40] != 1 && (error == BadRequest || error == BrokenInterleave))
      && (status == ErrFirmware <==> Processed(v) && Output(v.data)[40] != 1 && error == Firmware)
      && (status == ErrInsufficientResources <==> Processed(v) && Output(v.data)[40] != 1 && error == InsufficientResources)
      && (status == ErrUnknown <==> Processed(v) && Output(v.data)[40] != 1 && error == UnknownError)
  {
    hide Run, Breaks, Status, Accepted, Cast;
    InvAlways(w, steps);
    assert steps[..|steps|] == steps;
    InvStatus(Run(w, steps), error);
  }

  /** The output table's tables can be read: its own length covers its fixed part, and there is memory behind it. */
  predicate Explains(data: seq<Byte>) {
    && |data| == PART_SIZE && |OwnOutput(data)| >= INPUT_SIZE
    && |OwnOutput(data)| + PARTITION_SIZE <= |From(data, 52)|
  }

  /** The error told by the output the boot left: told by the first table that complains, if the goal failed. */
  lemma FailureTold(w: World, steps: seq<Step>)
    requires Start(w) && (forall i: nat | i < |steps| :: !Breaks(Run(w, steps[..i]), steps[i]))
    requires Explains(Run(w, steps).data)
    ensures var v := Run(w, steps);
      && Stored(v.data) && (Processed(v) ==> |Output(v.data)| >= INPUT_SIZE)
      && var mem, end := From(v.data, 52), |OwnOutput(v.data)|;
      && var status := Status(Input(v.data), Output(v.data), OutputError(mem, INPUT_SIZE, end));
      && (status == ErrFirmware <==>
            Processed(v) && Output(v.data)[40] != 1 && ComplaintComes(mem, INPUT_SIZE, end, Firmware))
      && (status == ErrInsufficientResources <==>
            Processed(v) && Output(v.data)[40] != 1 && ComplaintComes(mem, INPUT_SIZE, end, InsufficientResources))
      && (status == ErrUnknown <==>
            Processed(v) && Output(v.data)[40] != 1 && ComplaintComes(mem, INPUT_SIZE, end, UnknownError))
      && (status == ErrBadRequest <==>
            && Processed(v) && Output(v.data)[40] != 1
            && (ComplaintComes(mem, INPUT_SIZE, end, BadRequest) || ComplaintComes(mem, INPUT_SIZE, end, BrokenInterleave)))
  {
    hide Run, Breaks, Status, Stored, Cast, From, OwnOutput, OutputError, ComplaintComes;
    var v := Run(w, steps);
    var mem, end := From(v.data, 52), |OwnOutput(v.data)|;
    StatusExactly(w, steps, OutputError(mem, INPUT_SIZE, end));
    FirstComplaint(mem, INPUT_SIZE, end, Firmware);
    FirstComplaint(mem, INPUT_SIZE, end, InsufficientResources);
    FirstComplaint(mem, INPUT_SIZE, end, UnknownError);
    FirstComplaint(mem, INPUT_SIZE, end, BadRequest);
    FirstComplaint(mem, INPUT_SIZE, end, BrokenInterleave);
  }
}
