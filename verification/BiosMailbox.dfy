/** Large payloads to and from the BIOS mailbox in chunks, over a driver that may fail at any point. */
module BiosMailbox {
  import opened Arithmetic
  import opened Bytes

  const UINT_RANGE: nat := 0x1_0000_0000

  // ---------------------------------------------------------------------------------------------
  // Chunks

  datatype Chunk = Chunk(offset: nat, size: nat)

  /** The chunks that carry the bytes from offset up to size: full ones and a shorter last one. */
  function Chunks(offset: nat, size: nat, rwSize: nat): (c: seq<Chunk>)
    requires rwSize > 0
    decreases size - offset
  {
    if offset >= size then []
    else
      var n := if offset + rwSize > size then size - offset else rwSize;
      [Chunk(offset, n)] + Chunks(offset + n, size, rwSize)
  }

  /** Each chunk starts where the one before ended, the first at the offset, the last ends at the size. */
  ghost predicate Tile(c: seq<Chunk>, offset: nat, size: nat) {
    && (c == [] ==> offset >= size)
    && (c != [] ==> c[0].offset == offset && c[|c| - 1].offset + c[|c| - 1].size == size)
    && forall k | 0 < k < |c| :: c[k].offset == c[k - 1].offset + c[k - 1].size
  }

  /** The chunks tile the payload exactly, none is empty, and all but the last have the transfer size. */
  lemma {:induction false} ChunksTile(offset: nat, size: nat, rwSize: nat)
    requires rwSize > 0
    ensures Tile(Chunks(offset, size, rwSize), offset, size)
    ensures forall k | 0 <= k < |Chunks(offset, size, rwSize)| :: 0 < Chunks(offset, size, rwSize)[k].size <= rwSize
    ensures forall k | 0 <= k < |Chunks(offset, size, rwSize)| - 1 :: Chunks(offset, size, rwSize)[k].size == rwSize
    decreases size - offset
  {
    hide Chunks;
    ChunksLeft(offset, size, rwSize);
    if offset < size {
      var n := if offset + rwSize > size then size - offset else rwSize;
      NextChunk(offset, size, rwSize);
      ChunksLeft(offset + n, size, rwSize);
      ChunksTile(offset + n, size, rwSize);
      var c, rest := Chunks(offset, size, rwSize), Chunks(offset + n, size, rwSize);
      assert forall k | 0 < k < |c| :: c[k] == rest[k - 1];
    }
  }

  // ---------------------------------------------------------------------------------------------
  // The driver

  /** What the mailbox offers. */
  datatype MailboxSize = MailboxSize(largeInput: nat, largeOutput: nat, rwSize: nat)

  /** What becomes of the write command for one chunk; a command that fails after it was submitted may or may
      not have stored the chunk. */
  datatype WriteOutcome = NoMemory | NoCommand | ShortInput | SubmitFailed(stored: bool) | FirmwareFailed(stored: bool) | Done

  /** What becomes of a read command. Setting its input may fail and the command still be submitted; the
      BIOS then answers with bytes of its own. */
  datatype ReadOutcome =
    | ReadNoMemory | ReadNoCommand | ReadSubmitFailed | ReadFirmwareFailed | ShortOutput
    | Delivered(inputSet: bool, stray: nat -> Byte)

  datatype Code = Success | BadSize | Unknown

  predicate Stores(o: WriteOutcome) {
    match o
    case Done => true
    case SubmitFailed(stored) => stored
    case FirmwareFailed(stored) => stored
    case _ => false
  }

  // ---------------------------------------------------------------------------------------------
  // Transfers

  /** The transfer's size arithmetic stays within 32 bits, and moves at least a byte at a time. */
  ghost predicate Transferable(size: nat, mb: MailboxSize) {
    mb.rwSize > 0 && size + mb.rwSize <= UINT_RANGE
  }

  /** Stores a chunk in the mailbox. */
  method StoreChunk(mailbox: array<Byte>, payload: seq<Byte>, offset: nat, size: nat)
    requires offset + size <= |payload| <= mailbox.Length
    modifies mailbox
    ensures mailbox[offset..offset + size] == payload[offset..offset + size]
    ensures forall k | 0 <= k < mailbox.Length && !(offset <= k < offset + size) :: mailbox[k] == old(mailbox[k])
  {
    for i := 0 to size
      invariant forall k | offset <= k < offset + i :: mailbox[k] == payload[k]
      invariant forall k | 0 <= k < mailbox.Length && !(offset <= k < offset + i) :: mailbox[k] == old(mailbox[k])
    {
      mailbox[offset + i] := payload[offset + i];
    }
  }

  /** Sends one chunk; a failed command may have stored it all the same. */
  method WriteChunk(mailbox: array<Byte>, payload: seq<Byte>, c: Chunk, o: WriteOutcome) returns (ok: bool)
    requires c.offset + c.size <= |payload| <= mailbox.Length && mailbox[..c.offset] == payload[..c.offset]
    modifies mailbox
    ensures ok == (o == Done)
    ensures mailbox[..c.offset] == payload[..c.offset]
    ensures ok ==> mailbox[..c.offset + c.size] == payload[..c.offset + c.size]
    ensures forall k | |payload| <= k < mailbox.Length :: mailbox[k] == old(mailbox[k])
  {
    if Stores(o) {
      ghost var before := mailbox[..c.offset];
      StoreChunk(mailbox, payload, c.offset, c.size);
      assert mailbox[..c.offset] == before;
      Extend(mailbox[..], payload, c.offset, c.offset + c.size);
    }
    ok := o == Done;
  }

  /** Writes a payload; sent are the chunks the driver accepted. Success means that they are all the chunks and
      that the mailbox starts with the payload. Nothing behind the payload changes in any case. */
  method WriteLargePayload(mailbox: array<Byte>, payload: seq<Byte>, mb: MailboxSize, driver: nat -> WriteOutcome)
    returns (rc: Code, sent: seq<Chunk>)
    requires mailbox.Length == mb.largeInput && Transferable(|payload|, mb)
    modifies mailbox
    ensures rc == BadSize <==> mb.largeInput < |payload|
    ensures rc == BadSize ==> sent == [] && mailbox[..] == old(mailbox[..])
    ensures rc != BadSize ==>
              var all := Chunks(0, |payload|, mb.rwSize);
              && |sent| <= |all| && sent == all[..|sent|] && (forall k | 0 <= k < |sent| :: driver(k) == Done)
              && (rc == Success <==> |sent| == |all|)
              && (rc == Unknown ==> driver(|sent|) != Done)
    ensures rc == Success ==> mailbox[..|payload|] == payload
    ensures rc != BadSize ==> forall k | |payload| <= k < mailbox.Length :: mailbox[k] == old(mailbox[k])
  {
    sent := [];
    if mb.largeInput < |payload| {
      return BadSize, sent;
    }
    hide Chunks, Accepted;
    var size, transferSize, offset := |payload|, mb.rwSize, 0;
    var ok := true;
    ghost var all := Chunks(0, size, mb.rwSize);
    NothingAccepted(size, mb.rwSize, driver);
    while offset < size && ok
      invariant 0 <= offset <= size
      invariant ok && offset < size ==> transferSize == mb.rwSize
      invariant Accepted(sent, all, offset, size, mb.rwSize, driver)
      invariant mailbox[..offset] == payload[..offset]
      invariant forall k | size <= k < mailbox.Length :: mailbox[k] == old(mailbox[k])
      invariant !ok ==> offset < size && driver(|sent|) != Done
      decreases size - offset, ok
    {
      if offset + mb.rwSize > size {
        transferSize := size - offset;
      }
      var c := Chunk(offset, transferSize);
      ok := WriteChunk(mailbox, payload, c, driver(|sent|));
      if ok {
        OneMoreAccepted(sent, all, offset, size, mb.rwSize, driver);
        sent := sent + [c];
        offset := offset + transferSize;
      }
    }
    AcceptedSoFar(sent, all, offset, size, mb.rwSize, driver);
    rc := if offset != size then Unknown else Success;
  }

  /** The driver accepted the chunks up to an offset. */
  ghost predicate Accepted(sent: seq<Chunk>, all: seq<Chunk>, offset: nat, size: nat, rwSize: nat, driver: nat -> WriteOutcome)
    requires rwSize > 0
  {
    all == sent + Chunks(offset, size, rwSize) && forall k | 0 <= k < |sent| :: driver(k) == Done
  }

  lemma NothingAccepted(size: nat, rwSize: nat, driver: nat -> WriteOutcome)
    requires rwSize > 0
    ensures Accepted([], Chunks(0, size, rwSize), 0, size, rwSize, driver)
  {
    hide Chunks;
    assert [] + Chunks(0, size, rwSize) == Chunks(0, size, rwSize);
  }

  lemma OneMoreAccepted(sent: seq<Chunk>, all: seq<Chunk>, offset: nat, size: nat, rwSize: nat, driver: nat -> WriteOutcome)
    requires rwSize > 0 && offset < size && Accepted(sent, all, offset, size, rwSize, driver) && driver(|sent|) == Done
    ensures var n := if offset + rwSize > size then size - offset else rwSize;
      Accepted(sent + [Chunk(offset, n)], all, offset + n, size, rwSize, driver)
  {
    hide Chunks;
    var n := if offset + rwSize > size then size - offset else rwSize;
    NextChunk(offset, size, rwSize);
    Regroup(sent, [Chunk(offset, n)], Chunks(offset + n, size, rwSize));
  }

  lemma AcceptedSoFar(sent: seq<Chunk>, all: seq<Chunk>, offset: nat, size: nat, rwSize: nat, driver: nat -> WriteOutcome)
    requires rwSize > 0 && Accepted(sent, all, offset, size, rwSize, driver)
    ensures |sent| <= |all| && sent == all[..|sent|] && forall k | 0 <= k < |sent| :: driver(k) == Done
    ensures |sent| == |all| <==> offset >= size
  {
    hide Chunks;
    ChunksLeft(offset, size, rwSize);
  }

  lemma NextChunk(offset: nat, size: nat, rwSize: nat)
    requires rwSize > 0 && offset < size
    ensures var n := if offset + rwSize > size then size - offset else rwSize;
      Chunks(offset, size, rwSize) == [Chunk(offset, n)] + Chunks(offset + n, size, rwSize)
  {
  }

  lemma ChunksLeft(offset: nat, size: nat, rwSize: nat)
    requires rwSize > 0
    ensures Chunks(offset, size, rwSize) == [] <==> offset >= size
  {
  }

  lemma Regroup(a: seq<Chunk>, b: seq<Chunk>, c: seq<Chunk>)
    ensures a + (b + c) == a + b + c
  {
  }

  lemma Extend(m: seq<Byte>, p: seq<Byte>, from: nat, to: nat)
    requires from <= to <= |p| <= |m| && m[..from] == p[..from] && m[from..to] == p[from..to]
    ensures m[..to] == p[..to]
  {
    assert m[..to] == m[..from] + m[from..to] && p[..to] == p[..from] + p[from..to];
  }

  /** The byte a read leaves at place j: the mailbox's, or a stray one if the input of the chunk that carries
      it could not be set. */
  function ByteRead(mailbox: seq<Byte>, j: nat, rwSize: nat, driver: nat -> ReadOutcome): Byte
    requires j < |mailbox| && rwSize > 0
  {
    var o := driver(j / rwSize);
    if o.Delivered? && !o.inputSet then o.stray(j) else mailbox[j]
  }

  /** A read succeeds exactly when every chunk is delivered. */
  method ReadLargePayload(mailbox: seq<Byte>, buffer: array<Byte>, mb: MailboxSize, driver: nat -> ReadOutcome)
    returns (rc: Code)
    requires |mailbox| == mb.largeOutput && Transferable(buffer.Length, mb)
    modifies buffer
    ensures rc == BadSize <==> mb.largeOutput < buffer.Length
    ensures rc != BadSize ==>
              (rc == Success <==> forall k | 0 <= k < |Chunks(0, buffer.Length, mb.rwSize)| :: driver(k).Delivered?)
    ensures rc == Success ==> forall j | 0 <= j < buffer.Length :: buffer[j] == ByteRead(mailbox, j, mb.rwSize, driver)
  {
    if mb.largeOutput < buffer.Length {
      return BadSize;
    }
    hide Chunks, ByteRead, Start;
    var size, transferSize, offset, k := buffer.Length, mb.rwSize, 0, 0;
    var ok := true;
    ghost var all := Chunks(0, size, mb.rwSize);
    NextStart(0, mb.rwSize);
    while offset < size && ok
      invariant 0 <= offset <= size && k <= |all|
      invariant ok && offset < size ==> transferSize == mb.rwSize
      invariant offset < size ==> offset == Start(k, mb.rwSize)
      invariant |all| == k + |Chunks(offset, size, mb.rwSize)|
      invariant forall i | 0 <= i < k :: driver(i).Delivered?
      invariant forall j | 0 <= j < offset :: buffer[j] == ByteRead(mailbox, j, mb.rwSize, driver)
      invariant !ok ==> offset < size && !driver(k).Delivered?
      decreases size - offset, ok
    {
      NextChunk(offset, size, mb.rwSize);
      if offset + mb.rwSize > size {
        transferSize := size - offset;
      }
      ok := driver(k).Delivered?;
      if ok {
        FetchChunk(mailbox, buffer, offset, transferSize, driver(k).inputSet, driver(k).stray);
        ChunkBytes(mailbox, offset, transferSize, k, mb.rwSize, driver);
        NextStart(k, mb.rwSize);
        offset := offset + transferSize;
        k := k + 1;
      }
    }
    ChunksLeft(offset, size, mb.rwSize);
    rc := if offset != size then Unknown else Success;
  }

  /** Where chunk k starts. */
  function Start(k: nat, rwSize: nat): nat { k * rwSize }

  lemma NextStart(k: nat, rwSize: nat)
    ensures Start(0, rwSize) == 0 && Start(k + 1, rwSize) == Start(k, rwSize) + rwSize
  {
  }

  /** The bytes of chunk k are those of its outcome. */
  lemma ChunkBytes(mailbox: seq<Byte>, offset: nat, size: nat, k: nat, rwSize: nat, driver: nat -> ReadOutcome)
    requires rwSize > 0 && offset == Start(k, rwSize) && size <= rwSize && offset + size <= |mailbox|
    requires driver(k).Delivered?
    ensures forall j | offset <= j < offset + size ::
              ByteRead(mailbox, j, rwSize, driver) == (if driver(k).inputSet then mailbox[j] else driver(k).stray(j))
  {
    forall j | offset <= j < offset + size ensures j / rwSize == k {
      DivModUnique(j, k, j - offset, rwSize);
    }
  }

  method FetchChunk(mailbox: seq<Byte>, buffer: array<Byte>, offset: nat, size: nat, inputSet: bool, stray: nat -> Byte)
    requires offset + size <= buffer.Length <= |mailbox|
    modifies buffer
    ensures forall j | offset <= j < offset + size :: buffer[j] == if inputSet then mailbox[j] else stray(j)
    ensures forall j | 0 <= j < buffer.Length && !(offset <= j < offset + size) :: buffer[j] == old(buffer[j])
  {
    for i := 0 to size
      invariant forall j | offset <= j < offset + i :: buffer[j] == if inputSet then mailbox[j] else stray(j)
      invariant forall j | 0 <= j < buffer.Length && !(offset <= j < offset + i) :: buffer[j] == old(buffer[j])
    {
      buffer[offset + i] := if inputSet then mailbox[offset + i] else stray(offset + i);
    }
  }

  /** What a successful read leaves is the payload. */
  ghost predicate ReadsBack(payload: seq<Byte>, mailbox: seq<Byte>, rwSize: nat, driver: nat -> ReadOutcome)
    requires rwSize > 0 && |payload| <= |mailbox|
  {
    forall j | 0 <= j < |payload| :: ByteRead(mailbox, j, rwSize, driver) == payload[j]
  }

  /** Every chunk of a payload is delivered, and its input was set. */
  ghost predicate AllInputsSet(size: nat, rwSize: nat, driver: nat -> ReadOutcome)
    requires rwSize > 0
  {
    forall k | 0 <= k < |Chunks(0, size, rwSize)| :: driver(k).Delivered? && driver(k).inputSet
  }

  /** The number of chunks is the size divided by the transfer size, rounded up: byte j is in chunk j / rwSize. */
  lemma {:induction false} ChunkOf(offset: nat, size: nat, rwSize: nat, j: nat)
    requires rwSize > 0 && offset <= j < size
    ensures (j - offset) / rwSize < |Chunks(offset, size, rwSize)|
    decreases size - offset
  {
    NextChunk(offset, size, rwSize);
    if j < offset + rwSize {
      DivModUnique(j - offset, 0, j - offset, rwSize);
    } else {
      ChunkOf(offset + rwSize, size, rwSize, j);
      AddMultiple(j - offset - rwSize, 1, rwSize);
    }
  }

  /** A successful read after a successful write gives the payload back when the inputs of all chunks were set. */
  lemma WrittenReadsBack(payload: seq<Byte>, mailbox: seq<Byte>, rwSize: nat, driver: nat -> ReadOutcome)
    requires rwSize > 0 && |payload| <= |mailbox| && mailbox[..|payload|] == payload
    requires AllInputsSet(|payload|, rwSize, driver)
    ensures ReadsBack(payload, mailbox, rwSize, driver)
  {
    forall j | 0 <= j < |payload| ensures ByteRead(mailbox, j, rwSize, driver) == payload[j] {
      ChunkOf(0, |payload|, rwSize, j);
      assert mailbox[..|payload|][j] == mailbox[j];
    }
  }

  /** A driver that delivers every chunk, with these stray bytes where it did not set the input. */
  function Delivering(inputSet: nat -> bool, stray: nat -> Byte): nat -> ReadOutcome {
    (k: nat) => Delivered(inputSet(k), stray)
  }

  /** Every chunk starts before the payload's end. */
  lemma {:induction false} ChunkStarts(offset: nat, size: nat, rwSize: nat, k: nat)
    requires rwSize > 0 && k < |Chunks(offset, size, rwSize)|
    ensures offset + Start(k, rwSize) < size
    decreases k
  {
    ChunksLeft(offset, size, rwSize);
    NextChunk(offset, size, rwSize);
    if k > 0 {
      ChunksLeft(size, size, rwSize);
      ChunkStarts(offset + rwSize, size, rwSize, k - 1);
      NextStart(k - 1, rwSize);
    }
  }

  /** A read that could not set an input is not noticed: every chunk is delivered, so the read succeeds. Whatever
      calls set their input, the bytes are the payload for all stray bytes exactly if all of them did. */
  lemma StrayBytesGoUnnoticed(payload: seq<Byte>, mailbox: seq<Byte>, rwSize: nat, inputSet: nat -> bool)
    requires rwSize > 0 && |payload| <= |mailbox| && mailbox[..|payload|] == payload
    ensures forall k, stray :: Delivering(inputSet, stray)(k).Delivered?
    ensures (forall stray :: ReadsBack(payload, mailbox, rwSize, Delivering(inputSet, stray))) <==>
            (forall k: nat | k < |Chunks(0, |payload|, rwSize)| :: inputSet(k))
  {
    hide Chunks, ByteRead;
    if forall k: nat | k < |Chunks(0, |payload|, rwSize)| :: inputSet(k) {
      forall stray ensures ReadsBack(payload, mailbox, rwSize, Delivering(inputSet, stray)) {
        WrittenReadsBack(payload, mailbox, rwSize, Delivering(inputSet, stray));
      }
    } else {
      var k: nat :| k < |Chunks(0, |payload|, rwSize)| && !inputSet(k);
      ChunkStarts(0, |payload|, rwSize, k);
      var j := Start(k, rwSize);
      var other: Byte := if payload[j] == 0 then 1 else 0;
      OtherByteRead(mailbox, j, k, rwSize, inputSet, _ => other);
      assert !ReadsBack(payload, mailbox, rwSize, Delivering(inputSet, _ => other));
    }
  }

  lemma OtherByteRead(mailbox: seq<Byte>, j: nat, k: nat, rwSize: nat, inputSet: nat -> bool, stray: nat -> Byte)
    requires j < |mailbox| && rwSize > 0 && j == Start(k, rwSize) && !inputSet(k)
    ensures ByteRead(mailbox, j, rwSize, Delivering(inputSet, stray)) == stray(j)
  {
    MultipleMod(k, rwSize);
  }
}
