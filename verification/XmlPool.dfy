/** The memory pool behind a document: a bump allocator over one static chunk and a chain of dynamic
    chunks. Addresses are numbers; what the raw allocator returns is a parameter. */
module XmlPool {
  import opened Arithmetic

  /** A stretch of memory: a chunk of the pool or a block handed out. */
  datatype Extent = Extent(start: nat, size: nat) {
    function End(): nat { start + size }

    predicate Apart(other: Extent) {
      End() <= other.start || other.End() <= start
    }
  }

  /** Alignment of every block, and the size of the header a dynamic chunk starts with. */
  datatype Layout = Layout(alignment: nat, headerSize: nat) {
    predicate Valid() { alignment > 0 && headerSize > 0 }

    /** The masks of the source are remainders, because its alignment is a power of two. */
    function Align(p: nat): (r: nat)
      requires Valid()
      ensures p <= r < p + alignment && r % alignment == 0
      // the least aligned address at or above p
      ensures forall q | p <= q && q % alignment == 0 :: r <= q
    {
      AlignedUp(p, alignment);
      p + (alignment - p % alignment) % alignment
    }

    /** Room for the header and the block, with slack for aligning each. */
    function RawSize(size: nat, dynamicSize: nat): nat
      requires Valid()
    {
      headerSize + (2 * alignment - 2) + (if dynamicSize < size then size else dynamicSize)
    }

    /** First address of a chunk that blocks may use; only the static chunk has no header. */
    function Payload(chunks: seq<Extent>, k: nat): nat
      requires Valid() && k < |chunks|
    {
      if k == 0 then chunks[0].start else Align(chunks[k].start) + headerSize
    }

    ghost predicate InChunk(b: Extent, chunks: seq<Extent>, k: nat)
      requires Valid()
    {
      k < |chunks| && Payload(chunks, k) <= b.start && b.End() <= chunks[k].End()
    }

    /** Chunks lie apart, and each dynamic chunk's header names the chunk before. */
    ghost predicate Linked(chunks: seq<Extent>, memory: map<nat, nat>)
      requires Valid()
    {
      && |chunks| > 0 && chunks[0].size > 0
      && (forall k | 0 < k < |chunks| :: HeaderOf(chunks, k, memory))
      && (forall j, k | 0 <= j < k < |chunks| :: chunks[j].Apart(chunks[k]))
    }

    ghost predicate HeaderOf(chunks: seq<Extent>, k: nat, memory: map<nat, nat>)
      requires Valid() && 0 < k < |chunks|
    {
      var at := Align(chunks[k].start);
      at + headerSize <= chunks[k].End() && at in memory && memory[at] == chunks[k - 1].start
    }

    /** Every block is aligned and lies in the usable part of the live chunk it was cut from, below the
        free space when that is the last chunk; no two blocks overlap. */
    ghost predicate BlocksSafe(blocks: seq<Extent>, home: seq<nat>, chunks: seq<Extent>, free: nat)
      requires Valid()
    {
      && |home| == |blocks|
      && (forall i | 0 <= i < |blocks| :: BlockSafe(blocks[i], home[i], chunks, free))
      && (forall i, j | 0 <= i < j < |blocks| :: blocks[i].Apart(blocks[j]))
    }

    ghost predicate BlockSafe(b: Extent, k: nat, chunks: seq<Extent>, free: nat)
      requires Valid()
    {
      b.start % alignment == 0 && InChunk(b, chunks, k) && (k == |chunks| - 1 ==> b.End() <= free)
    }

    /** A new chunk in fresh memory, with its header, keeps the chain. */
    lemma PushChunk(chunks: seq<Extent>, memory: map<nat, nat>, c: Extent)
      requires Valid() && Linked(chunks, memory)
      requires forall x | x in chunks :: c.Apart(x)
      requires Align(c.start) + headerSize <= c.End()
      ensures Linked(chunks + [c], memory[Align(c.start) := chunks[|chunks| - 1].start])
    {
      var more, m := chunks + [c], memory[Align(c.start) := chunks[|chunks| - 1].start];
      hide Align;
      forall k {:trigger HeaderOf(more, k, m)} | 0 < k < |more| ensures HeaderOf(more, k, m) {
        if k < |chunks| {
          assert HeaderOf(chunks, k, memory) && c.Apart(chunks[k]);
        }
      }
      forall j, k | 0 <= j < k < |more| ensures more[j].Apart(more[k]) {
        if k == |chunks| { assert c.Apart(chunks[j]); }
      }
    }

    /** Blocks stay safe when another chunk becomes the last. */
    lemma BlocksAfterPush(blocks: seq<Extent>, home: seq<nat>, chunks: seq<Extent>, free: nat, c: Extent, free': nat)
      requires Valid() && BlocksSafe(blocks, home, chunks, free)
      ensures BlocksSafe(blocks, home, chunks + [c], free')
    {
      forall i | 0 <= i < |blocks| ensures BlockSafe(blocks[i], home[i], chunks + [c], free') {
        assert BlockSafe(blocks[i], home[i], chunks, free);
      }
    }

    /** A block cut from the free space of the last chunk overlaps nothing handed out before. */
    lemma PushBlock(blocks: seq<Extent>, home: seq<nat>, chunks: seq<Extent>, memory: map<nat, nat>, free: nat, b: Extent)
      requires Valid() && Linked(chunks, memory) && BlocksSafe(blocks, home, chunks, free)
      requires b.start % alignment == 0 && free <= b.start && InChunk(b, chunks, |chunks| - 1)
      ensures BlocksSafe(blocks + [b], home + [|chunks| - 1], chunks, b.End())
    {
      var more, homes := blocks + [b], home + [|chunks| - 1];
      forall i | 0 <= i < |more| ensures BlockSafe(more[i], homes[i], chunks, b.End()) {
        if i < |blocks| { assert BlockSafe(blocks[i], home[i], chunks, free); }
      }
      forall i | 0 <= i < |blocks| ensures blocks[i].Apart(b) {
        assert BlockSafe(blocks[i], home[i], chunks, free);
        if home[i] < |chunks| - 1 {
          InsideChunk(blocks[i], chunks, home[i], memory);
          InsideChunk(b, chunks, |chunks| - 1, memory);
          assert chunks[home[i]].Apart(chunks[|chunks| - 1]);
        }
      }
    }

    lemma InsideChunk(b: Extent, chunks: seq<Extent>, k: nat, memory: map<nat, nat>)
      requires Valid() && Linked(chunks, memory) && InChunk(b, chunks, k)
      ensures chunks[k].start <= b.start && b.End() <= chunks[k].End()
    {
    }

    /** Whatever is stored inside a block, every header keeps naming the chunk before. */
    lemma StoreKeepsHeaders(blocks: seq<Extent>, home: seq<nat>, chunks: seq<Extent>, memory: map<nat, nat>, free: nat,
                            i: nat, address: nat, value: nat)
      requires Valid() && Linked(chunks, memory) && BlocksSafe(blocks, home, chunks, free)
      requires i < |blocks| && blocks[i].start <= address < blocks[i].End()
      ensures Linked(chunks, memory[address := value])
    {
      var m := memory[address := value];
      forall k | 0 < k < |chunks| ensures HeaderOf(chunks, k, m) {
        assert HeaderOf(chunks, k, memory);
        assert BlockSafe(blocks[i], home[i], chunks, free);
        InsideChunk(blocks[i], chunks, home[i], memory);
        var j := home[i];
        if j < k { assert chunks[j].Apart(chunks[k]); }
        if k < j { assert chunks[k].Apart(chunks[j]); }
      }
    }

    /** No two chunks start at the same address. */
    lemma StartsDiffer(chunks: seq<Extent>, memory: map<nat, nat>, j: nat, k: nat)
      requires Valid() && Linked(chunks, memory) && j < k < |chunks|
      ensures chunks[j].start != chunks[k].start
    {
      assert chunks[j].Apart(chunks[k]);
      assert HeaderOf(chunks, k, memory);
      if j > 0 { assert HeaderOf(chunks, j, memory); }
    }
  }

  lemma AlignedUp(p: nat, a: nat)
    requires a > 0
    ensures (p + (a - p % a) % a) % a == 0
    ensures forall q | p <= q && q % a == 0 :: p + (a - p % a) % a <= q
  {
    var k := p / a;
    if p % a == 0 {
      DivModUnique(a - p % a, 1, 0, a);
    } else {
      DivModUnique(a - p % a, 0, a - p % a, a);
      assert p + (a - p % a) == (k + 1) * a;
      MultipleMod(k + 1, a);
      forall q | p <= q && q % a == 0 ensures (k + 1) * a <= q {
        if q / a <= k {
          Scale(q / a, k, a);
        } else {
          Scale(k + 1, q / a, a);
        }
      }
    }
  }

  class MemoryPool {
    const layout: Layout
    const staticMemory: Extent
    const dynamicSize: nat

    var begin: nat
    var ptr: nat
    var end: nat

    /** Pointers stored in memory, by address: the chunk headers and whatever callers put in their blocks. */
    var memory: map<nat, nat>

    /** Live chunks, the static one first. */
    ghost var chunks: seq<Extent>

    /** Every block handed out since the pool was last cleared, and the chunk it was cut from. */
    ghost var blocks: seq<Extent>
    ghost var home: seq<nat>

    ghost predicate Valid()
      reads this
    {
      && layout.Valid() && staticMemory.size >= layout.alignment
      && layout.Linked(chunks, memory) && |chunks| > 0 && chunks[0] == staticMemory
      && var last := chunks[|chunks| - 1];
      && begin == last.start && end == last.End()
      && layout.Payload(chunks, |chunks| - 1) <= ptr <= end
      && layout.BlocksSafe(blocks, home, chunks, ptr)
    }

    constructor (layout: Layout, staticMemory: Extent, dynamicSize: nat)
      requires layout.Valid() && staticMemory.size >= layout.alignment
      ensures Valid() && blocks == [] && chunks == [staticMemory]
      ensures this.layout == layout && this.staticMemory == staticMemory && this.dynamicSize == dynamicSize
    {
      this.layout, this.staticMemory, this.dynamicSize := layout, staticMemory, dynamicSize;
      begin, ptr, end, memory := 0, 0, 0, map[];
      chunks, blocks, home := [], [], [];
      new;
      Init();
    }

    /** Back to the empty static chunk. */
    method Init()
      requires layout.Valid() && staticMemory.size >= layout.alignment
      modifies this
      ensures Valid() && blocks == [] && chunks == [staticMemory] && memory == old(memory)
    {
      begin := staticMemory.start;
      ptr := layout.Align(begin);
      end := staticMemory.End();
      chunks, blocks, home := [staticMemory], [], [];
    }

    predicate Fits(size: nat)
      requires layout.Valid()
      reads this
    {
      layout.Align(ptr) + size <= end
    }

    /** Makes a new chunk at raw the current one. */
    method Grow(size: nat, raw: nat)
      requires Valid()
      requires forall c | c in chunks :: Extent(raw, layout.RawSize(size, dynamicSize)).Apart(c)
      modifies this`begin, this`ptr, this`end, this`memory, this`chunks
      ensures Valid() && chunks == old(chunks) + [Extent(raw, layout.RawSize(size, dynamicSize))]
      ensures memory == old(memory)[layout.Align(raw) := old(begin)]
      // the slack for two alignments always suffices, and leaves room for a whole chunk of small blocks
      ensures Fits(size) && Fits(dynamicSize)
      ensures ptr == layout.Align(raw) + layout.headerSize
    {
      hide Layout.Linked, Layout.BlocksSafe, Layout.Align;
      var poolSize := dynamicSize;
      if poolSize < size { poolSize := size; }
      var allocSize := layout.headerSize + (2 * layout.alignment - 2) + poolSize;
      var pool := layout.Align(raw);
      ghost var c := Extent(raw, allocSize);
      layout.PushChunk(chunks, memory, c);
      layout.BlocksAfterPush(blocks, home, chunks, ptr, c, pool + layout.headerSize);
      memory := memory[pool := begin];
      begin := raw;
      ptr := pool + layout.headerSize;
      end := raw + allocSize;
      chunks := chunks + [c];
    }

    /** Allocates a block; raw is where the raw allocator puts a new chunk, should one be needed. */
    method AllocateAligned(size: nat, raw: nat) returns (result: nat)
      requires Valid()
      // the raw allocator returns memory apart from all that is live
      requires !Fits(size) ==> forall c | c in chunks :: Extent(raw, layout.RawSize(size, dynamicSize)).Apart(c)
      modifies this
      ensures Valid()
      ensures blocks == old(blocks) + [Extent(result, size)]
      ensures chunks == old(chunks) +
                if old(Fits(size)) then [] else [Extent(raw, layout.RawSize(size, dynamicSize))]
      ensures memory == if old(Fits(size)) then old(memory) else old(memory)[layout.Align(raw) := old(begin)]
      // no more is skipped than alignment needs
      ensures result == layout.Align(if old(Fits(size)) then old(ptr) else layout.Align(raw) + layout.headerSize)
      ensures ptr == result + size
    {
      hide Layout.Linked, Layout.BlocksSafe, Layout.Align, Layout.RawSize;
      result := layout.Align(ptr);
      if result + size > end {
        Grow(size, raw);
        result := layout.Align(ptr);
      }
      ghost var b := Extent(result, size);
      ghost var last: nat := |chunks| - 1;
      layout.PushBlock(blocks, home, chunks, memory, ptr, b);
      ptr := result + size;
      blocks, home := blocks + [b], home + [last];
    }

    /** A caller stores a pointer in its block. */
    method Store(ghost i: nat, address: nat, value: nat)
      requires Valid() && i < |blocks| && blocks[i].start <= address < blocks[i].End()
      modifies this`memory
      ensures Valid() && memory == old(memory)[address := value]
    {
      hide Layout.Linked, Layout.BlocksSafe;
      layout.StoreKeepsHeaders(blocks, home, chunks, memory, ptr, i, address, value);
      memory := memory[address := value];
    }

    /** Frees the dynamic chunks and starts over with the static one; returns what was freed, in order. */
    method Clear() returns (freed: seq<nat>)
      requires Valid()
      modifies this
      ensures Valid() && blocks == [] && chunks == [staticMemory]
      // every dynamic chunk exactly once, newest first, and the static one never
      ensures |freed| == |old(chunks)| - 1
      ensures forall k | 0 <= k < |freed| :: freed[k] == old(chunks)[|freed| - k].start
      ensures forall j, k | 0 <= j < k < |freed| :: freed[j] != freed[k]
      ensures staticMemory.start !in freed
    {
      hide Layout.BlocksSafe;
      freed := [];
      ghost var all, live := chunks, |chunks|;
      forall j, k | 0 <= j < k < |all| ensures all[j].start != all[k].start {
        layout.StartsDiffer(all, memory, j, k);
      }
      while begin != staticMemory.start
        invariant 0 < live <= |all| && all == chunks == old(chunks) && memory == old(memory)
        invariant begin == all[live - 1].start
        invariant |freed| == |all| - live
        invariant forall k | 0 <= k < |freed| :: freed[k] == all[|all| - 1 - k].start
        decreases live
      {
        assert layout.HeaderOf(all, live - 1, memory);
        var previousBegin := memory[layout.Align(begin)];
        freed := freed + [begin];
        begin := previousBegin;
        live := live - 1;
      }
      Init();
    }
  }
}
