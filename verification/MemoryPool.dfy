/** The memory pool of the JSON library: a bump allocator over chunks, with in-place growth of the
    newest block. Sizes are 64-bit words and wrap around. */
module MemoryPool {
  import opened Wrappers

  const WORD: nat := 0x1_0000_0000_0000_0000
  const HEADER: nat := 24  // the size of a chunk header

  /** A multiple of eight. */
  predicate Aligned(n: nat) {
    n == 0 || (n >= 8 && Aligned(n - 8))
  }

  lemma {:induction false} AlignedIsMultiple(n: nat)
    ensures Aligned(n) <==> n % 8 == 0
  {
    if n >= 8 {
      AlignedIsMultiple(n - 8);
    }
  }

  lemma {:induction false} AlignedSum(m: nat, n: nat)
    requires Aligned(m) && Aligned(n)
    ensures Aligned(m + n) && (m <= n ==> Aligned(n - m))
  {
    if m > 0 {
      AlignedSum(m - 8, n);
      if m <= n {
        AlignedSum(m - 8, n - 8);
      }
    }
  }

  /** Round up to a multiple of eight, in word arithmetic. */
  function Align(n: nat): (r: nat)
    ensures Aligned(r)
  {
    var r := (n + 7) % WORD / 8 * 8;
    AlignedIsMultiple(r);
    r
  }

  /** `base` is the address of the first usable byte; `size` bytes of it are in use. */
  datatype Chunk = Chunk(base: nat, capacity: nat, size: nat) {

    function End(): (r: nat) {
      base + size
    }
  }

  datatype Block = Block(addr: nat, size: nat) {

    predicate Apart(other: Block) {
      addr + size <= other.addr || other.addr + other.size <= addr
    }

    /** Inside the used part of a chunk. */
    predicate Inside(c: Chunk) {
      c.base <= addr && addr + size <= c.End()
    }
  }

  predicate ChunkValid(c: Chunk) {
    && Aligned(c.base) && Aligned(c.size) && c.size <= c.capacity < WORD
    && HEADER <= c.base && c.base + c.capacity <= WORD
  }

  /** A chunk's header lies in front of its first usable byte. */
  predicate ChunksApart(c: Chunk, d: Chunk) {
    c.base + c.capacity + HEADER <= d.base || d.base + d.capacity + HEADER <= c.base
  }

  /** The newest chunk comes first. */
  predicate ChunksValid(chunks: seq<Chunk>) {
    && chunks != []
    && (forall i :: 0 <= i < |chunks| ==> ChunkValid(chunks[i]))
    && forall i, j :: 0 <= i < j < |chunks| ==> ChunksApart(chunks[i], chunks[j])
  }

  /** Blocks are aligned, lie inside a chunk and do not overlap. */
  ghost predicate BlocksValid(chunks: seq<Chunk>, live: set<Block>) {
    && (forall b :: b in live ==> Aligned(b.addr) && Aligned(b.size) && b.size > 0 && InSome(chunks, b))
    && forall b, c :: b in live && c in live && b != c ==> b.Apart(c)
  }

  ghost predicate InSome(chunks: seq<Chunk>, b: Block) {
    exists i :: 0 <= i < |chunks| && b.Inside(chunks[i])
  }

  // ----- when a request wraps around

  /** Neither the rounding of a request nor its sum with the used size wraps around. */
  predicate Served(head: Chunk, size: nat) {
    size + 7 < WORD && head.size + Align(size) < WORD
  }

  /** Where a request is served from the head chunk: the address, and the used size afterwards. */
  function Bump(head: Chunk, size: nat): (r: (nat, Chunk)) {
    (head.End(), head.(size := (head.size + size) % WORD))
  }

  /** The head chunk serves a request when the sum, in word arithmetic, does not exceed the capacity. */
  predicate FitsHead(head: Chunk, size: nat) {
    (head.size + size) % WORD <= head.capacity
  }

  /** The capacity of a chunk that is added for an aligned request. */
  function ChunkFor(chunkCapacity: nat, size: nat): (r: nat) {
    if chunkCapacity > size then chunkCapacity else size
  }

  /** What the base allocator is asked for to get a chunk: the header counts, in word arithmetic. */
  function Asked(capacity: nat): (r: nat) {
    (HEADER + capacity) % WORD
  }

  /** The requests that the pool serves faithfully: nothing wraps around, neither in the head chunk nor in
      what the base allocator is asked for. */
  predicate Serving(head: Chunk, size: nat, chunkCapacity: nat) {
    && Served(head, size)
    && (!FitsHead(head, Align(size)) ==> HEADER + ChunkFor(chunkCapacity, Align(size)) < WORD)
  }

  /** The end of the room that a request is served from: the head chunk, or what the base allocator gives
      behind the header of a new chunk at `base`. */
  function RoomEnd(head: Chunk, size: nat, chunkCapacity: nat, base: nat): (r: int) {
    if FitsHead(head, Align(size)) then head.base + head.capacity
    else base - HEADER + Asked(ChunkFor(chunkCapacity, Align(size)))
  }

  /** On both ways a request is served faithfully exactly when the block covers it and lies in that room. */
  lemma ServingIsExact(head: Chunk, size: nat, chunkCapacity: nat, base: nat)
    requires SaneChunk(head) && 0 < size < WORD && chunkCapacity < WORD
    ensures var addr := if FitsHead(head, Align(size)) then head.End() else base;
            Serving(head, size, chunkCapacity)
            <==> size <= Align(size) && addr + Align(size) <= RoomEnd(head, size, chunkCapacity, base)
  {
    AlignExact(size);
    var s := Align(size);
    if head.size + s >= WORD {
      assert (head.size + s) % WORD == head.size + s - WORD;
    }
    var capacity := ChunkFor(chunkCapacity, s);
    if HEADER + capacity >= WORD {
      assert Asked(capacity) == HEADER + capacity - WORD;
    }
  }

  /** Alignment adds at most seven bytes, unless the request is among the last seven words, which are
      rounded to nothing. */
  lemma AlignExact(n: nat)
    requires n < WORD
    ensures n + 7 < WORD ==> n <= Align(n) < n + 8
    ensures n + 7 >= WORD ==> Align(n) == 0
  {
    if n + 7 >= WORD {
      assert (n + 7) % WORD == n + 7 - WORD < 7;
    }
  }

  /** A request that wraps: the pool answers with a block that reaches beyond its chunk. */
  lemma OverrunExample()
    ensures var head, size := Chunk(64, 65536, 16), WORD - 16;
            var (addr, head') := Bump(head, Align(size));
            && ChunkValid(head) && size < WORD && FitsHead(head, Align(size)) && !Served(head, size)
            && !Block(addr, Align(size)).Inside(Chunk(64, 65536, 65536)) && head'.size == 0
  {
  }

  /** A request whose chunk wraps: a new pool asks the base allocator for eight bytes, less than the header
      of the chunk, and answers with a block of almost all the memory there is. */
  lemma HeaderOverrunExample(base: nat)
    ensures var head, size, chunkCapacity := Chunk(64, 0, 0), WORD - 16, 65536;
            && ChunkValid(head) && Served(head, size) && !FitsHead(head, Align(size))
            && Asked(ChunkFor(chunkCapacity, Align(size))) == 8 && !Serving(head, size, chunkCapacity)
            && base + Align(size) > RoomEnd(head, size, chunkCapacity, base)
  {
  }

  // ----- totals

  function SumSize(chunks: seq<Chunk>): (r: nat) {
    if chunks == [] then 0 else chunks[0].size + SumSize(chunks[1..])
  }

  function SumCapacity(chunks: seq<Chunk>): (r: nat) {
    if chunks == [] then 0 else chunks[0].capacity + SumCapacity(chunks[1..])
  }

  /** Used within its capacity. */
  predicate SaneChunk(c: Chunk) {
    c.size <= c.capacity < WORD
  }

  /** What every state has, also after requests that wrapped around. */
  predicate Sane(chunks: seq<Chunk>) {
    chunks != [] && forall i :: 0 <= i < |chunks| ==> SaneChunk(chunks[i])
  }

  lemma {:induction false} SizeWithinCapacity(chunks: seq<Chunk>)
    requires forall i :: 0 <= i < |chunks| ==> SaneChunk(chunks[i])
    ensures SumSize(chunks) <= SumCapacity(chunks)
  {
    if chunks != [] {
      SizeWithinCapacity(chunks[1..]);
    }
  }

  /** Removing one chunk from the totals. */
  lemma {:induction false} SumWithout(chunks: seq<Chunk>, k: nat)
    requires k < |chunks|
    ensures SumCapacity(chunks) == chunks[k].capacity + SumCapacity(chunks[..k] + chunks[k + 1..])
    decreases |chunks|
  {
    var rest := chunks[..k] + chunks[k + 1..];
    if k == 0 {
      assert rest == chunks[1..];
    } else {
      SumWithout(chunks[1..], k - 1);
      assert rest[1..] == chunks[1..][..k - 1] + chunks[1..][k..];
    }
  }

  lemma {:induction false} HighestChunk(chunks: seq<Chunk>) returns (k: nat)
    requires chunks != []
    ensures k < |chunks| && forall i :: 0 <= i < |chunks| ==> chunks[i].base <= chunks[k].base
    decreases |chunks|
  {
    k := |chunks| - 1;
    if |chunks| > 1 {
      var j := HighestChunk(chunks[..k]);
      k := if chunks[j].base > chunks[k].base then j else k;
    }
  }

  /** Without the highest chunk, the others do not overlap and end in front of its header. */
  lemma {:induction false} BelowHighest(chunks: seq<Chunk>, k: nat)
    requires k < |chunks| && forall i :: 0 <= i < |chunks| ==> HEADER <= chunks[i].base <= chunks[k].base
    requires forall i, j :: 0 <= i < j < |chunks| ==> ChunksApart(chunks[i], chunks[j])
    ensures var top, rest := chunks[k], chunks[..k] + chunks[k + 1..];
            && top.base >= HEADER
            && (forall i :: 0 <= i < |rest| ==>
                  HEADER <= rest[i].base && rest[i].base + rest[i].capacity <= top.base - HEADER)
            && forall i, j :: 0 <= i < j < |rest| ==> ChunksApart(rest[i], rest[j])
  {
    var top, rest := chunks[k], chunks[..k] + chunks[k + 1..];
    forall i | 0 <= i < |rest| ensures HEADER <= rest[i].base && rest[i].base + rest[i].capacity <= top.base - HEADER {
      var j := if i < k then i else i + 1;
      assert rest[i] == chunks[j];
      assert if j < k then ChunksApart(chunks[j], top) else ChunksApart(top, chunks[j]);
    }
    forall i, j | 0 <= i < j < |rest| ensures ChunksApart(rest[i], rest[j]) {
      assert rest[i] == chunks[if i < k then i else i + 1] && rest[j] == chunks[if j < k then j else j + 1];
    }
  }

  /** Chunks with their headers that do not overlap and end at `end` or before have no more room than that. */
  lemma {:induction false} DisjointFit(chunks: seq<Chunk>, end: nat)
    requires forall i :: 0 <= i < |chunks| ==> HEADER <= chunks[i].base && chunks[i].base + chunks[i].capacity <= end
    requires forall i, j :: 0 <= i < j < |chunks| ==> ChunksApart(chunks[i], chunks[j])
    ensures SumCapacity(chunks) + HEADER * |chunks| <= end
    decreases |chunks|
  {
    if chunks != [] {
      var k := HighestChunk(chunks);
      var top, rest := chunks[k], chunks[..k] + chunks[k + 1..];
      SumWithout(chunks, k);
      BelowHighest(chunks, k);
      DisjointFit(rest, top.base - HEADER);
    }
  }

  /** The totals as words. */
  function SizeWord(chunks: seq<Chunk>): (r: nat) {
    SumSize(chunks) % WORD
  }

  function CapacityWord(chunks: seq<Chunk>): (r: nat) {
    SumCapacity(chunks) % WORD
  }

  /** As long as every chunk is really there, the totals do not wrap around and the size is within the
      capacity. */
  lemma {:induction false} TotalsAreExact(chunks: seq<Chunk>)
    requires ChunksValid(chunks)
    ensures SizeWord(chunks) == SumSize(chunks) <= SumCapacity(chunks) == CapacityWord(chunks) < WORD
  {
    SizeWithinCapacity(chunks);
    DisjointFit(chunks, WORD);
  }

  // ----- the changes

  /** The base allocator's answer: `asked` bytes of the address space that no chunk uses, with the header in
      front of `base`. */
  predicate Granted(chunks: seq<Chunk>, base: nat, asked: nat) {
    && Aligned(base) && HEADER <= base && base - HEADER + asked <= WORD
    && forall i :: 0 <= i < |chunks| ==>
         base + asked <= chunks[i].base || chunks[i].base + chunks[i].capacity + HEADER <= base
  }

  lemma AddChunkKeeps(chunks: seq<Chunk>, live: set<Block>, base: nat, capacity: nat)
    requires ChunksValid(chunks) && BlocksValid(chunks, live) && capacity < WORD
    requires Granted(chunks, base, HEADER + capacity)
    ensures ChunksValid([Chunk(base, capacity, 0)] + chunks)
    ensures BlocksValid([Chunk(base, capacity, 0)] + chunks, live)
  {
    var chunks' := [Chunk(base, capacity, 0)] + chunks;
    forall b | b in live ensures InSome(chunks', b) {
      var i :| 0 <= i < |chunks| && b.Inside(chunks[i]);
      assert b.Inside(chunks'[i + 1]);
    }
  }

  /** Using more of the head chunk keeps what was in use. */
  lemma ExtendKeeps(chunks: seq<Chunk>, live: set<Block>, size: nat, chunks': seq<Chunk>)
    requires ChunksValid(chunks) && BlocksValid(chunks, live)
    requires chunks[0].size <= size <= chunks[0].capacity && Aligned(size)
    requires chunks' == chunks[0 := chunks[0].(size := size)]
    ensures ChunksValid(chunks') && BlocksValid(chunks', live)
  {
    forall i, j | 0 <= i < j < |chunks'| ensures ChunksApart(chunks'[i], chunks'[j]) {
      assert ChunksApart(chunks[i], chunks[j]);
    }
    forall b | b in live ensures InSome(chunks', b) {
      var i :| 0 <= i < |chunks| && b.Inside(chunks[i]);
      assert b.Inside(chunks'[i]);
    }
  }

  /** What lies behind the used part of the head chunk is apart from every block. */
  lemma BehindHead(chunks: seq<Chunk>, live: set<Block>, b: Block, end: nat)
    requires ChunksValid(chunks) && BlocksValid(chunks, live) && b in live
    requires chunks[0].End() <= end <= chunks[0].base + chunks[0].capacity
    ensures b.addr + b.size <= chunks[0].End() || end <= b.addr
  {
    var i :| 0 <= i < |chunks| && b.Inside(chunks[i]);
    assert i > 0 ==> ChunksApart(chunks[0], chunks[i]);
  }

  predicate Room(head: Chunk, size: nat) {
    Aligned(size) && size > 0 && head.size + size <= head.capacity
  }

  /** A served request that the head chunk takes has room there. */
  lemma ServedFits(head: Chunk, size: nat)
    requires SaneChunk(head) && 0 < size < WORD
    ensures Served(head, size) ==> size <= Align(size) && (FitsHead(head, Align(size)) <==> Room(head, Align(size)))
    ensures !Served(head, size) ==> FitsHead(head, Align(size))
  {
    AlignExact(size);
    if head.size + Align(size) >= WORD {
      assert (head.size + Align(size)) % WORD == head.size + Align(size) - WORD;
    }
  }

  /** Whether a wrapped sum fits, for a sum of two words. */
  lemma SumDecided(used: nat, more: nat, capacity: nat)
    requires used <= capacity < WORD && more < WORD
    ensures used + more < WORD ==> (used + more) % WORD == used + more
    ensures used + more >= WORD ==> (used + more) % WORD < used
  {
    if used + more >= WORD {
      assert (used + more) % WORD == used + more - WORD;
    }
  }

  lemma BumpExact(head: Chunk, size: nat)
    requires ChunkValid(head) && Room(head, size)
    ensures Bump(head, size).1 == head.(size := head.size + size)
    ensures Aligned(head.size + size) && Aligned(head.End())
  {
    AlignedSum(head.size, size);
    AlignedSum(head.base, head.size);
  }

  lemma BumpKeeps(chunks: seq<Chunk>, live: set<Block>, size: nat, block: Block, chunks': seq<Chunk>)
    requires ChunksValid(chunks) && BlocksValid(chunks, live) && Room(chunks[0], size)
    requires block == Block(chunks[0].End(), size) && chunks' == chunks[0 := Bump(chunks[0], size).1]
    ensures Aligned(block.addr) && block !in live && block.Inside(chunks'[0])
    ensures ChunksValid(chunks') && BlocksValid(chunks', live + {block})
    ensures forall b :: b in live ==> b.Apart(block)
  {
    BumpExact(chunks[0], size);
    ExtendKeeps(chunks, live, chunks[0].size + size, chunks');
    forall b | b in live ensures b.Apart(block) {
      BehindHead(chunks, live, b, block.addr + size);
    }
    assert block !in live;
    ReplaceKeeps(chunks', live, block, block);
    assert live - {block} + {block} == live + {block};
  }

  lemma GrowKeeps(chunks: seq<Chunk>, live: set<Block>, block: Block, size: nat, used: nat, chunks': seq<Chunk>)
    requires ChunksValid(chunks) && BlocksValid(chunks, live) && block in live
    requires block.addr + block.size == chunks[0].End() && chunks[0].base <= block.addr
    requires Aligned(size) && block.size < size && block.addr + size <= chunks[0].base + chunks[0].capacity
    requires used == chunks[0].size + (size - block.size) && chunks' == chunks[0 := chunks[0].(size := used)]
    ensures ChunksValid(chunks') && BlocksValid(chunks', live - {block} + {Block(block.addr, size)})
    ensures forall b :: b in live && b != block ==> b.Apart(Block(block.addr, size))
  {
    var grown := Block(block.addr, size);
    AlignedSum(block.size, size);
    AlignedSum(chunks[0].size, size - block.size);
    ExtendKeeps(chunks, live, used, chunks');
    forall b | b in live && b != block ensures b.Apart(grown) {
      GrownApart(chunks, live, block, size, b);
    }
    ReplaceKeeps(chunks', live, block, grown);
  }

  lemma GrownApart(chunks: seq<Chunk>, live: set<Block>, block: Block, size: nat, b: Block)
    requires ChunksValid(chunks) && BlocksValid(chunks, live) && block in live && b in live && b != block
    requires block.addr + block.size == chunks[0].End() && chunks[0].base <= block.addr
    requires block.size < size && block.addr + size <= chunks[0].base + chunks[0].capacity
    ensures b.Apart(Block(block.addr, size))
  {
    BehindHead(chunks, live, b, block.addr + size);
    assert b.Apart(block);
  }

  lemma ReplaceKeeps(chunks: seq<Chunk>, live: set<Block>, block: Block, grown: Block)
    requires chunks != [] && BlocksValid(chunks, live) && Aligned(grown.addr) && Aligned(grown.size) && grown.size > 0
    requires grown.Inside(chunks[0]) && forall b :: b in live && b != block ==> b.Apart(grown)
    ensures BlocksValid(chunks, live - {block} + {grown})
  {
    assert InSome(chunks, grown);
  }

  type Bytes = nat -> int

  function Copied(memory: Bytes, to: nat, from: nat, n: nat): (r: Bytes) {
    (a: nat) => if to <= a < to + n then memory(from + (a - to)) else memory(a)
  }

  ghost predicate SameBytes(was: Bytes, from: nat, now: Bytes, to: nat, n: nat) {
    forall a: nat :: from <= a < from + n ==> was(a) == now(to + (a - from))
  }

  ghost predicate Untouched(was: Bytes, now: Bytes, blocks: set<Block>) {
    forall b, a: nat :: b in blocks && b.addr <= a < b.addr + b.size ==> now(a) == was(a)
  }

  /** Copying the contents of a block to a new block changes no block that was live. */
  lemma MoveKeeps(
    chunks: seq<Chunk>, before: set<Block>, live: set<Block>, block: Block, n: nat, grown: Block, memory: Bytes)
    requires block in before && live == before + {grown} && BlocksValid(chunks, live) && grown !in before
    requires n <= block.size && n <= grown.size
    ensures BlocksValid(chunks, live - {block}) && live - {block} == before - {block} + {grown}
    ensures grown.addr != block.addr
    ensures SameBytes(memory, block.addr, Copied(memory, grown.addr, block.addr, n), grown.addr, n)
    ensures Untouched(memory, Copied(memory, grown.addr, block.addr, n), before)
  {
    assert block.Apart(grown);
    forall b | b in before ensures b.Apart(grown) {
    }
  }

  class Pool {
    const chunkCapacity: nat
    var chunks: seq<Chunk>
    var memory: Bytes
    ghost var live: set<Block>  // the blocks that callers hold

    ghost predicate Valid()
      reads this
    {
      chunkCapacity < WORD && ChunksValid(chunks) && BlocksValid(chunks, live)
    }

    /** A pool whose first chunk is a user buffer, or the empty chunk. */
    constructor (chunkCapacity: nat, first: Chunk, memory: Bytes)
      requires chunkCapacity < WORD && ChunkValid(first) && first.size == 0
      ensures Valid() && live == {} && chunks == [first] && this.chunkCapacity == chunkCapacity
    {
      this.chunkCapacity, this.memory := chunkCapacity, memory;
      chunks, live := [first], {};
    }

    predicate NeedsChunk(size: nat)
      requires chunks != []
      reads this
    {
      size > 0 && !FitsHead(chunks[0], Align(size))
    }

    predicate Serves(size: nat)
      requires chunks != []
      reads this
    {
      Serving(chunks[0], size, chunkCapacity)
    }

    /** If the base allocator is asked and answers, it gives what it was asked for. */
    ghost predicate Honest(grant: Option<nat>, size: nat)
      requires chunks != []
      reads this
    {
      grant.Some? && NeedsChunk(size) ==> Granted(chunks, grant.value, Asked(ChunkFor(chunkCapacity, Align(size))))
    }

    /** The chunks from which a request is served. */
    function WithRoom(size: nat, grant: Option<nat>): (r: seq<Chunk>)
      requires chunks != []
      reads this
      ensures r != []
    {
      if NeedsChunk(size) && grant.Some? then [Chunk(grant.value, ChunkFor(chunkCapacity, Align(size)), 0)] + chunks
      else chunks
    }

    /** `grant` is what the base allocator answers if it is asked for a chunk. The first four clauses
        describe all requests, the last those that are served faithfully. */
    method Malloc(size: nat, grant: Option<nat>) returns (r: Option<nat>)
      requires Sane(chunks) && chunkCapacity < WORD && size < WORD
      modifies this`chunks, this`live
      ensures Sane(chunks)
      ensures r.None? <==> size == 0 || (old(NeedsChunk(size)) && grant.None?)
      ensures r.None? ==> chunks == old(chunks) && live == old(live)
      ensures r.Some? ==>
                var room := old(WithRoom(size, grant));
                && r.value == room[0].End() && chunks == room[0 := Bump(room[0], Align(size)).1]
                && live == old(live) + {Block(r.value, Align(size))}
      ensures old(Valid() && Serves(size) && Honest(grant, size)) ==>
                Valid() && (r.Some? ==> NewBlock(old(live), Block(r.value, Align(size)), size))
    {
      if size == 0 {
        return None;
      }
      ServedFits(chunks[0], size);
      var aligned := Align(size);
      if NeedsChunk(size) {
        var added := AddChunk(ChunkFor(chunkCapacity, aligned), grant);
        if !added {
          return None;
        }
      }
      var buffer := Take(aligned);
      r := Some(buffer);
    }

    /** A block that covers a request, in the head chunk and apart from all others. */
    ghost predicate NewBlock(before: set<Block>, block: Block, size: nat)
      requires chunks != []
      reads this
    {
      && block !in before && live == before + {block}
      && size <= block.size && Aligned(block.addr) && block.Inside(chunks[0])
      && forall b :: b in before ==> b.Apart(block)
    }

    /** Asks the base allocator for a chunk and its header. */
    method AddChunk(capacity: nat, grant: Option<nat>) returns (added: bool)
      modifies this`chunks
      ensures added == grant.Some?
      ensures chunks == if added then [Chunk(grant.value, capacity, 0)] + old(chunks) else old(chunks)
      ensures added && old(Valid()) && HEADER + capacity < WORD
              && Granted(old(chunks), grant.value, Asked(capacity)) ==>
                Valid()
    {
      if grant.None? {
        return false;
      }
      ghost var asked := Asked(capacity);
      if Valid() && HEADER + capacity < WORD && Granted(chunks, grant.value, asked) {
        AddChunkKeeps(chunks, live, grant.value, capacity);
      }
      chunks := [Chunk(grant.value, capacity, 0)] + chunks;
      added := true;
    }

    /** Hand out the first free bytes of the head chunk. */
    method Take(size: nat) returns (buffer: nat)
      requires Sane(chunks) && FitsHead(chunks[0], size)
      modifies this`chunks, this`live
      ensures Sane(chunks)
      ensures buffer == old(chunks)[0].End() && chunks == old(chunks)[0 := Bump(old(chunks)[0], size).1]
      ensures live == old(live) + {Block(buffer, size)}
      ensures old(Valid() && Room(chunks[0], size)) ==>
                && Valid() && Aligned(buffer)
                && var block := Block(buffer, size);
                block !in old(live) && block.Inside(chunks[0]) && forall b :: b in old(live) ==> b.Apart(block)
    {
      ghost var valid := Valid() && Room(chunks[0], size);
      if valid {
        BumpKeeps(chunks, live, size, Block(chunks[0].End(), size), chunks[0 := Bump(chunks[0], size).1]);
      }
      buffer := chunks[0].End();
      chunks := chunks[0 := Bump(chunks[0], size).1];
      live := live + {Block(buffer, size)};
    }

    /** The newest block of the head chunk grows in place when there is room; any other block that has
        to grow is copied. Nothing is ever freed: the caller gives up the old block. The first clauses
        describe all requests, the last two those that are served faithfully. */
    method Realloc(block: Block, originalSize: nat, newSize: nat, grant: Option<nat>) returns (r: Option<nat>)
      requires Sane(chunks) && chunkCapacity < WORD && originalSize < WORD && newSize < WORD
      modifies this
      ensures Sane(chunks)
      ensures r.None? <==>
                || newSize == 0
                || (&& Align(originalSize) < Align(newSize) && old(NeedsChunk(newSize)) && grant.None?
                    && !old(TakesInPlace(block, Align(originalSize), Align(newSize))))
      ensures r.None? || Align(newSize) <= Align(originalSize) ==>
                live == old(live) && chunks == old(chunks) && memory == old(memory)
      ensures 0 < newSize && Align(newSize) <= Align(originalSize) ==> r == Some(block.addr)
      ensures 0 < newSize && old(TakesInPlace(block, Align(originalSize), Align(newSize))) ==>
                && r == Some(block.addr) && memory == old(memory)
                && var more := Align(newSize) - Align(originalSize);
                   chunks == old(chunks)[0 := old(chunks)[0].(size := (old(chunks)[0].size + more) % WORD)]
      ensures r.Some? && Align(newSize) > Align(originalSize)
              && !old(TakesInPlace(block, Align(originalSize), Align(newSize))) ==>
                var room := old(WithRoom(newSize, grant));
                && r.value == room[0].End() && chunks == room[0 := Bump(room[0], Align(newSize)).1]
                && memory == Copied(old(memory), r.value, block.addr, Align(originalSize))
      ensures old(Reallocates(block, Align(originalSize), newSize, grant)) ==> Valid()
      ensures old(Reallocates(block, Align(originalSize), newSize, grant)) && r.Some?
              && Align(newSize) > Align(originalSize) ==>
                && MovedTo(old(memory), old(live), block, Align(originalSize), Block(r.value, Align(newSize)))
                && newSize <= Align(newSize)
                && (r.value == block.addr <==> old(GrowsInPlace(block, Align(originalSize), Align(newSize))))
    {
      if newSize == 0 {
        return None;
      }
      var original, size := Align(originalSize), Align(newSize);
      if original >= size {
        return Some(block.addr);
      }
      GrowthDecided(block, original, newSize, grant);
      if TakesInPlace(block, original, size) {
        ExtendHead(block, original, size);
        return Some(block.addr);
      }
      r := Move(block, original, newSize, grant);
    }

    /** The block seems to end where the head chunk ends, and the chunk seems to have room for the
        difference: the sum is in word arithmetic. */
    predicate TakesInPlace(block: Block, original: nat, size: nat)
      requires chunks != []
      reads this
    {
      && original < size && block.addr + original == chunks[0].End()
      && (chunks[0].size + (size - original)) % WORD <= chunks[0].capacity
    }

    /** The block is the newest of the head chunk, and the chunk has room for the difference. */
    predicate GrowsInPlace(block: Block, original: nat, size: nat)
      requires chunks != []
      reads this
    {
      && original < size && block.addr + original == chunks[0].End()
      && chunks[0].size + (size - original) <= chunks[0].capacity
    }

    /** The new sizes that are served faithfully for a block of which `original` bytes are used. */
    predicate ServesGrowth(block: Block, original: nat, newSize: nat)
      requires chunks != []
      reads this
    {
      && newSize + 7 < WORD
      && (Align(newSize) <= original || GrowsInPlace(block, original, Align(newSize)) || Serves(newSize))
    }

    /** A live block, a size that is served faithfully, and an honest base allocator. */
    ghost predicate Reallocates(block: Block, original: nat, newSize: nat, grant: Option<nat>)
      requires chunks != []
      reads this
    {
      && Valid() && block in live && original <= block.size
      && ServesGrowth(block, original, newSize) && Honest(grant, newSize)
    }

    /** The test of the code decides as it should, for faithful requests. */
    lemma GrowthDecided(block: Block, original: nat, newSize: nat, grant: Option<nat>)
      requires Sane(chunks) && 0 < newSize < WORD && original < Align(newSize)
      ensures Reallocates(block, original, newSize, grant) ==>
                var size := Align(newSize);
                && newSize <= size && (TakesInPlace(block, original, size) <==> GrowsInPlace(block, original, size))
                && (GrowsInPlace(block, original, size) ==> original == block.size && chunks[0].base <= block.addr)
                && (!GrowsInPlace(block, original, size) ==> Serves(newSize))
    {
      AlignExact(newSize);
      if Reallocates(block, original, newSize, grant) {
        SumDecided(chunks[0].size, Align(newSize) - original, chunks[0].capacity);
        if block.addr + original == chunks[0].End() {
          AtHead(chunks, live, block, original);
        }
      }
    }

    /** On all ways the caller gets a block that covers the request, in the room it is served from, exactly
        when the new size is served faithfully. */
    lemma ServesGrowthIsExact(block: Block, original: nat, newSize: nat, base: nat)
      requires Sane(chunks) && chunkCapacity < WORD && 0 < newSize < WORD && original < WORD && Aligned(original)
      ensures var size := Align(newSize);
              ServesGrowth(block, original, newSize)
              <==> if size <= original then newSize <= original
                   else if TakesInPlace(block, original, size) then
                     newSize <= size && block.addr + size <= chunks[0].base + chunks[0].capacity
                   else
                     var addr := if FitsHead(chunks[0], size) then chunks[0].End() else base;
                     newSize <= size && addr + size <= RoomEnd(chunks[0], newSize, chunkCapacity, base)
    {
      AlignExact(newSize);
      var size := Align(newSize);
      ServingIsExact(chunks[0], newSize, chunkCapacity, base);
      AlignedIsMultiple(original);
      if original < size {
        SumDecided(chunks[0].size, size - original, chunks[0].capacity);
      }
    }

    /** Extend the head chunk for its newest block. */
    method ExtendHead(block: Block, original: nat, size: nat)
      requires Sane(chunks) && TakesInPlace(block, original, size)
      modifies this`chunks, this`live
      ensures Sane(chunks)
      ensures chunks == old(chunks)[0 := old(chunks)[0].(size := (old(chunks)[0].size + (size - original)) % WORD)]
      ensures live == old(live) - {block} + {Block(block.addr, size)}
      ensures old(Valid() && block in live && original == block.size && chunks[0].base <= block.addr && Aligned(size)
                  && GrowsInPlace(block, original, size)) ==>
                Valid() && MovedTo(memory, old(live), block, original, Block(block.addr, size))
    {
      ghost var faithful := Valid() && block in live && original == block.size && chunks[0].base <= block.addr
                            && Aligned(size) && GrowsInPlace(block, original, size);
      var used := (chunks[0].size + (size - original)) % WORD;
      if faithful {
        SumDecided(chunks[0].size, size - original, chunks[0].capacity);
        GrowKeeps(chunks, live, block, size, used, chunks[0 := chunks[0].(size := used)]);
      }
      chunks := chunks[0 := chunks[0].(size := used)];
      live := live - {block} + {Block(block.addr, size)};
    }

    /** Allocate, and copy the old contents. */
    method Move(block: Block, original: nat, newSize: nat, grant: Option<nat>) returns (r: Option<nat>)
      requires Sane(chunks) && chunkCapacity < WORD && 0 < newSize < WORD && original < Align(newSize)
      modifies this
      ensures Sane(chunks)
      ensures r.None? <==> old(NeedsChunk(newSize)) && grant.None?
      ensures r.None? ==> live == old(live) && chunks == old(chunks) && memory == old(memory)
      ensures r.Some? ==>
                var room := old(WithRoom(newSize, grant));
                && r.value == room[0].End() && chunks == room[0 := Bump(room[0], Align(newSize)).1]
                && memory == Copied(old(memory), r.value, block.addr, original)
      ensures old(Valid() && block in live && original <= block.size && Serves(newSize) && Honest(grant, newSize)) ==>
                && Valid()
                && (r.Some? ==> r.value != block.addr
                                && MovedTo(old(memory), old(live), block, original, Block(r.value, Align(newSize))))
    {
      ghost var faithful :=
        Valid() && block in live && original <= block.size && Serves(newSize) && Honest(grant, newSize);
      r := Malloc(newSize, grant);
      if r.Some? {
        if faithful {
          MoveKeeps(chunks, old(live), live, block, original, Block(r.value, Align(newSize)), memory);
        }
        memory := Copied(memory, r.value, block.addr, original);
        live := live - {block};
      }
    }

    /** `grown` has taken the place of `block`: it overlaps no other block, holds the old contents, and
        the contents of all other blocks are as they were. */
    ghost predicate MovedTo(was: Bytes, before: set<Block>, block: Block, n: nat, grown: Block)
      reads this
    {
      && live == before - {block} + {grown}
      && (forall b :: b in before && b != block ==> b.Apart(grown))
      && SameBytes(was, block.addr, memory, grown.addr, n)
      && Untouched(was, memory, before - {block})
    }

    /** Deallocates all chunks but the first one. */
    method Clear()
      requires Sane(chunks)
      modifies this`chunks, this`live
      ensures Sane(chunks) && live == {} && chunks == [old(chunks)[|old(chunks)| - 1].(size := 0)]
      ensures old(Valid()) ==> Valid()
    {
      while |chunks| > 1
        invariant 0 < |chunks| <= |old(chunks)| && chunks == old(chunks)[|old(chunks)| - |chunks|..]
        decreases |chunks|
      {
        chunks := chunks[1..];
      }
      chunks := [chunks[0].(size := 0)];
      live := {};
    }

    /** The sum of the used sizes, in word arithmetic; exact and within the capacity in a valid pool. */
    method Size() returns (r: nat)
      ensures r == SizeWord(chunks)
      ensures Valid() ==> r == SumSize(chunks) <= SumCapacity(chunks) == CapacityWord(chunks)
    {
      r := 0;
      var i := 0;
      assert chunks[0..] == chunks;
      while i < |chunks|
        invariant i <= |chunks| && AddsUp(r, SumSize(chunks[i..]), SumSize(chunks))
      {
        AddWords(r, chunks[i].size, SumSize(chunks[i + 1..]), SumSize(chunks));
        r := (r + chunks[i].size) % WORD;
        i := i + 1;
      }
      if Valid() {
        TotalsAreExact(chunks);
      }
    }

    /** The sum of the capacities, in word arithmetic; exact in a valid pool. */
    method Capacity() returns (r: nat)
      ensures r == CapacityWord(chunks)
      ensures Valid() ==> r == SumCapacity(chunks)
    {
      r := 0;
      var i := 0;
      assert chunks[0..] == chunks;
      while i < |chunks|
        invariant i <= |chunks| && AddsUp(r, SumCapacity(chunks[i..]), SumCapacity(chunks))
      {
        AddWords(r, chunks[i].capacity, SumCapacity(chunks[i + 1..]), SumCapacity(chunks));
        r := (r + chunks[i].capacity) % WORD;
        i := i + 1;
      }
      if Valid() {
        TotalsAreExact(chunks);
      }
    }
  }

  /** A word and what is still to be added make up a total, modulo the word size. */
  predicate AddsUp(r: nat, rest: nat, total: nat) {
    r < WORD && (r + rest) % WORD == total % WORD
  }

  lemma AddWords(r: nat, more: nat, rest: nat, total: nat)
    requires AddsUp(r, more + rest, total)
    ensures AddsUp((r + more) % WORD, rest, total)
  {
    var q := (r + more) / WORD;
    assert r + (more + rest) == (r + more) % WORD + rest + q * WORD;
    DropMultiple((r + more) % WORD + rest, q);
  }

  lemma DropMultiple(n: nat, q: nat)
    ensures (n + q * WORD) % WORD == n % WORD
  {
    var d, m := n / WORD, n % WORD;
    assert n + q * WORD == (d + q) * WORD + m;
  }

  /** A run after which the words are out of order: the first request wraps around in what the base
      allocator is asked for, and the second one gets a chunk of its own. */
  method TotalsOutOfOrder(memory: Bytes) returns (size: nat, capacity: nat)
    ensures size == WORD - 8 && capacity == 65520
  {
    var pool := new Pool(65536, Chunk(64, 0, 0), memory);
    OutOfOrderSteps();
    var first := pool.Malloc(WORD - 16, Some(128));
    assert pool.chunks == [Chunk(128, WORD - 16, WORD - 16), Chunk(64, 0, 0)];
    var second := pool.Malloc(8, Some(256));
    assert pool.chunks == [Chunk(256, 65536, 8), Chunk(128, WORD - 16, WORD - 16), Chunk(64, 0, 0)];
    TotalsOfThree(pool.chunks);
    size := pool.Size();
    capacity := pool.Capacity();
  }

  lemma OutOfOrderSteps()
    ensures Align(WORD - 16) == WORD - 16 && Align(8) == 8
    ensures !FitsHead(Chunk(64, 0, 0), WORD - 16) && ChunkFor(65536, WORD - 16) == WORD - 16
    ensures Bump(Chunk(128, WORD - 16, 0), WORD - 16).1 == Chunk(128, WORD - 16, WORD - 16)
    ensures !FitsHead(Chunk(128, WORD - 16, WORD - 16), 8) && Bump(Chunk(256, 65536, 0), 8).1 == Chunk(256, 65536, 8)
  {
  }

  lemma TotalsOfThree(chunks: seq<Chunk>)
    requires |chunks| == 3
    ensures SumSize(chunks) == chunks[0].size + chunks[1].size + chunks[2].size
    ensures SumCapacity(chunks) == chunks[0].capacity + chunks[1].capacity + chunks[2].capacity
  {
    assert chunks[1..][1..] == chunks[2..] && chunks[2..][1..] == [];
    assert SumSize(chunks[2..]) == chunks[2].size && SumCapacity(chunks[2..]) == chunks[2].capacity;
    assert SumSize(chunks[1..]) == chunks[1].size + SumSize(chunks[1..][1..]);
    assert SumCapacity(chunks[1..]) == chunks[1].capacity + SumCapacity(chunks[1..][1..]);
  }

  /** A block that ends at the end of the used part of the head chunk, by its recorded size or less,
      is the newest block of that chunk. */
  lemma AtHead(chunks: seq<Chunk>, live: set<Block>, block: Block, original: nat)
    requires ChunksValid(chunks) && BlocksValid(chunks, live) && block in live
    requires original <= block.size && block.addr + original == chunks[0].End()
    ensures original == block.size && chunks[0].base <= block.addr
  {
    var i :| 0 <= i < |chunks| && block.Inside(chunks[i]);
    assert i > 0 ==> ChunksApart(chunks[0], chunks[i]);
  }
}
