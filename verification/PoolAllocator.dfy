/** The pool allocator (allocators.h): bump allocation in a list of chunks, with growth in place. */
module PoolAllocator {
  import opened Options

  const HEADER := 24
  const ADDRESS_LIMIT := 0x1_0000_0000_0000_0000

  type byte = x: int | 0 <= x < 256

  /** What is left of a sum in a `size_t`. */
  function Word(x: nat): (r: nat)
    ensures r < ADDRESS_LIMIT && (x < ADDRESS_LIMIT ==> r == x)
  {
    x % ADDRESS_LIMIT
  }

  /** The next multiple of 8, of which RAPIDJSON_ALIGN gives the Word. */
  function Align(x: nat): (r: nat)
    ensures x <= r < x + 8 && r % 8 == 0
    ensures x > 0 ==> r > 0
  {
    (x + 7) / 8 * 8
  }

  lemma {:induction false} AlignMonotone(x: nat, y: nat)
    ensures x <= y ==> Align(x) <= Align(y)
    ensures Align(Align(x)) == Align(x)
  {
  }

  /** A chunk at address `base`: a header, and behind it `capacity` bytes of which `size` are in use. */
  datatype Chunk = Chunk(base: nat, capacity: nat, size: nat)

  /** A block as its owner knows it. */
  datatype Block = Block(ptr: nat, size: nat)

  function Data(c: Chunk): nat { c.base + HEADER }

  /** The end of the part in use. */
  function Top(c: Chunk): nat { Data(c) + c.size }

  /** The end of the chunk. */
  function Limit(c: Chunk): nat { Data(c) + c.capacity }

  predicate Apart(a: nat, aEnd: nat, b: nat, bEnd: nat) {
    aEnd <= b || bEnd <= a
  }

  predicate SoundChunk(c: Chunk) {
    c.base > 0 && c.size <= c.capacity && c.size % 8 == 0 && Limit(c) <= ADDRESS_LIMIT
  }

  predicate SoundChunks(chunks: seq<Chunk>) {
    && (forall i | 0 <= i < |chunks| :: SoundChunk(chunks[i]))
    && (forall i, j | 0 <= i < j < |chunks| ::
          Apart(chunks[i].base, Limit(chunks[i]), chunks[j].base, Limit(chunks[j])))
  }

  /** The end of the bytes reserved for a block. */
  function End(b: Block): nat { b.ptr + Align(b.size) }

  /** A block lies in the part in use of a chunk, at an offset that is a multiple of 8. */
  predicate Inside(b: Block, c: Chunk) {
    b.size > 0 && Data(c) <= b.ptr && End(b) <= Top(c) && (b.ptr - Data(c)) % 8 == 0
  }

  predicate Housed(chunks: seq<Chunk>, b: Block) {
    exists i :: 0 <= i < |chunks| && Inside(b, chunks[i])
  }

  predicate Disjoint(blocks: seq<Block>) {
    forall i, j | 0 <= i < j < |blocks| :: Apart(blocks[i].ptr, End(blocks[i]), blocks[j].ptr, End(blocks[j]))
  }

  /** The safety of the pool: chunks apart, every live block housed, and live blocks pairwise disjoint. */
  predicate Sound(chunks: seq<Chunk>, blocks: seq<Block>) {
    && SoundChunks(chunks)
    && (forall k | 0 <= k < |blocks| :: Housed(chunks, blocks[k]))
    && Disjoint(blocks)
  }

  /** Room behind the part in use of the head chunk is room no live block reaches into. */
  lemma {:induction false} AboveTop(chunks: seq<Chunk>, b: Block)
    requires SoundChunks(chunks) && chunks != [] && Housed(chunks, b)
    ensures Apart(b.ptr, End(b), Top(chunks[0]), Limit(chunks[0]))
  {
    var i :| 0 <= i < |chunks| && Inside(b, chunks[i]);
    if i > 0 {
      assert Apart(chunks[0].base, Limit(chunks[0]), chunks[i].base, Limit(chunks[i]));
    }
  }

  lemma {:induction false} HeadGrows(chunks: seq<Chunk>, size: nat, b: Block)
    requires chunks != [] && Housed(chunks, b)
    ensures Housed(chunks[0 := chunks[0].(size := chunks[0].size + size)], b)
  {
    var i :| 0 <= i < |chunks| && Inside(b, chunks[i]);
    var after := chunks[0 := chunks[0].(size := chunks[0].size + size)];
    assert Inside(b, after[i]);
  }

  lemma {:induction false} ChunksStaySound(chunks: seq<Chunk>, size: nat)
    requires SoundChunks(chunks) && chunks != [] && chunks[0].size + size <= chunks[0].capacity && size % 8 == 0
    ensures SoundChunks(chunks[0 := chunks[0].(size := chunks[0].size + size)])
  {
    var after := chunks[0 := chunks[0].(size := chunks[0].size + size)];
    forall i, j | 0 <= i < j < |after| ensures Apart(after[i].base, Limit(after[i]), after[j].base, Limit(after[j])) {
      assert Apart(chunks[i].base, Limit(chunks[i]), chunks[j].base, Limit(chunks[j]));
    }
  }

  /** A new block at the top of the head chunk is disjoint from all others. */
  lemma {:induction false} BumpSound(chunks: seq<Chunk>, blocks: seq<Block>, size: nat)
    requires Sound(chunks, blocks) && chunks != [] && size > 0
    requires chunks[0].size + Align(size) <= chunks[0].capacity
    ensures Sound(chunks[0 := chunks[0].(size := chunks[0].size + Align(size))], blocks + [Block(Top(chunks[0]), size)])
  {
    var after := chunks[0 := chunks[0].(size := chunks[0].size + Align(size))];
    var b := Block(Top(chunks[0]), size);
    var all := blocks + [b];
    ChunksStaySound(chunks, Align(size));
    forall k | 0 <= k < |all| ensures Housed(after, all[k]) {
      if k < |blocks| {
        HeadGrows(chunks, Align(size), blocks[k]);
      } else {
        assert Inside(b, after[0]);
      }
    }
    forall i, j | 0 <= i < j < |all| ensures Apart(all[i].ptr, End(all[i]), all[j].ptr, End(all[j])) {
      if j == |blocks| {
        AboveTop(chunks, blocks[i]);
      }
    }
  }

  /** Growing the last block in place reaches into no other block. */
  lemma {:induction false} GrowSound(chunks: seq<Chunk>, blocks: seq<Block>, k: nat, size: nat)
    requires Sound(chunks, blocks) && chunks != [] && k < |blocks| && Inside(blocks[k], chunks[0])
    requires End(blocks[k]) == Top(chunks[0]) && Align(blocks[k].size) < Align(size)
    requires chunks[0].size + (Align(size) - Align(blocks[k].size)) <= chunks[0].capacity
    ensures Sound(chunks[0 := chunks[0].(size := chunks[0].size + (Align(size) - Align(blocks[k].size)))],
                  blocks[k := Block(blocks[k].ptr, size)])
  {
    var more := Align(size) - Align(blocks[k].size);
    var after := chunks[0 := chunks[0].(size := chunks[0].size + more)];
    var all := blocks[k := Block(blocks[k].ptr, size)];
    ChunksStaySound(chunks, more);
    forall m | 0 <= m < |all| ensures Housed(after, all[m]) {
      if m == k {
        assert Inside(all[k], after[0]);
      } else {
        HeadGrows(chunks, more, blocks[m]);
      }
    }
    forall i, j | 0 <= i < j < |all| ensures Apart(all[i].ptr, End(all[i]), all[j].ptr, End(all[j])) {
      assert Apart(blocks[i].ptr, End(blocks[i]), blocks[j].ptr, End(blocks[j]));
      AboveTop(chunks, blocks[i]);
      AboveTop(chunks, blocks[j]);
    }
  }

  /** A block known by a size that needs no more room keeps the pool sound. */
  lemma {:induction false} ResizeSound(chunks: seq<Chunk>, blocks: seq<Block>, k: nat, size: nat)
    requires Sound(chunks, blocks) && k < |blocks| && 0 < size && Align(size) <= Align(blocks[k].size)
    ensures Sound(chunks, blocks[k := Block(blocks[k].ptr, size)])
  {
    var all := blocks[k := Block(blocks[k].ptr, size)];
    forall m | 0 <= m < |all| ensures Housed(chunks, all[m]) {
      if m == k {
        var i :| 0 <= i < |chunks| && Inside(blocks[k], chunks[i]);
        assert Inside(all[k], chunks[i]);
      }
    }
    forall i, j | 0 <= i < j < |all| ensures Apart(all[i].ptr, End(all[i]), all[j].ptr, End(all[j])) {
      assert Apart(blocks[i].ptr, End(blocks[i]), blocks[j].ptr, End(blocks[j]));
    }
  }

  /** A block may stand for another that its owner gives up. */
  lemma {:induction false} ReplaceSound(chunks: seq<Chunk>, blocks: seq<Block>, k: nat, b: Block)
    requires Sound(chunks, blocks + [b]) && k < |blocks|
    ensures Sound(chunks, blocks[k := b])
  {
    var more, all := blocks + [b], blocks[k := b];
    forall m | 0 <= m < |all| ensures Housed(chunks, all[m]) {
      assert all[m] == if m == k then more[|blocks|] else more[m];
    }
    forall i, j | 0 <= i < j < |all| ensures Apart(all[i].ptr, End(all[i]), all[j].ptr, End(all[j])) {
      if i == k {
        assert Apart(more[j].ptr, End(more[j]), more[|blocks|].ptr, End(more[|blocks|]));
      } else if j == k {
        assert Apart(more[i].ptr, End(more[i]), more[|blocks|].ptr, End(more[|blocks|]));
      } else {
        assert Apart(more[i].ptr, End(more[i]), more[j].ptr, End(more[j]));
      }
    }
  }

  /** Memory the base allocator may hand out for a chunk: as long as the word asked for, apart from every chunk. */
  predicate Fresh(chunks: seq<Chunk>, base: nat, capacity: nat) {
    var length := Word(HEADER + capacity);
    && base > 0 && base + length <= ADDRESS_LIMIT
    && forall i | 0 <= i < |chunks| :: Apart(base, base + length, chunks[i].base, Limit(chunks[i]))
  }

  /** With its header, a chunk of this capacity is longer than a word can say. */
  predicate TooLong(capacity: nat) {
    HEADER + capacity >= ADDRESS_LIMIT
  }

  lemma {:induction false} TooLongUnsound(chunks: seq<Chunk>, blocks: seq<Block>)
    requires chunks != [] && TooLong(chunks[0].capacity)
    ensures !Sound(chunks, blocks)
  {
    assert !SoundChunk(chunks[0]);
  }

  lemma {:induction false} AddChunkSound(chunks: seq<Chunk>, blocks: seq<Block>, base: nat, capacity: nat)
    requires Sound(chunks, blocks) && Fresh(chunks, base, capacity) && !TooLong(capacity)
    ensures Sound([Chunk(base, capacity, 0)] + chunks, blocks)
  {
    AddChunkApart(chunks, base, capacity);
    forall k | 0 <= k < |blocks| ensures Housed([Chunk(base, capacity, 0)] + chunks, blocks[k]) {
      StillHoused(chunks, Chunk(base, capacity, 0), blocks[k]);
    }
  }

  lemma {:induction false} StillHoused(chunks: seq<Chunk>, c: Chunk, b: Block)
    requires Housed(chunks, b)
    ensures Housed([c] + chunks, b)
  {
    var i :| 0 <= i < |chunks| && Inside(b, chunks[i]);
    assert Inside(b, ([c] + chunks)[i + 1]);
  }

  lemma {:induction false} AddChunkApart(chunks: seq<Chunk>, base: nat, capacity: nat)
    requires SoundChunks(chunks) && Fresh(chunks, base, capacity) && !TooLong(capacity)
    ensures SoundChunks([Chunk(base, capacity, 0)] + chunks)
  {
    var all := [Chunk(base, capacity, 0)] + chunks;
    forall i | 0 <= i < |all| ensures SoundChunk(all[i]) {
      if i > 0 {
        assert all[i] == chunks[i - 1];
      }
    }
    forall i, j | 0 <= i < j < |all| ensures Apart(all[i].base, Limit(all[i]), all[j].base, Limit(all[j])) {
      assert all[j] == chunks[j - 1];
      if i > 0 {
        assert all[i] == chunks[i - 1];
        assert Apart(chunks[i - 1].base, Limit(chunks[i - 1]), chunks[j - 1].base, Limit(chunks[j - 1]));
      } else {
        assert Apart(base, base + HEADER + capacity, chunks[j - 1].base, Limit(chunks[j - 1]));
      }
    }
  }

  /** The block at the top of the head chunk is recognised by its address, and no other is mistaken for it. */
  lemma {:induction false} LastBlock(chunks: seq<Chunk>, b: Block)
    requires SoundChunks(chunks) && chunks != [] && Housed(chunks, b)
    ensures b.ptr == Top(chunks[0]) - Align(b.size) <==> Inside(b, chunks[0]) && End(b) == Top(chunks[0])
  {
    var i :| 0 <= i < |chunks| && Inside(b, chunks[i]);
    if i > 0 {
      assert Apart(chunks[0].base, Limit(chunks[0]), chunks[i].base, Limit(chunks[i]));
    }
  }

  /** A block that ends beyond the address space is in no chunk. */
  lemma {:induction false} BeyondMemory(chunks: seq<Chunk>, blocks: seq<Block>, k: nat)
    requires k < |blocks| && End(blocks[k]) > ADDRESS_LIMIT
    ensures !Sound(chunks, blocks)
  {
    if Sound(chunks, blocks) {
      BelowLimit(chunks, blocks, k);
    }
  }

  lemma {:induction false} BelowLimit(chunks: seq<Chunk>, blocks: seq<Block>, k: nat)
    requires Sound(chunks, blocks) && k < |blocks|
    ensures 0 < blocks[k].ptr && End(blocks[k]) <= ADDRESS_LIMIT
  {
    assert Housed(chunks, blocks[k]);
    var i :| 0 <= i < |chunks| && Inside(blocks[k], chunks[i]);
  }

  function TotalSize(chunks: seq<Chunk>): nat {
    if chunks == [] then 0 else chunks[0].size + TotalSize(chunks[1..])
  }

  function TotalCapacity(chunks: seq<Chunk>): nat {
    if chunks == [] then 0 else chunks[0].capacity + TotalCapacity(chunks[1..])
  }

  lemma {:induction false} TotalsOf(head: Chunk, rest: seq<Chunk>)
    ensures TotalSize([head] + rest) == head.size + TotalSize(rest)
    ensures TotalCapacity([head] + rest) == head.capacity + TotalCapacity(rest)
  {
    assert ([head] + rest)[1..] == rest;
  }

  /** The totals of what Clear leaves: one emptied chunk or none. */
  lemma {:induction false} ClearedTotals(chunks: seq<Chunk>)
    requires |chunks| <= 1 && (chunks != [] ==> chunks[0].size == 0)
    ensures TotalSize(chunks) == 0 && TotalCapacity(chunks) == if chunks == [] then 0 else chunks[0].capacity
  {
    if chunks != [] {
      TotalsOf(chunks[0], []);
      assert chunks == [chunks[0]] + [];
    }
  }

  lemma {:induction false} HeadTotals(chunks: seq<Chunk>, size: nat)
    requires chunks != []
    ensures
      var after := chunks[0 := chunks[0].(size := size)];
      && after == [chunks[0].(size := size)] + chunks[1..]
      && TotalSize(after) == TotalSize(chunks) - chunks[0].size + size
      && TotalCapacity(after) == TotalCapacity(chunks)
  {
    assert chunks[0 := chunks[0].(size := size)] == [chunks[0].(size := size)] + chunks[1..];
    TotalsOf(chunks[0].(size := size), chunks[1..]);
  }

  /** The totals after a block of `need` bytes from the head chunk or from a new one. */
  lemma {:induction false} BlockTotals(chunks: seq<Chunk>, head: Chunk, need: nat, added: bool)
    requires added || (chunks != [] && head == chunks[0])
    ensures
      var after := [head.(size := head.size + need)] + (if added then chunks else chunks[1..]);
      && TotalSize(after) == TotalSize(chunks) + (if added then head.size else 0) + need
      && TotalCapacity(after) == TotalCapacity(chunks) + if added then head.capacity else 0
  {
    TotalsOf(head.(size := head.size + need), if added then chunks else chunks[1..]);
  }

  /** `memcpy` on a memory. */
  function Copy(memory: nat -> byte, to: nat, from: nat, n: nat): nat -> byte {
    (a: nat) => if to <= a < to + n then memory(from + (a - to)) else memory(a)
  }

  /** The `n` bytes at an address. */
  function Bytes(memory: nat -> byte, ptr: nat, n: nat): (r: seq<byte>)
    ensures |r| == n
  {
    seq(n, i requires 0 <= i < n => memory(ptr + i))
  }

  lemma {:induction false} CopyCopies(memory: nat -> byte, to: nat, from: nat, n: nat, m: nat)
    requires m <= n
    ensures Bytes(Copy(memory, to, from, n), to, m) == Bytes(memory, from, m)
  {
  }

  lemma {:induction false} CopySpares(memory: nat -> byte, to: nat, from: nat, n: nat, ptr: nat, m: nat)
    requires Apart(ptr, ptr + m, to, to + n)
    ensures Bytes(Copy(memory, to, from, n), ptr, m) == Bytes(memory, ptr, m)
  {
  }

  /** The user's buffer, if there is one, is the last chunk and no other. */
  predicate UserLast(chunks: seq<Chunk>, user: Option<nat>) {
    (user.Some? ==> chunks != [] && chunks[|chunks| - 1].base == user.value)
    && forall i | 0 <= i < |chunks| - (if user.Some? then 1 else 0) :: user != Some(chunks[i].base)
  }

  lemma {:induction false} UserKept(chunks: seq<Chunk>, user: Option<nat>, size: nat)
    requires UserLast(chunks, user) && chunks != []
    ensures UserLast(chunks[0 := chunks[0].(size := size)], user)
  {
  }

  lemma {:induction false} UserBehind(chunks: seq<Chunk>, user: Option<nat>, base: nat, capacity: nat)
    requires UserLast(chunks, user) && Fresh(chunks, base, capacity) && !TooLong(capacity)
    ensures UserLast([Chunk(base, capacity, 0)] + chunks, user)
  {
    if user.Some? {
      assert Apart(base, base + HEADER + capacity, chunks[|chunks| - 1].base, Limit(chunks[|chunks| - 1]));
    }
  }

  /** The chunks the allocator got itself. */
  function OwnChunks(chunks: seq<Chunk>, user: Option<nat>): seq<Chunk> {
    if user.Some? && chunks != [] then chunks[..|chunks| - 1] else chunks
  }

  function Bases(chunks: seq<Chunk>): seq<nat> {
    if chunks == [] then [] else [chunks[0].base] + Bases(chunks[1..])
  }

  lemma {:induction false} BasesSkipUser(chunks: seq<Chunk>, user: nat)
    requires forall i | 0 <= i < |chunks| :: Some(user) != Some(chunks[i].base)
    ensures user !in Bases(chunks)
  {
    if chunks != [] {
      BasesSkipUser(chunks[1..], user);
    }
  }

  lemma {:induction false} OwnAreNotUser(chunks: seq<Chunk>, user: Option<nat>)
    requires UserLast(chunks, user)
    ensures user.Some? ==> user.value !in Bases(OwnChunks(chunks, user))
  {
    if user.Some? {
      BasesSkipUser(OwnChunks(chunks, user), user.value);
    }
  }

  /** One round of Clear's loop. */
  lemma {:induction false} UserRest(chunks: seq<Chunk>, user: Option<nat>)
    requires SoundChunks(chunks) && UserLast(chunks, user) && chunks != [] && user != Some(chunks[0].base)
    ensures SoundChunks(chunks[1..]) && UserLast(chunks[1..], user)
    ensures OwnChunks(chunks, user) == [chunks[0]] + OwnChunks(chunks[1..], user)
  {
    forall i, j | 0 <= i < j < |chunks[1..]|
      ensures Apart(chunks[1..][i].base, Limit(chunks[1..][i]), chunks[1..][j].base, Limit(chunks[1..][j]))
    {
      assert Apart(chunks[i + 1].base, Limit(chunks[i + 1]), chunks[j + 1].base, Limit(chunks[j + 1]));
    }
  }

  lemma {:induction false} UserAlone(chunks: seq<Chunk>, user: Option<nat>)
    requires SoundChunks(chunks) && UserLast(chunks, user) && (chunks == [] || user == Some(chunks[0].base))
    ensures user.Some? <==> chunks != []
    ensures |chunks| <= 1 && OwnChunks(chunks, user) == []
    ensures chunks == [] ==> Sound([], []) && UserLast([], user)
    ensures chunks != [] ==> Sound([chunks[0].(size := 0)], []) && UserLast([chunks[0].(size := 0)], user)
  {
  }

  class MemoryPoolAllocator {
    /** The chunk list, its head first. */
    var chunks: seq<Chunk>
    var chunkCapacity: nat
    var userBuffer: Option<nat>
    /** The bytes of the address space, which only the allocator's own copying changes here. */
    var memory: nat -> byte
    /** The blocks handed out and still in use. */
    ghost var blocks: seq<Block>

    ghost predicate Valid()
      reads this
    {
      Sound(chunks, blocks) && UserLast(chunks, userBuffer) && chunkCapacity < ADDRESS_LIMIT
    }

    constructor (chunkSize: nat, bytes: nat -> byte)
      requires chunkSize < ADDRESS_LIMIT
      ensures Valid() && chunks == [] && blocks == [] && userBuffer == None
      ensures chunkCapacity == chunkSize && memory == bytes
    {
      chunks, chunkCapacity, userBuffer, memory, blocks := [], chunkSize, None, bytes, [];
    }

    constructor WithBuffer(buffer: nat, size: nat, chunkSize: nat, bytes: nat -> byte)
      requires buffer > 0 && size > HEADER && buffer + size <= ADDRESS_LIMIT && chunkSize < ADDRESS_LIMIT
      ensures Valid() && blocks == [] && userBuffer == Some(buffer)
      ensures chunks == [Chunk(buffer, size - HEADER, 0)] && chunkCapacity == chunkSize && memory == bytes
    {
      chunks, chunkCapacity, userBuffer, memory, blocks :=
        [Chunk(buffer, size - HEADER, 0)], chunkSize, Some(buffer), bytes, [];
    }

    /** `given` is what the base allocator answers: memory apart from every chunk, or nothing. */
    method AddChunk(capacity: nat, given: Option<nat>) returns (ok: bool)
      requires Valid() && (given.Some? ==> Fresh(chunks, given.value, capacity))
      modifies this`chunks
      ensures ok == given.Some? && (Valid() <==> !ok || !TooLong(capacity))
      ensures chunks == if ok then [Chunk(given.value, capacity, 0)] + old(chunks) else old(chunks)
    {
      ok := given.Some?;
      if ok {
        if !TooLong(capacity) {
          AddChunkSound(chunks, blocks, given.value, capacity);
          UserBehind(chunks, userBuffer, given.value, capacity);
        }
        chunks := [Chunk(given.value, capacity, 0)] + chunks;
        if TooLong(capacity) {
          TooLongUnsound(chunks, blocks);
        }
      }
    }

    /** What Malloc asks of the base allocator when the head chunk has no room for a request. */
    function Wanted(size: nat): (r: nat)
      ensures r >= chunkCapacity && r >= Word(Align(size)) && (r == chunkCapacity || r == Word(Align(size)))
      reads this
    {
      if chunkCapacity > Word(Align(size)) then chunkCapacity else Word(Align(size))
    }

    /** The bytes in use in the head chunk. */
    function Used(): nat
      reads this
    {
      if chunks == [] then 0 else chunks[0].size
    }

    /** One of the sums Malloc takes for a block does not fit a word. */
    predicate SumWraps(size: nat)
      reads this
    {
      Used() + Align(size) >= ADDRESS_LIMIT || (NoRoom(size) && TooLong(Wanted(size)))
    }

    /**
     * A block of `size` bytes, disjoint from all blocks in use, or 0: the sums of the sizes are taken as
     * words without a check, and the pool stays sound exactly when they do not wrap.
     */
    method Malloc(size: nat, given: Option<nat>) returns (ptr: nat)
      requires Valid() && (given.Some? ==> Fresh(chunks, given.value, Wanted(size)))
      requires size < ADDRESS_LIMIT
      modifies this`chunks, this`blocks
      ensures Valid() <==> ptr == 0 || !old(SumWraps(size))
      ensures ptr == 0 <==> size == 0 || (old(NoRoom(size)) && given == None)
      ensures ptr == 0 ==> blocks == old(blocks) && chunks == old(chunks)
      ensures ptr != 0 ==> blocks == old(blocks) + [Block(ptr, size)]
      ensures ptr != 0 ==>
        var head := if old(NoRoom(size)) then Chunk(given.value, old(Wanted(size)), 0) else old(chunks[0]);
        var rest := if old(NoRoom(size)) then old(chunks) else old(chunks)[1..];
        ptr == Top(head) && chunks == [head.(size := Word(head.size + Word(Align(size))))] + rest
      ensures ptr != 0 && !old(SumWraps(size)) ==>
        && TotalSize(chunks) == TotalSize(old(chunks)) + Align(size)
        && TotalCapacity(chunks) == TotalCapacity(old(chunks)) + if old(NoRoom(size)) then old(Wanted(size)) else 0
    {
      hide Sound, UserLast, Fresh, Align, Word, TotalSize, TotalCapacity;
      HeadSound(chunks, blocks);
      ptr := 0;
      if size == 0 {
        return;
      }
      var need := Word(Align(size));
      if chunks == [] || Word(chunks[0].size + need) > chunks[0].capacity {
        var ok := AddChunk(if chunkCapacity > need then chunkCapacity else need, given);
        if !ok {
          return;
        }
      }
      ptr := Top(chunks[0]);
      if !old(SumWraps(size)) {
        HeadSound(chunks, blocks);
        BumpSound(chunks, blocks, size);
        UserKept(chunks, userBuffer, chunks[0].size + need);
      }
      blocks := blocks + [Block(ptr, size)];
      BlockTotals(old(chunks), chunks[0], need, old(NoRoom(size)));
      chunks := chunks[0 := chunks[0].(size := Word(chunks[0].size + need))];
      if old(Used()) + Align(size) >= ADDRESS_LIMIT {
        WrapNeedsNoRoom(old(Used()), size);
        BeyondMemory(chunks, blocks, |blocks| - 1);
      } else if old(SumWraps(size)) {
        TooLongUnsound(chunks, blocks);
      }
    }

    /** The head chunk has no room for a new block of this size. */
    predicate NoRoom(size: nat)
      reads this
    {
      chunks == [] || Word(chunks[0].size + Word(Align(size))) > chunks[0].capacity
    }

    /** The block ends at the top of the head chunk, and there is room for it to grow there. */
    predicate CanGrow(ptr: nat, size: nat, newSize: nat)
      reads this
    {
      chunks != [] && ptr == Top(chunks[0]) - Align(size)
      && Align(size) <= Word(Align(newSize))
      && Word(chunks[0].size + (Word(Align(newSize)) - Align(size))) <= chunks[0].capacity
    }

    /** A sum of sizes wraps on the way a request for another size takes. */
    predicate Wraps(ptr: nat, size: nat, newSize: nat)
      reads this
    {
      if ptr == 0 then SumWraps(newSize)
      else if Word(Align(newSize)) <= Align(size) then Align(newSize) >= ADDRESS_LIMIT
      else if CanGrow(ptr, size, newSize) then Used() - Align(size) + Align(newSize) >= ADDRESS_LIMIT
      else SumWraps(newSize)
    }

    /** The bytes a resize takes: none, the difference, or all of the new block, the old one being given up. */
    function Taken(ptr: nat, size: nat, newSize: nat): nat
      reads this
    {
      if ptr == 0 then Align(newSize)
      else if Align(newSize) <= Align(size) then 0
      else if CanGrow(ptr, size, newSize) then Align(newSize) - Align(size)
      else Align(newSize)
    }

    /**
     * Realloc: a null pointer is an allocation; a block in use is resized where it is or moved. `k` is
     * the number of that block. Null is returned exactly for size zero and for want of a chunk.
     * The pool stays sound exactly when no sum of sizes wraps.
     */
    method Realloc(ghost k: nat, originalPtr: nat, originalSize: nat, newSize: nat, given: Option<nat>)
        returns (ptr: nat)
      requires Valid()
      requires originalPtr != 0 ==> k < |blocks| && blocks[k] == Block(originalPtr, originalSize)
      requires given.Some? ==> Fresh(chunks, given.value, Wanted(newSize))
      requires newSize < ADDRESS_LIMIT
      modifies this`chunks, this`blocks, this`memory
      ensures Valid() <==> ptr == 0 || !old(Wraps(originalPtr, originalSize, newSize))
      ensures ptr == 0 ==> blocks == old(blocks) && chunks == old(chunks) && memory == old(memory)
      ensures ptr == 0 <==>
        newSize == 0
        || (old(NoRoom(newSize)) && given == None
            && (originalPtr == 0
                || (Word(Align(newSize)) > Align(originalSize)
                    && !old(CanGrow(originalPtr, originalSize, newSize)))))
      ensures originalPtr == 0 && ptr != 0 ==> blocks == old(blocks) + [Block(ptr, newSize)] && memory == old(memory)
      ensures originalPtr != 0 && ptr != 0 ==> blocks == old(blocks)[k := Block(ptr, newSize)]
      ensures originalPtr != 0 && newSize > 0 && Word(Align(newSize)) <= Align(originalSize) ==>
        ptr == originalPtr && chunks == old(chunks) && memory == old(memory)
      ensures originalPtr != 0 && Word(Align(newSize)) > Align(originalSize)
              && old(CanGrow(originalPtr, originalSize, newSize)) ==>
        && ptr == originalPtr && memory == old(memory)
        && chunks == old(chunks)[0 :=
             old(chunks)[0].(size := Word(old(chunks)[0].size + (Word(Align(newSize)) - Align(originalSize))))]
      ensures originalPtr != 0 && ptr != 0 ==>
        var kept := if originalSize < newSize then originalSize else newSize;
        Bytes(memory, ptr, kept) == Bytes(old(memory), originalPtr, kept)
      ensures ptr != 0 && !old(Wraps(originalPtr, originalSize, newSize)) ==>
        TotalSize(chunks) == TotalSize(old(chunks)) + old(Taken(originalPtr, originalSize, newSize))
      ensures !old(Wraps(originalPtr, originalSize, newSize)) ==>
        forall m | 0 <= m < |old(blocks)| && (originalPtr == 0 || m != k) ::
          Bytes(memory, old(blocks)[m].ptr, old(blocks)[m].size)
            == Bytes(old(memory), old(blocks)[m].ptr, old(blocks)[m].size)
    {
      if originalPtr == 0 {
        ptr := Malloc(newSize, given);
        return;
      }
      hide Sound, UserLast, Bytes, Fresh, Align, CanGrow, NoRoom;
      ptr := Resize(k, originalPtr, originalSize, newSize, given);
      assert forall m | 0 <= m < |blocks| && m != k :: blocks[m] == old(blocks)[m];
    }

    /**
     * Resizes block `k`: where it is when it may shrink or is the last one with room behind it, and
     * else as a copy. Its first bytes and all other blocks keep their contents.
     */
    method Resize(ghost k: nat, originalPtr: nat, originalSize: nat, newSize: nat, given: Option<nat>)
        returns (ptr: nat)
      requires Valid() && k < |blocks| && blocks[k] == Block(originalPtr, originalSize) && originalPtr != 0
      requires given.Some? ==> Fresh(chunks, given.value, Wanted(newSize))
      requires newSize < ADDRESS_LIMIT
      modifies this`chunks, this`blocks, this`memory
      ensures Valid() <==> ptr == 0 || !old(Wraps(originalPtr, originalSize, newSize))
      ensures ptr == 0 ==> blocks == old(blocks) && chunks == old(chunks) && memory == old(memory)
      ensures ptr == 0 <==>
        newSize == 0
        || (old(NoRoom(newSize)) && given == None
            && Word(Align(newSize)) > Align(originalSize) && !old(CanGrow(originalPtr, originalSize, newSize)))
      ensures ptr != 0 ==> newSize > 0 && blocks == old(blocks)[k := Block(ptr, newSize)]
      ensures newSize > 0 && Word(Align(newSize)) <= Align(originalSize) ==>
        ptr == originalPtr && chunks == old(chunks) && memory == old(memory)
      ensures Word(Align(newSize)) > Align(originalSize) && old(CanGrow(originalPtr, originalSize, newSize)) ==>
        && ptr == originalPtr && memory == old(memory)
        && chunks == old(chunks)[0 :=
             old(chunks)[0].(size := Word(old(chunks)[0].size + (Word(Align(newSize)) - Align(originalSize))))]
      ensures ptr != 0 ==>
        var kept := if originalSize < newSize then originalSize else newSize;
        Bytes(memory, ptr, kept) == Bytes(old(memory), originalPtr, kept)
      ensures ptr != 0 && !old(Wraps(originalPtr, originalSize, newSize)) ==>
        TotalSize(chunks) == TotalSize(old(chunks)) + old(Taken(originalPtr, originalSize, newSize))
      ensures !old(Wraps(originalPtr, originalSize, newSize)) ==>
        forall m | 0 <= m < |blocks| && m != k ::
          Bytes(memory, blocks[m].ptr, blocks[m].size) == Bytes(old(memory), blocks[m].ptr, blocks[m].size)
    {
      ptr := 0;
      if newSize == 0 {
        return;
      }
      hide Sound, SoundChunks, Housed, UserLast, Bytes, Apart, Copy, Inside, Fresh, Align, NoRoom, Top, Word;
      SoundHouses(chunks, blocks, k);
      BelowLimit(chunks, blocks, k);
      var have, need := Word(Align(originalSize)), Word(Align(newSize));
      WordShrinks(newSize);
      AlignMonotone(originalSize, newSize);
      AlignMonotone(newSize, originalSize);
      if have >= need {
        Keep(k, newSize);
        return originalPtr;
      }
      if originalPtr == Top(chunks[0]) - have {
        var increment := need - have;
        if Word(chunks[0].size + increment) <= chunks[0].capacity {
          Grow(k, newSize, increment);
          return originalPtr;
        }
      }
      assert !CanGrow(originalPtr, originalSize, newSize);
      ptr := Move(k, originalPtr, originalSize, newSize, given);
    }

    /** The block is long enough as it is, or seems to be. */
    ghost method Keep(k: nat, newSize: nat)
      requires Valid() && k < |blocks| && 0 < newSize && Word(Align(newSize)) <= Align(blocks[k].size)
      modifies this`blocks
      ensures Valid() <==> Align(newSize) < ADDRESS_LIMIT
      ensures blocks == old(blocks)[k := Block(old(blocks)[k].ptr, newSize)]
    {
      hide Sound, UserLast, Align, Word;
      BelowLimit(chunks, blocks, k);
      if Align(newSize) < ADDRESS_LIMIT {
        ResizeSound(chunks, blocks, k, newSize);
      }
      blocks := blocks[k := Block(blocks[k].ptr, newSize)];
      if Align(newSize) >= ADDRESS_LIMIT {
        BeyondMemory(chunks, blocks, k);
      }
    }

    /** The last block grows where it is, or seems to. */
    method Grow(ghost k: nat, ghost newSize: nat, increment: nat)
      requires Valid() && k < |blocks| && 0 < newSize && Align(newSize) < ADDRESS_LIMIT
      requires 0 < increment == Align(newSize) - Align(blocks[k].size)
      requires CanGrow(blocks[k].ptr, blocks[k].size, newSize)
      modifies this`chunks, this`blocks
      ensures Valid() <==> old(chunks[0]).size + increment < ADDRESS_LIMIT
      ensures blocks == old(blocks)[k := Block(old(blocks)[k].ptr, newSize)]
      ensures chunks == old(chunks)[0 := old(chunks)[0].(size := Word(old(chunks)[0].size + increment))]
      ensures old(chunks[0]).size + increment < ADDRESS_LIMIT ==>
        TotalSize(chunks) == TotalSize(old(chunks)) + increment
    {
      hide Sound, SoundChunks, Housed, UserLast, Apart, Inside, Align, Word;
      SoundHouses(chunks, blocks, k);
      HeadSound(chunks, blocks);
      LastBlock(chunks, blocks[k]);
      if chunks[0].size + increment < ADDRESS_LIMIT {
        GrowSound(chunks, blocks, k, newSize);
        UserKept(chunks, userBuffer, chunks[0].size + increment);
      }
      blocks := blocks[k := Block(blocks[k].ptr, newSize)];
      HeadTotals(chunks, chunks[0].size + increment);
      chunks := chunks[0 := chunks[0].(size := Word(chunks[0].size + increment))];
      if old(chunks[0]).size + increment >= ADDRESS_LIMIT {
        BeyondMemory(chunks, blocks, k);
      }
    }

    /** The end of Realloc: a new block, with the old one copied into it and given up. */
    method Move(ghost k: nat, originalPtr: nat, originalSize: nat, newSize: nat, given: Option<nat>) returns (ptr: nat)
      requires Valid() && k < |blocks| && blocks[k] == Block(originalPtr, originalSize)
      requires 0 < originalSize < newSize && Align(originalSize) <= Align(newSize) < ADDRESS_LIMIT
      requires given.Some? ==> Fresh(chunks, given.value, Wanted(newSize))
      modifies this`chunks, this`blocks, this`memory
      ensures Valid() <==> ptr == 0 || !old(SumWraps(newSize))
      ensures ptr == 0 ==> blocks == old(blocks) && chunks == old(chunks) && memory == old(memory)
      ensures ptr == 0 <==> old(NoRoom(newSize)) && given == None
      ensures ptr != 0 ==> blocks == old(blocks)[k := Block(ptr, newSize)]
      ensures ptr != 0 ==> Bytes(memory, ptr, originalSize) == Bytes(old(memory), originalPtr, originalSize)
      ensures ptr != 0 && !old(SumWraps(newSize)) ==> TotalSize(chunks) == TotalSize(old(chunks)) + Align(newSize)
      ensures !old(SumWraps(newSize)) ==>
        forall m | 0 <= m < |blocks| && m != k ::
          Bytes(memory, blocks[m].ptr, blocks[m].size) == Bytes(old(memory), blocks[m].ptr, blocks[m].size)
    {
      hide Sound, UserLast, Bytes, Copy, Fresh, Align, Word;
      HeadSound(chunks, blocks);
      ghost var before := blocks;
      var have, need := Align(originalSize), Align(newSize);
      AlignMonotone(newSize, newSize);
      ptr := Malloc(need, given);
      if ptr != 0 {
        CopyCopies(memory, ptr, originalPtr, have, originalSize);
        if !old(SumWraps(newSize)) {
          CopyKeeps(before, Block(ptr, need), chunks, memory, originalPtr, have);
          ResizeSound(chunks, blocks, |before|, newSize);
          assert blocks[|before| := Block(ptr, newSize)] == before + [Block(ptr, newSize)];
          ReplaceSound(chunks, before, k, Block(ptr, newSize));
        }
        memory := Copy(memory, ptr, originalPtr, have);
        blocks := before[k := Block(ptr, newSize)];
        if old(Used()) + need >= ADDRESS_LIMIT {
          WrapNeedsNoRoom(old(Used()), newSize);
          BeyondMemory(chunks, blocks, k);
        } else if old(SumWraps(newSize)) {
          TooLongUnsound(chunks, blocks);
        }
      }
    }

    /** Empties the pool. `freed` lists the chunks given back, which never include the user's buffer. */
    method Clear() returns (freed: seq<nat>)
      requires Valid()
      modifies this`chunks, this`blocks
      ensures Valid() && blocks == []
      ensures freed == Bases(OwnChunks(old(chunks), userBuffer))
      ensures chunks == if userBuffer.Some? then [old(chunks)[|old(chunks)| - 1].(size := 0)] else []
      ensures userBuffer.Some? ==> userBuffer.value !in freed
      ensures TotalSize(chunks) == 0
      ensures TotalCapacity(chunks) == if userBuffer.Some? then old(chunks)[|old(chunks)| - 1].capacity else 0
    {
      hide SoundChunks, Sound, UserLast, OwnChunks, TotalSize, TotalCapacity;
      SoundParts(chunks, blocks);
      blocks := [];
      freed := [];
      ghost var all := chunks;
      OwnAreNotUser(chunks, userBuffer);
      while chunks != [] && userBuffer != Some(chunks[0].base)
        invariant UserLast(chunks, userBuffer) && SoundChunks(chunks) && blocks == []
        invariant freed + Bases(OwnChunks(chunks, userBuffer)) == Bases(OwnChunks(all, userBuffer))
        invariant chunks != [] ==> all != [] && chunks[|chunks| - 1] == all[|all| - 1]
        decreases |chunks|
      {
        UserRest(chunks, userBuffer);
        freed := freed + [chunks[0].base];
        chunks := chunks[1..];
      }
      UserAlone(chunks, userBuffer);
      if chunks != [] {
        assert chunks == [chunks[0]];
        chunks := chunks[0 := chunks[0].(size := 0)];
        assert chunks == [chunks[0]];
      }
      ClearedTotals(chunks);
    }

    method Size() returns (total: nat)
      ensures total == TotalSize(chunks)
    {
      total := 0;
      var i := 0;
      assert chunks[0..] == chunks;
      while i < |chunks|
        invariant i <= |chunks| && total + TotalSize(chunks[i..]) == TotalSize(chunks)
      {
        assert chunks[i..][1..] == chunks[i + 1..];
        total := total + chunks[i].size;
        i := i + 1;
      }
    }

    method Capacity() returns (total: nat)
      ensures total == TotalCapacity(chunks)
    {
      total := 0;
      var i := 0;
      assert chunks[0..] == chunks;
      while i < |chunks|
        invariant i <= |chunks| && total + TotalCapacity(chunks[i..]) == TotalCapacity(chunks)
      {
        assert chunks[i..][1..] == chunks[i + 1..];
        total := total + chunks[i].capacity;
        i := i + 1;
      }
    }
  }

  lemma {:induction false} HeadSound(chunks: seq<Chunk>, blocks: seq<Block>)
    requires Sound(chunks, blocks)
    ensures chunks != [] ==>
      0 < chunks[0].base && chunks[0].size <= chunks[0].capacity && Limit(chunks[0]) <= ADDRESS_LIMIT
  {
  }

  /** A sum that wraps is less than what was in use, so the head chunk seems to have room for it. */
  lemma {:induction false} WrapNeedsNoRoom(used: nat, size: nat)
    requires used < ADDRESS_LIMIT && size < ADDRESS_LIMIT && used + Align(size) >= ADDRESS_LIMIT
    ensures Word(used + Word(Align(size))) <= used
  {
  }

  lemma {:induction false} WordShrinks(size: nat)
    requires 0 < size < ADDRESS_LIMIT
    ensures Word(Align(size)) == if Align(size) < ADDRESS_LIMIT then Align(size) else 0
  {
  }

  lemma {:induction false} SoundParts(chunks: seq<Chunk>, blocks: seq<Block>)
    requires Sound(chunks, blocks)
    ensures SoundChunks(chunks)
  {
  }

  lemma {:induction false} SoundHouses(chunks: seq<Chunk>, blocks: seq<Block>, k: nat)
    requires Sound(chunks, blocks) && k < |blocks|
    ensures SoundChunks(chunks) && Housed(chunks, blocks[k]) && chunks != [] && blocks[k].size > 0
  {
    assert Housed(chunks, blocks[k]);
  }

  /** The one size that makes a chunk in use look empty: it is granted without any room for it. */
  method WrappedSizeGranted(pool: MemoryPoolAllocator) returns (ptr: nat)
    requires pool.Valid() && pool.chunks != [] && pool.chunks[0].size > 0
    modifies pool
    ensures ptr != 0 && !pool.Valid() && pool.chunks == old(pool.chunks)[0 := old(pool.chunks[0]).(size := 0)]
  {
    hide Sound, UserLast;
    HeadInUse(pool.chunks, pool.blocks);
    ptr := pool.Malloc(ADDRESS_LIMIT - pool.chunks[0].size, None);
  }

  lemma {:induction false} HeadInUse(chunks: seq<Chunk>, blocks: seq<Block>)
    requires Sound(chunks, blocks) && chunks != []
    ensures chunks[0].size < ADDRESS_LIMIT && chunks[0].size % 8 == 0
  {
  }

  /** The copy goes into the new block only, so every other block keeps its bytes. */
  lemma {:induction false} CopyKeeps(before: seq<Block>, b: Block, chunks: seq<Chunk>, memory: nat -> byte,
                                     from: nat, n: nat)
    requires Sound(chunks, before + [b]) && n <= Align(b.size)
    ensures forall m | 0 <= m < |before| ::
      Bytes(Copy(memory, b.ptr, from, n), before[m].ptr, before[m].size) == Bytes(memory, before[m].ptr, before[m].size)
  {
    hide Bytes, Copy;
    var all := before + [b];
    forall m | 0 <= m < |before|
      ensures Bytes(Copy(memory, b.ptr, from, n), before[m].ptr, before[m].size)
        == Bytes(memory, before[m].ptr, before[m].size)
    {
      assert Apart(all[m].ptr, End(all[m]), all[|before|].ptr, End(all[|before|]));
      CopySpares(memory, b.ptr, from, n, before[m].ptr, before[m].size);
    }
  }
}
