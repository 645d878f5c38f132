/**
 The pool allocator of src/memory/memory.hh as a state: free lists, headers, and the address
 ranges obtained from malloc. An address handed in is the one malloc would return.
 */
module PoolModel {
  import opened Common

  const NUM_POOLS: nat := 7
  const HEADER: nat := 16
  const SYSTEM: nat := 255
  const CHUNK: nat := 128

  datatype Range = Range(lo: nat, len: nat)

  predicate Apart(r: Range, s: Range) {
    r.lo + r.len <= s.lo || s.lo + s.len <= r.lo
  }

  predicate Inside(r: Range, s: Range) {
    s.lo <= r.lo && r.lo + r.len <= s.lo + s.len
  }

  datatype Pool = Pool(blockSize: nat, free: seq<nat>, freeCount: int, chunks: nat)

  /** owner and length of a block, whether free or handed out. */
  datatype Block = Block(len: nat, owner: nat)

  datatype Header = Header(size: nat, poolIndex: nat)

  /**
   blocks: every block in existence; live: the size requested of each block handed out;
   ranges: what malloc has given out and not got back.
   */
  datatype Heap = Heap(pools: seq<Pool>, headers: map<nat, Header>, blocks: map<nat, Block>,
                       live: map<nat, nat>, ranges: set<Range>)

  /** Consecutive block addresses from base. */
  function Carve(base: nat, blockSize: nat, count: nat): (r: seq<nat>)
    ensures |r| == count
    decreases count, base
  {
    if count == 0 then [] else [base] + Carve(base + blockSize, blockSize, count - 1)
  }

  function Expand(p: Pool, count: nat, base: nat): Pool {
    p.(free := p.free + Carve(base, p.blockSize, count), freeCount := p.freeCount + count, chunks := p.chunks + 1)
  }

  /** Half of what the chunks so far hold, and at least 32 blocks. */
  function Growth(p: Pool): nat {
    var half := p.chunks * CHUNK / 2;
    if half > 32 then half else 32
  }

  function TakeLast(p: Pool): Pool
    requires p.free != []
  {
    p.(free := p.free[..|p.free| - 1], freeCount := p.freeCount - 1)
  }

  function ReturnBlock(p: Pool, block: nat): Pool {
    p.(free := p.free + [block], freeCount := p.freeCount + 1)
  }

  function PoolIndex(size: nat): nat {
    if size <= 4 then 0
    else if size <= 8 then 1
    else if size <= 16 then 2
    else if size <= 32 then 3
    else if size <= 64 then 4
    else if size <= 128 then 5
    else if size <= 256 then 6
    else SYSTEM
  }

  /** malloc returns an address that is not null, and a range apart from everything it has given out. */
  ghost predicate MallocMayReturn(h: Heap, base: nat, len: nat) {
    base > 0 && forall r | r in h.ranges :: Apart(Range(base, len), r)
  }

  /** If this allocation calls malloc, base is an address malloc may return. */
  ghost predicate MallocAllows(h: Heap, size: nat, base: nat)
    requires |h.pools| == NUM_POOLS
  {
    var i := PoolIndex(size + HEADER);
    if i >= NUM_POOLS then MallocMayReturn(h, base, size + HEADER)
    else h.pools[i].free == [] ==> MallocMayReturn(h, base, h.pools[i].blockSize * Growth(h.pools[i]))
  }

  function GrowPool(h: Heap, i: nat, count: nat, base: nat): Heap
    requires i < |h.pools|
  {
    var p := h.pools[i];
    h.(pools := h.pools[i := Expand(p, count, base)],
       blocks := h.blocks + map b | b in Carve(base, p.blockSize, count) :: Block(p.blockSize, i),
       ranges := h.ranges + {Range(base, p.blockSize * count)})
  }

  /** Takes the last free block of pool i for a request of that size. */
  function HandOut(h: Heap, i: nat, size: nat): (Heap, nat)
    requires i < |h.pools| && h.pools[i].free != []
  {
    var p := h.pools[i];
    var block := p.free[|p.free| - 1];
    (h.(pools := h.pools[i := TakeLast(p)],
        headers := h.headers[block := Header(size % 0x1_0000_0000, i)],
        live := h.live[block := size]), block + HEADER)
  }

  function SystemAllocate(h: Heap, size: nat, base: nat): (Heap, nat) {
    (h.(headers := h.headers[base := Header(size % 0x1_0000_0000, SYSTEM)],
        blocks := h.blocks[base := Block(size + HEADER, SYSTEM)],
        live := h.live[base := size],
        ranges := h.ranges + {Range(base, size + HEADER)}), base + HEADER)
  }

  /** Pool i with a new chunk if it has run out. */
  function Refilled(h: Heap, i: nat, base: nat): (g: Heap)
    requires i < |h.pools|
    ensures i < |g.pools| && g.pools[i].free != []
  {
    if h.pools[i].free != [] then h
    else
      var g := GrowPool(h, i, Growth(h.pools[i]), base);
      assert |g.pools[i].free| >= 32;
      g
  }

  function AllocateAt(h: Heap, i: nat, size: nat, base: nat): (Heap, nat)
    requires |h.pools| == NUM_POOLS
  {
    if i >= NUM_POOLS then SystemAllocate(h, size, base) else HandOut(Refilled(h, i, base), i, size)
  }

  function Allocate(h: Heap, size: nat, base: nat): (Heap, nat)
    requires |h.pools| == NUM_POOLS
  {
    AllocateAt(h, PoolIndex(size + HEADER), size, base)
  }

  /** Routes a block by its header, back to a pool or to the system. */
  function TakeBack(h: Heap, mem: nat): Heap
    requires |h.pools| == NUM_POOLS && mem in h.headers
  {
    var i := h.headers[mem].poolIndex;
    if i < NUM_POOLS then
      h.(pools := h.pools[i := ReturnBlock(h.pools[i], mem)], live := h.live - {mem})
    else
      h.(blocks := h.blocks - {mem}, live := h.live - {mem},
         ranges := set r | r in h.ranges && r.lo != mem)
  }

  function Deallocate(h: Heap, ptr: nat): Heap
    requires |h.pools| == NUM_POOLS && ptr >= HEADER && ptr - HEADER in h.headers
  {
    TakeBack(h, ptr - HEADER)
  }

  // ---------- The invariant ----------

  function Extent(b: nat, blocks: map<nat, Block>): Range
    requires b in blocks
  {
    Range(b, blocks[b].len)
  }

  ghost predicate RangesApart(ranges: set<Range>) {
    forall r, s | r in ranges && s in ranges && r != s :: Apart(r, s)
  }

  ghost predicate BlocksApart(blocks: map<nat, Block>) {
    && (forall b | b in blocks :: b > 0 && blocks[b].len > 0)
    && (forall a, b | a in blocks && b in blocks && a != b :: Apart(Extent(a, blocks), Extent(b, blocks)))
  }

  ghost predicate Housed(r: Range, ranges: set<Range>) {
    exists s :: s in ranges && Inside(r, s)
  }

  /** Each block lies inside a range obtained from malloc. */
  ghost predicate AllHoused(blocks: map<nat, Block>, ranges: set<Range>) {
    forall b | b in blocks :: Housed(Extent(b, blocks), ranges)
  }

  /** A pool's free list holds its blocks that are not handed out, each once, and freeCount is their number. */
  ghost predicate PoolOk(p: Pool, i: nat, blocks: map<nat, Block>, live: map<nat, nat>) {
    && p.freeCount == |p.free| && Distinct(p.free)
    && (forall b | b in p.free :: b in blocks && blocks[b].owner == i && b !in live)
    && (forall b | b in blocks && blocks[b].owner == i :: blocks[b].len == p.blockSize && (b in live || b in p.free))
  }

  /** A block handed out holds header and request, and its header names its owner. */
  ghost predicate LiveOk(blocks: map<nat, Block>, headers: map<nat, Header>, live: map<nat, nat>) {
    forall b | b in live ::
      && b in blocks && b in headers && blocks[b].len >= HEADER + live[b] && headers[b].poolIndex == blocks[b].owner
  }

  /** A block outside the pools is a whole malloc range, is handed out, and has no other block in its range. */
  ghost predicate SystemOk(blocks: map<nat, Block>, live: map<nat, nat>, ranges: set<Range>) {
    forall b | b in blocks && blocks[b].owner >= NUM_POOLS ::
      blocks[b].owner == SYSTEM && b in live && Extent(b, blocks) in ranges
  }

  const SIZES: seq<nat> := [4, 8, 16, 32, 64, 128, 256]

  ghost predicate Sized(pools: seq<Pool>) {
    |pools| == NUM_POOLS && forall i | 0 <= i < NUM_POOLS :: pools[i].blockSize == SIZES[i]
  }

  ghost predicate Inv(h: Heap) {
    && Sized(h.pools)
    && RangesApart(h.ranges)
    && BlocksApart(h.blocks)
    && AllHoused(h.blocks, h.ranges)
    && LiveOk(h.blocks, h.headers, h.live)
    && SystemOk(h.blocks, h.live, h.ranges)
    && forall i | 0 <= i < NUM_POOLS :: PoolOk(h.pools[i], i, h.blocks, h.live)
  }

  // ---------- Carving a chunk ----------

  lemma {:induction false} CarveBounds(base: nat, blockSize: nat, count: nat, k: nat)
    requires k < count
    ensures base <= Carve(base, blockSize, count)[k]
    ensures Carve(base, blockSize, count)[k] + blockSize <= base + blockSize * count
    decreases count
  {
    assert blockSize * count == blockSize + blockSize * (count - 1);
    if k > 0 {
      CarveBounds(base + blockSize, blockSize, count - 1, k - 1);
    } else {
      assert blockSize * (count - 1) >= 0;
    }
  }

  lemma {:induction false} CarveApart(base: nat, blockSize: nat, count: nat, j: nat, k: nat)
    requires j < k < count
    ensures Carve(base, blockSize, count)[j] + blockSize <= Carve(base, blockSize, count)[k]
    decreases count
  {
    if j > 0 {
      CarveApart(base + blockSize, blockSize, count - 1, j - 1, k - 1);
    } else {
      CarveBounds(base + blockSize, blockSize, count - 1, k - 1);
    }
  }

  /** Carved blocks are apart from each other and inside their chunk. */
  lemma CarveOk(base: nat, blockSize: nat, count: nat)
    requires blockSize > 0
    ensures Distinct(Carve(base, blockSize, count))
    ensures forall b | b in Carve(base, blockSize, count) :: Inside(Range(b, blockSize), Range(base, blockSize * count))
    ensures forall a, b | a in Carve(base, blockSize, count) && b in Carve(base, blockSize, count) && a != b ::
              Apart(Range(a, blockSize), Range(b, blockSize))
  {
    var c := Carve(base, blockSize, count);
    forall j, k | 0 <= j < k < count ensures c[j] + blockSize <= c[k] {
      CarveApart(base, blockSize, count, j, k);
    }
    forall b | b in c ensures Inside(Range(b, blockSize), Range(base, blockSize * count)) {
      var k :| 0 <= k < count && c[k] == b;
      CarveBounds(base, blockSize, count, k);
    }
  }

  /** A range malloc may return is apart from every block. */
  lemma FreshApart(h: Heap, base: nat, len: nat, b: nat)
    requires AllHoused(h.blocks, h.ranges) && MallocMayReturn(h, base, len) && b in h.blocks
    ensures Apart(Extent(b, h.blocks), Range(base, len))
  {
    var r :| r in h.ranges && Inside(Extent(b, h.blocks), r);
  }

  lemma HousedStill(blocks: map<nat, Block>, more: map<nat, Block>, ranges: set<Range>, r: Range)
    requires AllHoused(blocks, ranges)
    requires forall b | b in more :: (b in blocks && more[b] == blocks[b]) || Inside(Extent(b, more), r)
    ensures AllHoused(more, ranges + {r})
  {
    forall b | b in more ensures Housed(Extent(b, more), ranges + {r}) {
      if b in blocks && more[b] == blocks[b] {
        var s :| s in ranges && Inside(Extent(b, blocks), s);
        assert s in ranges + {r};
      } else {
        assert r in ranges + {r};
      }
    }
  }

  lemma DistinctConcat(a: seq<nat>, b: seq<nat>)
    requires Distinct(a) && Distinct(b) && forall x | x in b :: x !in a
    ensures Distinct(a + b)
  {
    var c := a + b;
    forall i, j | 0 <= i < j < |c| ensures c[i] != c[j] {
      if i < |a| <= j { assert c[j] in b && c[i] in a; }
    }
  }

  // ---------- Growing a pool ----------

  /** The blocks a pool gains are nobody else's, and keep the space layout. */
  lemma ChunkIsApart(h: Heap, len: nat, count: nat, base: nat)
    requires AllHoused(h.blocks, h.ranges) && BlocksApart(h.blocks) && len > 0 && MallocMayReturn(h, base, len * count)
    ensures forall b | b in h.blocks :: b !in Carve(base, len, count) && Apart(Extent(b, h.blocks), Range(base, len * count))
  {
    CarveOk(base, len, count);
    forall b | b in h.blocks
      ensures b !in Carve(base, len, count) && Apart(Extent(b, h.blocks), Range(base, len * count))
    {
      FreshApart(h, base, len * count, b);
    }
  }

  lemma GrowKeepsSpace(h: Heap, i: nat, count: nat, base: nat)
    requires Inv(h) && i < NUM_POOLS && MallocMayReturn(h, base, h.pools[i].blockSize * count)
    ensures var g := GrowPool(h, i, count, base);
            RangesApart(g.ranges) && BlocksApart(g.blocks) && AllHoused(g.blocks, g.ranges)
    ensures forall b | b in Carve(base, h.pools[i].blockSize, count) :: b !in h.blocks
  {
    var len := h.pools[i].blockSize;
    var c, g := Carve(base, len, count), GrowPool(h, i, count, base);
    var chunk := Range(base, len * count);
    CarveOk(base, len, count);
    ChunkIsApart(h, len, count, base);
    GrownBlocksApart(h.blocks, c, chunk, len, i);
    HousedStill(h.blocks, g.blocks, h.ranges, chunk);
  }

  lemma GrownBlocksApart(blocks: map<nat, Block>, c: seq<nat>, chunk: Range, len: nat, i: nat)
    requires BlocksApart(blocks) && len > 0 && chunk.lo > 0
    requires forall b | b in blocks :: b !in c && Apart(Extent(b, blocks), chunk)
    requires forall b | b in c :: Inside(Range(b, len), chunk)
    requires forall a, b | a in c && b in c && a != b :: Apart(Range(a, len), Range(b, len))
    ensures BlocksApart(blocks + map b | b in c :: Block(len, i))
  {
    var more := blocks + map b | b in c :: Block(len, i);
    forall a, b | a in more && b in more && a != b ensures Apart(Extent(a, more), Extent(b, more)) {
      assert a in c ==> Extent(a, more) == Range(a, len);
      assert b in c ==> Extent(b, more) == Range(b, len);
      assert a !in c ==> Extent(a, more) == Extent(a, blocks);
      assert b !in c ==> Extent(b, more) == Extent(b, blocks);
    }
  }

  lemma GrownPoolOk(h: Heap, i: nat, count: nat, base: nat, k: nat)
    requires Inv(h) && i < NUM_POOLS && k < NUM_POOLS
    requires Distinct(Carve(base, h.pools[i].blockSize, count))
    requires forall b | b in Carve(base, h.pools[i].blockSize, count) :: b !in h.blocks
    ensures var g := GrowPool(h, i, count, base); PoolOk(g.pools[k], k, g.blocks, g.live)
  {
    var c := Carve(base, h.pools[i].blockSize, count);
    assert PoolOk(h.pools[k], k, h.blocks, h.live);
    if k == i {
      DistinctConcat(h.pools[i].free, c);
    }
  }

  lemma GrowKeepsInv(h: Heap, i: nat, count: nat, base: nat)
    requires Inv(h) && i < NUM_POOLS && MallocMayReturn(h, base, h.pools[i].blockSize * count)
    ensures Inv(GrowPool(h, i, count, base))
  {
    var g := GrowPool(h, i, count, base);
    GrowKeepsSpace(h, i, count, base);
    CarveOk(base, h.pools[i].blockSize, count);
    forall k | 0 <= k < NUM_POOLS ensures PoolOk(g.pools[k], k, g.blocks, g.live) {
      GrownPoolOk(h, i, count, base, k);
    }
    assert forall b | b in h.blocks :: b in g.blocks && g.blocks[b] == h.blocks[b];
  }

  // ---------- Handing out and taking back ----------

  lemma HandOutPoolOk(h: Heap, i: nat, size: nat, k: nat)
    requires Inv(h) && i < NUM_POOLS && h.pools[i].free != [] && k < NUM_POOLS
    ensures var g := HandOut(h, i, size).0; PoolOk(g.pools[k], k, g.blocks, g.live)
  {
    var g := HandOut(h, i, size).0;
    var f := h.pools[i].free;
    var block := f[|f| - 1];
    assert PoolOk(h.pools[i], i, h.blocks, h.live) && PoolOk(h.pools[k], k, h.blocks, h.live);
    assert block in f;
    assert f == f[..|f| - 1] + [block];
  }

  lemma HandOutKeepsInv(h: Heap, i: nat, size: nat)
    requires Inv(h) && i < NUM_POOLS && h.pools[i].free != [] && size + HEADER <= h.pools[i].blockSize
    ensures Inv(HandOut(h, i, size).0)
  {
    var g := HandOut(h, i, size).0;
    var block := h.pools[i].free[|h.pools[i].free| - 1];
    assert PoolOk(h.pools[i], i, h.blocks, h.live) && block in h.pools[i].free;
    forall k | 0 <= k < NUM_POOLS ensures PoolOk(g.pools[k], k, g.blocks, g.live) {
      HandOutPoolOk(h, i, size, k);
    }
  }

  lemma OneMoreApart(blocks: map<nat, Block>, base: nat, block: Block)
    requires BlocksApart(blocks) && base > 0 && block.len > 0 && base !in blocks
    requires forall b | b in blocks :: Apart(Extent(b, blocks), Range(base, block.len))
    ensures BlocksApart(blocks[base := block])
  {
    var more := blocks[base := block];
    forall b | b in more ensures Extent(b, more) == if b == base then Range(base, block.len) else Extent(b, blocks) {}
  }

  lemma SystemIsApart(h: Heap, size: nat, base: nat)
    requires AllHoused(h.blocks, h.ranges) && BlocksApart(h.blocks) && MallocMayReturn(h, base, size + HEADER)
    ensures base !in h.blocks
    ensures forall b | b in h.blocks :: Apart(Extent(b, h.blocks), Range(base, size + HEADER))
  {
    forall b | b in h.blocks ensures b != base && Apart(Extent(b, h.blocks), Range(base, size + HEADER)) {
      FreshApart(h, base, size + HEADER, b);
    }
  }

  lemma SystemKeepsSpace(h: Heap, size: nat, base: nat)
    requires Inv(h) && MallocMayReturn(h, base, size + HEADER)
    ensures base !in h.blocks
    ensures var g := SystemAllocate(h, size, base).0;
            RangesApart(g.ranges) && BlocksApart(g.blocks) && AllHoused(g.blocks, g.ranges)
  {
    SystemIsApart(h, size, base);
    OneMoreApart(h.blocks, base, Block(size + HEADER, SYSTEM));
    HousedStill(h.blocks, h.blocks[base := Block(size + HEADER, SYSTEM)], h.ranges, Range(base, size + HEADER));
  }

  lemma SystemAllocateKeepsInv(h: Heap, size: nat, base: nat)
    requires Inv(h) && MallocMayReturn(h, base, size + HEADER)
    ensures Inv(SystemAllocate(h, size, base).0)
  {
    var g := SystemAllocate(h, size, base).0;
    SystemKeepsSpace(h, size, base);
    forall k | 0 <= k < NUM_POOLS ensures PoolOk(g.pools[k], k, g.blocks, g.live) {
      assert PoolOk(h.pools[k], k, h.blocks, h.live);
    }
  }

  lemma RefillKeepsInv(h: Heap, i: nat, base: nat)
    requires Inv(h) && i < NUM_POOLS
    requires h.pools[i].free == [] ==> MallocMayReturn(h, base, h.pools[i].blockSize * Growth(h.pools[i]))
    ensures var g := Refilled(h, i, base); Inv(g) && g.live == h.live && g.headers == h.headers
    ensures var g := Refilled(h, i, base); forall b | b in h.blocks :: b in g.blocks && g.blocks[b] == h.blocks[b]
  {
    if h.pools[i].free == [] {
      GrowKeepsInv(h, i, Growth(h.pools[i]), base);
      GrowKeepsSpace(h, i, Growth(h.pools[i]), base);
    }
  }

  /** Allocation keeps the invariant whenever malloc does its part. */
  lemma AllocateKeepsInv(h: Heap, size: nat, base: nat)
    requires Inv(h) && MallocAllows(h, size, base)
    ensures Inv(Allocate(h, size, base).0)
  {
    var i := PoolIndex(size + HEADER);
    if i >= NUM_POOLS {
      SystemAllocateKeepsInv(h, size, base);
    } else {
      assert size + HEADER <= SIZES[i];
      RefillKeepsInv(h, i, base);
      HandOutKeepsInv(Refilled(h, i, base), i, size);
    }
  }

  lemma ReturnedOk(p: Pool, k: nat, blocks: map<nat, Block>, live: map<nat, nat>, mem: nat)
    requires PoolOk(p, k, blocks, live) && mem in blocks && mem in live
    ensures PoolOk(if blocks[mem].owner == k then ReturnBlock(p, mem) else p, k, blocks, live - {mem})
  {
    if blocks[mem].owner == k {
      assert mem !in p.free;
      DistinctConcat(p.free, [mem]);
    }
  }

  lemma RemovedOk(p: Pool, k: nat, blocks: map<nat, Block>, live: map<nat, nat>, mem: nat)
    requires PoolOk(p, k, blocks, live) && mem in blocks && mem in live && blocks[mem].owner != k
    ensures PoolOk(p, k, blocks - {mem}, live - {mem})
  {
  }

  lemma SystemOkWithout(h: Heap, mem: nat)
    requires Inv(h) && mem in h.live
    ensures var g := TakeBack(h, mem); SystemOk(g.blocks, g.live, g.ranges)
  {
    var g := TakeBack(h, mem);
    forall b | b in g.blocks && g.blocks[b].owner >= NUM_POOLS
      ensures b in g.live && Extent(b, g.blocks) in g.ranges
    {
      assert b != mem && b in h.live && Extent(b, h.blocks) in h.ranges;
    }
  }

  /** Freeing a system block takes exactly its own range away, so every other block is still housed. */
  lemma SystemFreeKeepsHousing(blocks: map<nat, Block>, ranges: set<Range>, mem: nat, b: nat)
    requires BlocksApart(blocks) && AllHoused(blocks, ranges) && mem in blocks && b in blocks && b != mem
    requires RangesApart(ranges) && Extent(mem, blocks) in ranges
    ensures Housed(Extent(b, blocks), set r | r in ranges && r.lo != mem)
  {
    assert Housed(Extent(b, blocks), ranges) && Apart(Extent(b, blocks), Extent(mem, blocks));
    var s :| s in ranges && Inside(Extent(b, blocks), s);
    assert s != Extent(mem, blocks) ==> Apart(s, Extent(mem, blocks));
    assert s in set r | r in ranges && r.lo != mem;
  }

  /** So does taking back any block handed out. */
  lemma TakeBackKeepsInv(h: Heap, mem: nat)
    requires Inv(h) && mem in h.live
    ensures Inv(TakeBack(h, mem))
  {
    var g := TakeBack(h, mem);
    SystemOkWithout(h, mem);
    if h.headers[mem].poolIndex >= NUM_POOLS {
      forall b | b in g.blocks ensures Housed(Extent(b, g.blocks), g.ranges) {
        SystemFreeKeepsHousing(h.blocks, h.ranges, mem, b);
      }
    }
    forall k | 0 <= k < NUM_POOLS ensures PoolOk(g.pools[k], k, g.blocks, g.live) {
      assert PoolOk(h.pools[k], k, h.blocks, h.live);
      if h.headers[mem].poolIndex < NUM_POOLS {
        ReturnedOk(h.pools[k], k, h.blocks, h.live, mem);
      } else {
        RemovedOk(h.pools[k], k, h.blocks, h.live, mem);
      }
    }
    LiveOkWithout(h, mem);
  }

  lemma LiveOkWithout(h: Heap, mem: nat)
    requires Inv(h) && mem in h.live
    ensures var g := TakeBack(h, mem); LiveOk(g.blocks, g.headers, g.live)
  {
  }

  // ---------- Whole histories ----------

  datatype Op = Alloc(size: nat, base: nat) | Free(ptr: nat)

  /** A new allocator: each pool starts with one chunk of CHUNK blocks, at the address in bases. */
  function NewPools(bases: seq<nat>): Heap
    requires |bases| <= NUM_POOLS
    ensures |NewPools(bases).pools| == NUM_POOLS
    decreases bases
  {
    if bases == [] then
      Heap(seq(NUM_POOLS, i requires 0 <= i < |SIZES| => Pool(SIZES[i], [], 0, 0)), map[], map[], map[], {})
    else
      var n := |bases| - 1;
      GrowPool(NewPools(bases[..n]), n, CHUNK, bases[n])
  }

  ghost predicate MallocAllowsNew(bases: seq<nat>)
    requires |bases| <= NUM_POOLS
    decreases bases
  {
    bases != [] ==>
      var n := |bases| - 1;
      MallocAllowsNew(bases[..n]) && MallocMayReturn(NewPools(bases[..n]), bases[n], SIZES[n] * CHUNK)
  }

  /** ptr was returned by an allocation and not yet freed. */
  predicate Held(h: Heap, ptr: nat) {
    ptr >= HEADER && ptr - HEADER in h.live
  }

  /** malloc does its part, and the caller frees only pointers it holds. */
  ghost predicate Allowed(h: Heap, op: Op)
    requires |h.pools| == NUM_POOLS
  {
    match op
    case Alloc(size, base) => MallocAllows(h, size, base)
    case Free(ptr) => Held(h, ptr) && ptr - HEADER in h.headers
  }

  function Step(h: Heap, op: Op): Heap
    requires |h.pools| == NUM_POOLS && Allowed(h, op)
  {
    match op
    case Alloc(size, base) => Allocate(h, size, base).0
    case Free(ptr) => Deallocate(h, ptr)
  }

  lemma StepKeepsInv(h: Heap, op: Op)
    requires Inv(h) && Allowed(h, op)
    ensures Inv(Step(h, op))
  {
    match op
    case Alloc(size, base) => AllocateKeepsInv(h, size, base);
    case Free(ptr) => FreeKeepsInv(h, ptr);
  }

  lemma FreeKeepsInv(h: Heap, ptr: nat)
    requires Inv(h) && Held(h, ptr)
    ensures ptr - HEADER in h.headers && Inv(Deallocate(h, ptr))
  {
    TakeBackKeepsInv(h, ptr - HEADER);
  }

  /** ops are allowed one after the other, and hs are the heaps they lead through. */
  ghost predicate IsHistory(hs: seq<Heap>, ops: seq<Op>) {
    && |hs| == |ops| + 1
    && forall i | 0 <= i < |ops| ::
         |hs[i].pools| == NUM_POOLS && Allowed(hs[i], ops[i]) && hs[i + 1] == Step(hs[i], ops[i])
  }

  lemma {:induction false} NewPoolsOk(bases: seq<nat>)
    requires |bases| <= NUM_POOLS && MallocAllowsNew(bases)
    ensures Inv(NewPools(bases))
    decreases bases
  {
    if bases != [] {
      var n := |bases| - 1;
      NewPoolsOk(bases[..n]);
      GrowKeepsInv(NewPools(bases[..n]), n, CHUNK, bases[n]);
    }
  }

  /** From a new allocator on, every lawful history of allocations and frees keeps the invariant throughout. */
  lemma {:induction false} HistoryKeepsInv(bases: seq<nat>, hs: seq<Heap>, ops: seq<Op>, i: nat)
    requires |bases| == NUM_POOLS && MallocAllowsNew(bases)
    requires IsHistory(hs, ops) && hs[0] == NewPools(bases) && i < |hs|
    ensures Inv(hs[i])
  {
    if i == 0 {
      NewPoolsOk(bases);
    } else {
      HistoryKeepsInv(bases, hs, ops, i - 1);
      StepKeepsInv(hs[i - 1], ops[i - 1]);
    }
  }

  // ---------- What the invariant is for ----------

  /** The header and the bytes requested of a block handed out. */
  function InUse(h: Heap, b: nat): Range
    requires b in h.live
  {
    Range(b, HEADER + h.live[b])
  }

  /** No two allocations share a byte, headers included; none touches a free block; all lie inside malloc's ranges. */
  lemma AllocationsApart(h: Heap, a: nat)
    requires Inv(h) && a in h.live
    ensures Housed(InUse(h, a), h.ranges)
    ensures forall b | b in h.live && b != a :: Apart(InUse(h, a), InUse(h, b))
    ensures forall i, b | 0 <= i < NUM_POOLS && b in h.pools[i].free :: b in h.blocks && Apart(InUse(h, a), Extent(b, h.blocks))
  {
    var r :| r in h.ranges && Inside(Extent(a, h.blocks), r);
    assert Inside(InUse(h, a), r);
    forall b | b in h.live && b != a ensures Apart(InUse(h, a), InUse(h, b)) {
      assert Apart(Extent(a, h.blocks), Extent(b, h.blocks));
    }
    forall i, b | 0 <= i < NUM_POOLS && b in h.pools[i].free
      ensures b in h.blocks && Apart(InUse(h, a), Extent(b, h.blocks))
    {
      assert PoolOk(h.pools[i], i, h.blocks, h.live);
      assert Apart(Extent(a, h.blocks), Extent(b, h.blocks));
    }
  }

  /** r is a heap and a pointer: the block was not live, now it is, for size bytes, and nothing else has changed hands. */
  ghost predicate NewlyLive(live: map<nat, nat>, r: (Heap, nat), size: nat, owner: nat) {
    && r.1 >= HEADER && r.1 - HEADER !in live && r.0.live == live[r.1 - HEADER := size]
    && r.1 - HEADER in r.0.blocks && r.0.blocks[r.1 - HEADER].owner == owner
  }

  lemma HandOutIsNew(h: Heap, i: nat, size: nat)
    requires Inv(h) && i < NUM_POOLS && h.pools[i].free != []
    ensures NewlyLive(h.live, HandOut(h, i, size), size, i)
  {
    var f := h.pools[i].free;
    assert PoolOk(h.pools[i], i, h.blocks, h.live) && f[|f| - 1] in f;
  }

  lemma SystemIsNew(h: Heap, size: nat, base: nat)
    requires Inv(h) && MallocMayReturn(h, base, size + HEADER)
    ensures NewlyLive(h.live, SystemAllocate(h, size, base), size, SYSTEM)
  {
    SystemKeepsSpace(h, size, base);
  }

  /** An allocation hands out a block not in use, and leaves every other allocation alone. */
  lemma AllocationIsNew(h: Heap, size: nat, base: nat)
    requires Inv(h) && MallocAllows(h, size, base)
    ensures NewlyLive(h.live, Allocate(h, size, base), size, PoolIndex(size + HEADER))
  {
    var i := PoolIndex(size + HEADER);
    if i >= NUM_POOLS {
      SystemIsNew(h, size, base);
    } else {
      RefillKeepsInv(h, i, base);
      HandOutIsNew(Refilled(h, i, base), i, size);
    }
  }

  function OwnedBy(h: Heap, i: nat): set<nat> {
    set b | b in h.blocks && h.blocks[b].owner == i
  }

  function HandedOutOf(h: Heap, i: nat): set<nat> {
    set b | b in h.blocks && h.blocks[b].owner == i && b in h.live
  }

  function Elements(s: seq<nat>): set<nat> {
    set x | x in s
  }

  lemma {:induction false} DistinctSize(s: seq<nat>)
    requires Distinct(s)
    ensures |Elements(s)| == |s|
  {
    if s != [] {
      var n := |s| - 1;
      DistinctSize(s[..n]);
      assert s == s[..n] + [s[n]];
      assert Elements(s) == Elements(s[..n]) + {s[n]};
    }
  }

  lemma Partition(p: Pool, i: nat, h: Heap)
    requires PoolOk(p, i, h.blocks, h.live)
    ensures OwnedBy(h, i) == Elements(p.free) + HandedOutOf(h, i) && Elements(p.free) !! HandedOutOf(h, i)
  {
  }

  /** Conservation: a pool's blocks are its free ones plus the ones handed out, and freeCount counts the former. */
  lemma NoBlockLost(h: Heap, i: nat)
    requires Inv(h) && i < NUM_POOLS
    ensures h.pools[i].freeCount + |HandedOutOf(h, i)| == |OwnedBy(h, i)|
  {
    Partition(h.pools[i], i, h);
    DistinctSize(h.pools[i].free);
  }

  lemma {:induction false} HeldAcross(hs: seq<Heap>, ops: seq<Op>, b: nat, i: nat)
    requires IsHistory(hs, ops) && Inv(hs[0]) && b in hs[0].live && Free(b + HEADER) !in ops && i < |hs|
    ensures Inv(hs[i]) && b in hs[i].live && b in hs[i].blocks
    ensures hs[i].live[b] == hs[0].live[b] && hs[i].blocks[b] == hs[0].blocks[b]
  {
    if i > 0 {
      HeldAcross(hs, ops, b, i - 1);
      StepKeepsInv(hs[i - 1], ops[i - 1]);
      assert ops[i - 1] in ops;
      StepHolds(hs[i - 1], ops[i - 1], b);
    }
  }

  lemma AllocateKeepsBlock(h: Heap, size: nat, base: nat, b: nat)
    requires Inv(h) && MallocAllows(h, size, base) && b in h.blocks
    ensures var g := Allocate(h, size, base).0; b in g.blocks && g.blocks[b] == h.blocks[b]
  {
    var i := PoolIndex(size + HEADER);
    if i >= NUM_POOLS {
      SystemKeepsSpace(h, size, base);
    } else {
      RefillKeepsInv(h, i, base);
    }
  }

  lemma StepHolds(h: Heap, op: Op, b: nat)
    requires Inv(h) && Allowed(h, op) && b in h.live && op != Free(b + HEADER)
    ensures var g := Step(h, op); b in g.live && b in g.blocks && g.live[b] == h.live[b] && g.blocks[b] == h.blocks[b]
  {
    match op
    case Free(p) =>
      assert p != b + HEADER;
    case Alloc(size, base) =>
      AllocationIsNew(h, size, base);
      AllocateKeepsBlock(h, size, base, b);
  }

  /** However many other operations come in between, a live block goes back to the pool it came from. */
  lemma BlockReturnsHome(hs: seq<Heap>, ops: seq<Op>, b: nat, i: nat)
    requires IsHistory(hs, ops) && Inv(hs[0]) && b in hs[0].live && Free(b + HEADER) !in ops
    requires b in hs[0].blocks && hs[0].blocks[b].owner == i < NUM_POOLS
    ensures var last := hs[|ops|];
            && Held(last, b + HEADER) && b in last.headers && |last.pools| == NUM_POOLS
            && Deallocate(last, b + HEADER).pools == last.pools[i := ReturnBlock(last.pools[i], b)]
  {
    HeldAcross(hs, ops, b, |ops|);
  }

  // ---------- Which block comes out ----------

  /** The pool chosen is the one with the smallest blocks that fit, from 4 bytes by doubling; the system serves the rest. */
  lemma SmallestFit(size: nat)
    ensures var i := PoolIndex(size);
            && (size <= 256 <==> i < NUM_POOLS) && (size > 256 ==> i == SYSTEM)
            && (i < NUM_POOLS ==> size <= SIZES[i] && (i > 0 ==> SIZES[i - 1] < size))
    ensures HEADER == 16 && |SIZES| == NUM_POOLS == 7 && SIZES[0] == 4 && forall i | 0 <= i < 6 :: SIZES[i + 1] == 2 * SIZES[i]
  {
  }

  /** A pool grows by half of what its chunks hold, and by 32 blocks if it has none. */
  lemma GrowsByHalf(p: Pool)
    ensures if p.chunks > 0 then 2 * Growth(p) == p.chunks * 128 else Growth(p) == 32
    ensures forall count, base :: Expand(p, count, base).chunks == p.chunks + 1
  {
    HalfOf(p.chunks * CHUNK, p.chunks * 64);
  }

  lemma HalfOf(n: nat, m: nat)
    requires n == 2 * m
    ensures n / 2 == m
  {
  }

  /** A header records the request, as far as 32 bits go, and where the block belongs. */
  lemma HeaderRecords(h: Heap, size: nat, base: nat)
    requires Inv(h) && MallocAllows(h, size, base)
    ensures var (g, ptr) := Allocate(h, size, base);
            && ptr >= HEADER && ptr - HEADER in g.headers
            && g.headers[ptr - HEADER].poolIndex == PoolIndex(size + HEADER)
            && (size < 0x1_0000_0000 ==> g.headers[ptr - HEADER].size == size)
  {
    AllocationIsNew(h, size, base);
  }

  /** The block freed last is the first to be handed out again. */
  lemma LastFreedIsReused(h: Heap, ptr: nat, size: nat, base: nat)
    requires Inv(h) && Held(h, ptr) && h.headers[ptr - HEADER].poolIndex == PoolIndex(size + HEADER) < NUM_POOLS
    ensures Allocate(Deallocate(h, ptr), size, base).1 == ptr
  {
  }

  /** A block from the system goes back whole: its range is given back and no other, and no pool changes. */
  lemma SystemBlockGoesBack(h: Heap, b: nat)
    requires Inv(h) && b in h.live && b in h.headers && h.headers[b].poolIndex >= NUM_POOLS
    ensures b in h.blocks && Extent(b, h.blocks) in h.ranges
    ensures forall r: Range | r.len > 0 :: r in TakeBack(h, b).ranges <==> r in h.ranges && r != Extent(b, h.blocks)
    ensures var g := TakeBack(h, b); g.pools == h.pools && g.blocks == h.blocks - {b} && g.live == h.live - {b}
  {
    SystemRange(h.blocks, h.headers, h.live, h.ranges, b);
    StartsThere(h.ranges, Extent(b, h.blocks));
  }

  lemma SystemRange(blocks: map<nat, Block>, headers: map<nat, Header>, live: map<nat, nat>, ranges: set<Range>, b: nat)
    requires LiveOk(blocks, headers, live) && SystemOk(blocks, live, ranges) && BlocksApart(blocks)
    requires b in live && b in headers && headers[b].poolIndex >= NUM_POOLS
    ensures b in blocks && Extent(b, blocks) in ranges && Extent(b, blocks).len > 0
  {
  }

  lemma StartsThere(ranges: set<Range>, s: Range)
    requires RangesApart(ranges) && s in ranges && s.len > 0
    ensures forall r | r in ranges && r.len > 0 :: r.lo == s.lo <==> r == s
  {
    forall r | r in ranges && r.len > 0 ensures r.lo == s.lo <==> r == s {
      assert r == s || Apart(r, s);
    }
  }
}
