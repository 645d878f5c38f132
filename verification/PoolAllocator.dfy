/**
 MemoryPool and DefaultAllocator of src/memory/memory.hh, whose methods change the pools in place.
 A base address is what malloc returns if the call needs it.
 */
module PoolAllocators {

  import opened Common
  import opened PoolModel

  class MemoryPool {
    const blockSize: nat
    var freeBlocks: seq<nat>
    var freeCount: int
    var allocatedChunks: seq<nat>

    function View(): Pool
      reads this
    {
      Pool(blockSize, freeBlocks, freeCount, |allocatedChunks|)
    }

    constructor (blockSize: nat, initialSize: nat, base: nat)
      ensures this.blockSize == blockSize
      ensures View() == Expand(Pool(blockSize, [], 0, 0), initialSize, base)
    {
      this.blockSize := blockSize;
      freeBlocks, freeCount, allocatedChunks := [], 0, [];
      new;
      ExpandPool(initialSize, base);
    }

    /** Adds the chunk at base, cut into count blocks. */
    method ExpandPool(count: nat, base: nat)
      modifies this
      ensures View() == Expand(old(View()), count, base)
    {
      allocatedChunks := allocatedChunks + [base];
      var ptr: nat, i := base, 0;
      while i < count
        invariant i <= count && allocatedChunks == old(allocatedChunks) + [base] && freeCount == old(freeCount)
        invariant freeBlocks + Carve(ptr, blockSize, count - i) == old(freeBlocks) + Carve(base, blockSize, count)
      {
        assert Carve(ptr, blockSize, count - i) == [ptr] + Carve(ptr + blockSize, blockSize, count - i - 1);
        freeBlocks := freeBlocks + [ptr];
        ptr := ptr + blockSize;
        i := i + 1;
      }
      assert freeBlocks + [] == freeBlocks;
      freeCount := freeCount + count;
    }

    method Allocate(base: nat) returns (block: nat)
      modifies this
      ensures var p := if old(freeBlocks) == [] then Expand(old(View()), Growth(old(View())), base) else old(View());
              p.free != [] && block == p.free[|p.free| - 1] && View() == TakeLast(p)
    {
      if freeBlocks == [] {
        var expandSize := if |allocatedChunks| * CHUNK / 2 > 32 then |allocatedChunks| * CHUNK / 2 else 32;
        ExpandPool(expandSize, base);
      }
      block := freeBlocks[|freeBlocks| - 1];
      freeBlocks := freeBlocks[..|freeBlocks| - 1];
      freeCount := freeCount - 1;
    }

    method Deallocate(ptr: nat)
      modifies this
      ensures View() == if ptr == 0 then old(View()) else ReturnBlock(old(View()), ptr)
    {
      if ptr == 0 {
        return;
      }
      freeBlocks := freeBlocks + [ptr];
      freeCount := freeCount + 1;
    }
  }

  ghost function Views(pools: seq<MemoryPool>): (r: seq<Pool>)
    reads pools
    ensures |r| == |pools| && forall i | 0 <= i < |pools| :: r[i] == pools[i].View()
  {
    if pools == [] then [] else Views(pools[..|pools| - 1]) + [pools[|pools| - 1].View()]
  }

  /** The address spaces of memory: headers is what the allocator writes in front of each block. */
  class DefaultAllocator {
    var memoryPools: seq<MemoryPool>
    var headers: map<nat, Header>
    ghost var blocks: map<nat, Block>
    ghost var live: map<nat, nat>
    ghost var ranges: set<Range>

    ghost predicate Valid()
      reads this
    {
      |memoryPools| == NUM_POOLS && Distinct(memoryPools)
    }

    ghost function View(): Heap
      reads this, memoryPools
    {
      Heap(Views(memoryPools), headers, blocks, live, ranges)
    }

    static method BuildPools(bases: seq<nat>) returns (pools: seq<MemoryPool>)
      requires |bases| == NUM_POOLS
      ensures |pools| == NUM_POOLS && Views(pools) == NewPools(bases).pools
      ensures Distinct(pools)
    {
      pools := [];
      var poolSize, i := 4, 0;
      while i < NUM_POOLS
        invariant i <= NUM_POOLS && |pools| == i && (i < NUM_POOLS ==> poolSize == SIZES[i])
        invariant Distinct(pools)
        invariant Views(pools) == Started(bases, i)
      {
        var pool := new MemoryPool(poolSize, CHUNK, bases[i]);
        Snoc(pools, pool);
        pools := pools + [pool];
        SizesDouble(i);
        poolSize := poolSize * 2;
        i := i + 1;
      }
      StartedAll(bases, i);
    }

    /** Builds the seven pools, 4 bytes to 256, with a first chunk each. */
    constructor (bases: seq<nat>)
      requires |bases| == NUM_POOLS
      ensures Valid() && View() == NewPools(bases)
    {
      var pools := BuildPools(bases);
      NoneLive(bases);
      memoryPools, headers := pools, map[];
      blocks, live, ranges := NewPools(bases).blocks, map[], NewPools(bases).ranges;
    }

    method TakeFrom(i: nat, base: nat) returns (mem: nat)
      requires Valid() && i < NUM_POOLS
      modifies memoryPools, `blocks, `ranges
      ensures var g := Refilled(old(View()), i, base);
              mem == g.pools[i].free[|g.pools[i].free| - 1] && View() == g.(pools := g.pools[i := TakeLast(g.pools[i])])
    {
      ghost var g := Refilled(View(), i, base);
      mem := memoryPools[i].Allocate(base);
      blocks, ranges := g.blocks, g.ranges;
      assert Views(memoryPools) == g.pools[i := TakeLast(g.pools[i])];
    }

    method Allocate(size: nat, base: nat) returns (ptr: nat)
      requires Valid()
      modifies this, memoryPools
      ensures Valid() && memoryPools == old(memoryPools)
      ensures var (h, p) := PoolModel.Allocate(old(View()), size, base); View() == h && ptr == p
    {
      ptr := AllocateAt(PoolIndex(size + HEADER), size, base);
    }

    method AllocateAt(i: nat, size: nat, base: nat) returns (ptr: nat)
      requires Valid()
      modifies this, memoryPools
      ensures Valid() && memoryPools == old(memoryPools)
      ensures var (h, p) := PoolModel.AllocateAt(old(View()), i, size, base); View() == h && ptr == p
    {
      var mem, poolIdx := base, i;
      if poolIdx < NUM_POOLS {
        mem := TakeFrom(poolIdx, base);
      } else {
        poolIdx := SYSTEM;
        ObtainSystemBlock(size, base);
      }
      WriteHeader(mem, size, poolIdx);
      ptr := mem + HEADER;
    }

    /** What malloc hands out for one request. */
    ghost method ObtainSystemBlock(size: nat, base: nat)
      modifies `blocks, `ranges
      ensures View() == old(View()).(blocks := old(blocks)[base := Block(size + HEADER, SYSTEM)],
                                     ranges := old(ranges) + {Range(base, size + HEADER)})
    {
      blocks := blocks[base := Block(size + HEADER, SYSTEM)];
      ranges := ranges + {Range(base, size + HEADER)};
    }

    method WriteHeader(mem: nat, size: nat, poolIdx: nat)
      modifies `headers, `live
      ensures View() == old(View()).(headers := old(headers)[mem := Header(size % 0x1_0000_0000, poolIdx)],
                                     live := old(live)[mem := size])
    {
      headers := headers[mem := Header(size % 0x1_0000_0000, poolIdx)];
      live := live[mem := size];
    }

    method Deallocate(ptr: nat)
      requires Valid() && (ptr == 0 || (ptr > HEADER && ptr - HEADER in headers))
      modifies this, memoryPools
      ensures Valid() && memoryPools == old(memoryPools)
      ensures View() == if ptr == 0 then old(View()) else PoolModel.Deallocate(old(View()), ptr)
    {
      if ptr == 0 {
        return;
      }
      var mem := ptr - HEADER;
      var poolIdx := headers[mem].poolIndex;
      if poolIdx < NUM_POOLS {
        GiveTo(poolIdx, mem);
      } else {
        ReleaseSystemBlock(mem);
      }
      Forget(mem);
    }

    method GiveTo(i: nat, mem: nat)
      requires Valid() && i < NUM_POOLS && mem != 0
      modifies memoryPools
      ensures View() == old(View()).(pools := old(View()).pools[i := ReturnBlock(old(View()).pools[i], mem)])
    {
      ghost var h := View();
      memoryPools[i].Deallocate(mem);
      assert Views(memoryPools) == h.pools[i := ReturnBlock(h.pools[i], mem)];
    }

    /** What free takes back. */
    ghost method ReleaseSystemBlock(mem: nat)
      modifies `blocks, `ranges
      ensures View() == old(View()).(blocks := old(blocks) - {mem}, ranges := set r | r in old(ranges) && r.lo != mem)
    {
      blocks := blocks - {mem};
      ranges := set r | r in ranges && r.lo != mem;
    }

    ghost method Forget(mem: nat)
      modifies `live
      ensures View() == old(View()).(live := old(live) - {mem})
    {
      live := live - {mem};
    }
  }

  lemma {:induction false} NoneLive(bases: seq<nat>)
    requires |bases| <= NUM_POOLS
    ensures NewPools(bases).headers == map[] && NewPools(bases).live == map[]
    decreases bases
  {
    if bases != [] {
      NoneLive(bases[..|bases| - 1]);
    }
  }

  lemma SizesDouble(i: nat)
    requires i < NUM_POOLS
    ensures i + 1 < NUM_POOLS ==> SIZES[i + 1] == 2 * SIZES[i]
  {
  }

  lemma Snoc(pools: seq<MemoryPool>, pool: MemoryPool)
    requires Distinct(pools) && pool !in pools
    ensures Views(pools + [pool]) == Views(pools) + [pool.View()] && Distinct(pools + [pool])
  {
    assert (pools + [pool])[..|pools|] == pools;
  }

  /** The first n pools, each with its first chunk. */
  function Started(bases: seq<nat>, n: nat): (r: seq<Pool>)
    requires n <= |bases| == NUM_POOLS
    ensures |r| == n
    decreases n, bases
  {
    if n == 0 then [] else Started(bases, n - 1) + [Expand(Pool(SIZES[n - 1], [], 0, 0), CHUNK, bases[n - 1])]
  }

  lemma {:induction false} StartedFrom(bases: seq<nat>, n: nat)
    requires n <= |bases| == NUM_POOLS
    ensures NewPools(bases[..n]).pools[..n] == Started(bases, n)
  {
    if n > 0 {
      assert bases[..n][..n - 1] == bases[..n - 1];
      StartedFrom(bases, n - 1);
      UnbuiltPool(bases[..n - 1], n - 1);
    }
  }

  lemma StartedAll(bases: seq<nat>, n: nat)
    requires n == |bases| == NUM_POOLS
    ensures NewPools(bases).pools == Started(bases, n)
  {
    assert bases[..n] == bases;
    StartedFrom(bases, n);
    assert NewPools(bases).pools[..n] == NewPools(bases).pools;
  }

  lemma {:induction false} UnbuiltPool(bases: seq<nat>, i: nat)
    requires |bases| <= i < NUM_POOLS
    ensures NewPools(bases).pools[i] == Pool(SIZES[i], [], 0, 0)
    decreases bases
  {
    if bases != [] {
      UnbuiltPool(bases[..|bases| - 1], i);
    }
  }
}
