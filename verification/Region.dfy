/**
 MemoryManager::Region of src/memory/memory.hh, whose methods change its maps in place. The manager is
 seen through the blocks it has handed to this region; only a block it has handed out may be given back.
 */
module Regions {

  import opened Common
  import opened RegionModel

  class MemoryManager {
    var held: map<nat, nat>

    constructor ()
      ensures held == map[]
    {
      held := map[];
    }

    /** addr is the address the allocator returns. */
    method Allocate(size: nat, addr: nat)
      requires addr != 0 && addr !in held
      modifies this
      ensures held == old(held)[addr := size]
    {
      held := held[addr := size];
    }

    method Deallocate(ptr: nat)
      requires ptr == 0 || ptr in held
      modifies this
      ensures held == old(held) - {ptr}
    {
      held := held - {ptr};
    }
  }

  class Region {
    const manager: MemoryManager
    var objectGenerations: map<nat, nat>
    var generationObjects: map<nat, seq<nat>>
    var currentGeneration: nat
    var reusePool: map<nat, seq<nat>>

    function View(): State
      reads this, manager
    {
      State(objectGenerations, generationObjects, currentGeneration, reusePool, manager.held)
    }

    constructor (mgr: MemoryManager)
      requires mgr.held == map[]
      ensures manager == mgr && View() == NEW_REGION && Inv(View())
    {
      manager := mgr;
      objectGenerations, generationObjects, currentGeneration, reusePool := map[], map[0 := []], 0, map[];
      new;
      NewRegionOk();
    }

    /** addr is what the manager returns when nothing is pooled; throws is whether the object's constructor throws. */
    method Create(objSize: nat, addr: nat, throws: bool) returns (obj: nat)
      requires Inv(View()) && ManagerMayReturn(View(), objSize, addr)
      modifies this, manager
      ensures (View(), obj) == RegionModel.Create(old(View()), objSize, addr, throws) && Inv(View())
    {
      CreateKeepsInv(View(), objSize, addr, throws);
      TakeLoosens(View(), objSize, addr);
      var pool := ListAt(reusePool, objSize);
      var memory := addr;
      if pool != [] {
        memory := pool[|pool| - 1];
        pool := pool[..|pool| - 1];
      } else {
        manager.Allocate(objSize, addr);
      }
      reusePool := reusePool[objSize := pool];
      if throws {
        Shelve(memory, objSize);
        return 0;
      }
      objectGenerations := objectGenerations[memory := currentGeneration];
      generationObjects := generationObjects[currentGeneration := ListAt(generationObjects, currentGeneration) + [memory]];
      return memory;
    }

    method Shelve(ptr: nat, objSize: nat)
      requires ptr == 0 || ptr in manager.held
      modifies `reusePool, manager
      ensures View() == RegionModel.Shelve(old(View()), ptr, objSize)
    {
      var pool := ListAt(reusePool, objSize);
      if |pool| < MAX_REUSE_POOL_SIZE {
        reusePool := reusePool[objSize := pool + [ptr]];
      } else {
        manager.Deallocate(ptr);
        reusePool := reusePool[objSize := pool];
      }
    }

    /** objSize is the size of the type the caller names. */
    method Deallocate(ptr: nat, objSize: nat)
      requires ptr == 0 || ptr in manager.held
      modifies this, manager
      ensures View() == RegionModel.Deallocate(old(View()), ptr, objSize)
      ensures old(Inv(View())) ==>
                (Inv(View()) <==> old(OwnType(View(), ptr, objSize) || GoesStraightBack(View(), ptr, objSize)))
    {
      if Inv(View()) {
        DeallocateExactCondition(View(), ptr, objSize);
      }
      if ptr == 0 {
        return;
      }
      if ptr in objectGenerations {
        var gen := objectGenerations[ptr];
        objectGenerations := objectGenerations - {ptr};
        generationObjects := generationObjects[gen := Without(ListAt(generationObjects, gen), ptr)];
      }
      Shelve(ptr, objSize);
    }

    method EnterScope()
      requires Inv(View())
      modifies this
      ensures View() == RegionModel.EnterScope(old(View())) && Inv(View())
    {
      EnterKeepsInv(View());
      currentGeneration := currentGeneration + 1;
      generationObjects := generationObjects[currentGeneration := []];
    }

    /** Gives every block in the list back to the manager, each of them once. */
    method FreeAll(ptrs: seq<nat>)
      requires Distinct(ptrs) && forall p | p in ptrs :: p in manager.held
      modifies manager
      ensures manager.held == old(manager.held) - Elements(ptrs)
    {
      var i := 0;
      while i < |ptrs|
        invariant i <= |ptrs| && manager.held == old(manager.held) - Elements(ptrs[..i])
      {
        assert ptrs[i] !in ptrs[..i] && ptrs[..i + 1] == ptrs[..i] + [ptrs[i]];
        manager.Deallocate(ptrs[i]);
        i := i + 1;
      }
      assert ptrs[..i] == ptrs;
    }

    /** Takes every object in the list off the books, then gives its block back. */
    method ReleaseAll(ptrs: seq<nat>)
      requires Distinct(ptrs) && forall p | p in ptrs :: p in manager.held
      modifies `objectGenerations, manager
      ensures View() == Release(old(View()), ptrs)
    {
      var i := 0;
      while i < |ptrs|
        invariant i <= |ptrs| && manager.held == old(manager.held) - Elements(ptrs[..i])
        invariant objectGenerations == old(objectGenerations) - Elements(ptrs[..i])
      {
        assert ptrs[i] !in ptrs[..i] && ptrs[..i + 1] == ptrs[..i] + [ptrs[i]];
        objectGenerations := objectGenerations - {ptrs[i]};
        manager.Deallocate(ptrs[i]);
        i := i + 1;
      }
      assert ptrs[..i] == ptrs;
    }

    method ExitScope()
      requires Inv(View())
      modifies this, manager
      ensures View() == RegionModel.ExitScope(old(View())) && Inv(View())
    {
      ExitKeepsInv(View());
      if currentGeneration == 0 {
        return;
      }
      if currentGeneration in generationObjects {
        var objects := generationObjects[currentGeneration];
        generationObjects := generationObjects[currentGeneration := []];
        ReleaseAll(objects);
        generationObjects := generationObjects - {currentGeneration};
      }
      currentGeneration := currentGeneration - 1;
    }

    method CollectGarbage()
      requires Inv(View())
      modifies this, manager
      ensures View() == RegionModel.CollectGarbage(old(View())) && Inv(View())
    {
      CollectKeepsInv(View());
      if currentGeneration == 0 {
        return;
      }
      if currentGeneration in generationObjects {
        ReleaseAll(generationObjects[currentGeneration]);
        generationObjects := generationObjects[currentGeneration := []];
      }
    }

    /** Gives back every block listed anywhere in the map; its keys come in no particular order. */
    method FreeLists(lists: map<nat, seq<nat>>)
      requires forall k | k in lists :: Distinct(lists[k]) && forall p | p in lists[k] :: p in manager.held
      requires forall j, k, p | j in lists && k in lists && p in lists[j] && p in lists[k] :: j == k
      modifies manager
      ensures manager.held == old(manager.held) - Listed(lists, lists.Keys)
    {
      var keys := lists.Keys;
      while keys != {}
        invariant keys <= lists.Keys && manager.held == old(manager.held) - Listed(lists, lists.Keys - keys)
        decreases |keys|
      {
        var k :| k in keys;
        FreeAll(lists[k]);
        assert Listed(lists, lists.Keys - (keys - {k})) == Listed(lists, lists.Keys - keys) + Elements(lists[k]);
        keys := keys - {k};
      }
      assert lists.Keys - {} == lists.Keys;
    }

    /** The destructor: every block still held goes back, once, and then none is held. */
    method Destroy()
      requires Inv(View())
      modifies manager
      ensures manager.held == map[]
    {
      HeldPartition(View());
      ListedParts(View());
      FreeLists(reusePool);
      FreeLists(generationObjects);
    }
  }

  function Listed(lists: map<nat, seq<nat>>, keys: set<nat>): set<nat> {
    set k, p | k in keys && k in lists && p in lists[k] :: p
  }

  lemma ListedParts(s: State)
    requires Inv(s)
    ensures Listed(s.pool, s.pool.Keys) == AllPooled(s) && Listed(s.objects, s.objects.Keys) == s.gens.Keys
  {
    forall p | p in s.gens ensures p in Listed(s.objects, s.objects.Keys) {
      assert p in s.objects[s.gens[p]];
    }
  }
}
