/**
 The generational region of src/memory/memory.hh as a state: which objects are live in which scope,
 which blocks wait for reuse, and which blocks the region holds from its memory manager.
 */
module RegionModel {
  import opened Common

  const MAX_REUSE_POOL_SIZE: nat := 1000

  /** gens: objectGenerations; objects: generationObjects; pool: reusePool; held: size of each block not given back. */
  datatype State = State(gens: map<nat, nat>, objects: map<nat, seq<nat>>, current: nat,
                         pool: map<nat, seq<nat>>, held: map<nat, nat>)

  /** The list under a key, which is empty if the key is new. */
  function ListAt(m: map<nat, seq<nat>>, key: nat): seq<nat> {
    if key in m then m[key] else []
  }

  function Elements(s: seq<nat>): set<nat> {
    set p | p in s
  }

  function Without(s: seq<nat>, p: nat): seq<nat> {
    if s == [] then [] else (if s[0] == p then [] else [s[0]]) + Without(s[1..], p)
  }

  const NEW_REGION := State(map[], map[0 := []], 0, map[], map[])

  /** A block of that size: the last one pooled, or the one the manager has at addr. */
  function Take(s: State, size: nat, addr: nat): (State, nat) {
    var p := ListAt(s.pool, size);
    if p != [] then (s.(pool := s.pool[size := p[..|p| - 1]]), p[|p| - 1])
    else (s.(pool := s.pool[size := p], held := s.held[addr := size]), addr)
  }

  /** Pools a block, or gives it back when its pool is full. */
  function Shelve(s: State, ptr: nat, size: nat): State {
    var p := ListAt(s.pool, size);
    if |p| < MAX_REUSE_POOL_SIZE then s.(pool := s.pool[size := p + [ptr]])
    else s.(pool := s.pool[size := p], held := s.held - {ptr})
  }

  function Register(s: State, ptr: nat): State {
    s.(gens := s.gens[ptr := s.current], objects := s.objects[s.current := ListAt(s.objects, s.current) + [ptr]])
  }

  /** Creates an object; a constructor that throws gives the block back to the pool. */
  function Create(s: State, size: nat, addr: nat, throws: bool): (State, nat) {
    var (t, ptr) := Take(s, size, addr);
    if throws then (Shelve(t, ptr, size), 0) else (Register(t, ptr), ptr)
  }

  function Forget(s: State, ptr: nat): State {
    if ptr !in s.gens then s
    else
      var g := s.gens[ptr];
      s.(gens := s.gens - {ptr}, objects := s.objects[g := Without(ListAt(s.objects, g), ptr)])
  }

  function Deallocate(s: State, ptr: nat, size: nat): State {
    if ptr == 0 then s else Shelve(Forget(s, ptr), ptr, size)
  }

  function EnterScope(s: State): State {
    s.(current := s.current + 1, objects := s.objects[s.current + 1 := []])
  }

  /** Gives back everything in a list. */
  function Release(s: State, list: seq<nat>): State {
    s.(gens := s.gens - Elements(list), held := s.held - Elements(list))
  }

  function ExitScope(s: State): State {
    if s.current == 0 then s
    else
      var t := Release(s, ListAt(s.objects, s.current));
      t.(objects := t.objects - {s.current}, current := s.current - 1)
  }

  function CollectGarbage(s: State): State {
    if s.current == 0 || s.current !in s.objects then s
    else
      var t := Release(s, s.objects[s.current]);
      t.(objects := t.objects[s.current := []])
  }

  // ---------- The invariant ----------

  /** Each scope from 0 to the current one lists exactly the objects whose generation it is, each once. */
  ghost predicate ListsMatch(gens: map<nat, nat>, objects: map<nat, seq<nat>>, current: nat) {
    && (forall g :: g in objects <==> 0 <= g <= current)
    && (forall g | g in objects :: Distinct(objects[g]))
    && (forall g, p | g in objects && p in objects[g] :: p in gens && gens[p] == g)
    && (forall p | p in gens :: gens[p] <= current && p in objects[gens[p]])
  }

  /** Each pool holds blocks of its own size that are held and not live, each once. */
  ghost predicate PoolsMatch(gens: map<nat, nat>, pool: map<nat, seq<nat>>, held: map<nat, nat>) {
    && (forall z | z in pool :: Distinct(pool[z]) && |pool[z]| <= MAX_REUSE_POOL_SIZE)
    && (forall z, p | z in pool && p in pool[z] :: p in held && held[p] == z && p !in gens)
  }

  predicate Pooled(p: nat, pool: map<nat, seq<nat>>, held: map<nat, nat>) {
    p in held && p in ListAt(pool, held[p])
  }

  /** The held blocks are the live ones, the pooled ones and the loose ones. */
  ghost predicate Accounted(s: State, loose: set<nat>) {
    && (forall p | p in s.gens :: p in s.held)
    && (forall p | p in loose :: p in s.held && p !in s.gens && !Pooled(p, s.pool, s.held))
    && (forall p | p in s.held :: p != 0 && (p in s.gens || Pooled(p, s.pool, s.held) || p in loose))
  }

  ghost predicate InvExcept(s: State, loose: set<nat>) {
    && ListsMatch(s.gens, s.objects, s.current)
    && PoolsMatch(s.gens, s.pool, s.held)
    && Accounted(s, loose)
  }

  ghost predicate Inv(s: State) {
    InvExcept(s, {})
  }

  // ---------- Every operation keeps it ----------

  lemma {:induction false} WithoutElements(s: seq<nat>, p: nat)
    ensures forall q :: q in Without(s, p) <==> q in s && q != p
  {
    if s != [] {
      WithoutElements(s[1..], p);
      assert s == [s[0]] + s[1..];
    }
  }

  lemma {:induction false} WithoutDistinct(s: seq<nat>, p: nat)
    requires Distinct(s)
    ensures Distinct(Without(s, p))
  {
    if s != [] {
      WithoutDistinct(s[1..], p);
      WithoutElements(s[1..], p);
      assert s[0] !in s[1..];
    }
  }

  lemma AppendDistinct(s: seq<nat>, p: nat)
    requires Distinct(s) && p !in s
    ensures Distinct(s + [p])
  {
  }

  /** The manager's part: a block for a new object is not null and not already held. */
  ghost predicate ManagerMayReturn(s: State, size: nat, addr: nat) {
    ListAt(s.pool, size) == [] ==> addr != 0 && addr !in s.held
  }

  lemma ReusePoolsMatch(gens: map<nat, nat>, pool: map<nat, seq<nat>>, held: map<nat, nat>, size: nat, front: seq<nat>, last: nat)
    requires PoolsMatch(gens, pool, held) && size in pool && pool[size] == front + [last]
    ensures PoolsMatch(gens, pool[size := front], held)
    ensures forall p :: Pooled(p, pool[size := front], held) <==> Pooled(p, pool, held) && p != last
    ensures last in held && held[last] == size && last !in gens
  {
    assert last in pool[size] && pool[size][|front|] == last;
    forall p | p in front ensures p in pool[size] && p != last {
      var i :| 0 <= i < |front| && front[i] == p;
      assert pool[size][i] == p;
    }
    forall i, j | 0 <= i < j < |front| ensures front[i] != front[j] {
      assert pool[size][i] == front[i] && pool[size][j] == front[j];
    }
    var less := pool[size := front];
    forall p ensures Pooled(p, less, held) <==> Pooled(p, pool, held) && p != last {
      assert p in pool[size] ==> p in front || p == last;
    }
    forall z | z in less ensures Distinct(less[z]) && |less[z]| <= MAX_REUSE_POOL_SIZE {
      assert z != size ==> less[z] == pool[z];
    }
    forall z, q | z in less && q in less[z] ensures q in held && held[q] == z && q !in gens {
      assert z in pool && q in pool[z];
    }
    assert PoolsMatch(gens, less, held);
  }

  lemma ReuseLoosens(s: State, size: nat, addr: nat)
    requires Inv(s) && ListAt(s.pool, size) != []
    ensures var (t, ptr) := Take(s, size, addr);
            InvExcept(t, {ptr}) && t.held[ptr] == size && |ListAt(t.pool, size)| < MAX_REUSE_POOL_SIZE
  {
    var ptr := Take(s, size, addr).1;
    var p := s.pool[size];
    assert p == p[..|p| - 1] + [ptr];
    ReusePoolsMatch(s.gens, s.pool, s.held, size, p[..|p| - 1], ptr);
  }

  lemma AllocateLoosens(s: State, size: nat, addr: nat)
    requires Inv(s) && ListAt(s.pool, size) == [] && addr != 0 && addr !in s.held
    ensures var (t, ptr) := Take(s, size, addr);
            InvExcept(t, {ptr}) && t.held[ptr] == size && |ListAt(t.pool, size)| < MAX_REUSE_POOL_SIZE
  {
    var (t, ptr) := Take(s, size, addr);
    assert PoolsMatch(t.gens, t.pool, t.held);
  }

  lemma TakeLoosens(s: State, size: nat, addr: nat)
    requires Inv(s) && ManagerMayReturn(s, size, addr)
    ensures var (t, ptr) := Take(s, size, addr);
            InvExcept(t, {ptr}) && t.held[ptr] == size && |ListAt(t.pool, size)| < MAX_REUSE_POOL_SIZE
  {
    if ListAt(s.pool, size) != [] {
      ReuseLoosens(s, size, addr);
    } else {
      AllocateLoosens(s, size, addr);
    }
  }

  lemma PoolGains(gens: map<nat, nat>, pool: map<nat, seq<nat>>, held: map<nat, nat>, size: nat, ptr: nat)
    requires PoolsMatch(gens, pool, held) && |ListAt(pool, size)| < MAX_REUSE_POOL_SIZE
    requires ptr in held && held[ptr] == size && ptr !in gens && ptr !in ListAt(pool, size)
    ensures PoolsMatch(gens, pool[size := ListAt(pool, size) + [ptr]], held)
    ensures forall q :: Pooled(q, pool[size := ListAt(pool, size) + [ptr]], held) <==> Pooled(q, pool, held) || q == ptr
  {
    var p, more := ListAt(pool, size), pool[size := ListAt(pool, size) + [ptr]];
    AppendDistinct(p, ptr);
    forall q ensures q in p + [ptr] <==> q in p || q == ptr {}
    forall z, q | z in more && q in more[z] ensures q in held && held[q] == z && q !in gens {
      assert z == size ==> q in p || q == ptr;
    }
  }

  lemma HeldLoses(gens: map<nat, nat>, pool: map<nat, seq<nat>>, held: map<nat, nat>, ptr: nat)
    requires PoolsMatch(gens, pool, held) && !Pooled(ptr, pool, held)
    ensures PoolsMatch(gens, pool, held - {ptr})
    ensures forall q | q != ptr :: Pooled(q, pool, held - {ptr}) <==> Pooled(q, pool, held)
  {
    forall z, q | z in pool && q in pool[z] ensures q != ptr {
      assert Pooled(q, pool, held);
    }
  }

  lemma ShelveRestores(s: State, ptr: nat)
    requires InvExcept(s, {ptr})
    ensures Inv(Shelve(s, ptr, s.held[ptr]))
  {
    var size := s.held[ptr];
    if |ListAt(s.pool, size)| < MAX_REUSE_POOL_SIZE {
      PoolGains(s.gens, s.pool, s.held, size, ptr);
    } else {
      assert s.pool[size := s.pool[size]] == s.pool;
      HeldLoses(s.gens, s.pool, s.held, ptr);
    }
  }

  lemma RegisterRestores(s: State, ptr: nat)
    requires InvExcept(s, {ptr})
    ensures Inv(Register(s, ptr))
  {
    AppendDistinct(s.objects[s.current], ptr);
  }

  lemma ForgetListsMatch(s: State, ptr: nat)
    requires ListsMatch(s.gens, s.objects, s.current) && ptr in s.gens
    ensures var t := Forget(s, ptr); ListsMatch(t.gens, t.objects, t.current)
  {
    WithoutElements(s.objects[s.gens[ptr]], ptr);
    WithoutDistinct(s.objects[s.gens[ptr]], ptr);
  }

  lemma ForgetLoosens(s: State, ptr: nat)
    requires Inv(s) && ptr in s.gens
    ensures InvExcept(Forget(s, ptr), {ptr})
  {
    ForgetListsMatch(s, ptr);
  }

  lemma CreateKeepsInv(s: State, size: nat, addr: nat, throws: bool)
    requires Inv(s) && ManagerMayReturn(s, size, addr)
    ensures Inv(Create(s, size, addr, throws).0)
  {
    var (t, ptr) := Take(s, size, addr);
    TakeLoosens(s, size, addr);
    if throws {
      ShelveRestores(t, ptr);
    } else {
      RegisterRestores(t, ptr);
    }
  }

  lemma ReleasePoolsMatch(gens: map<nat, nat>, pool: map<nat, seq<nat>>, held: map<nat, nat>, gone: set<nat>)
    requires PoolsMatch(gens, pool, held) && gone <= gens.Keys
    ensures PoolsMatch(gens - gone, pool, held - gone)
    ensures forall p | p !in gone :: Pooled(p, pool, held - gone) <==> Pooled(p, pool, held)
  {
    forall z, p | z in pool && p in pool[z] ensures p !in gone {
      assert p !in gens;
    }
  }

  lemma ReleaseDropsTop(s: State)
    requires Inv(s)
    ensures var t := Release(s, s.objects[s.current]);
            PoolsMatch(t.gens, t.pool, t.held) && Accounted(t, {})
  {
    var gone := Elements(s.objects[s.current]);
    forall p | p in gone ensures p in s.gens {
      assert p in s.objects[s.current];
    }
    ReleasePoolsMatch(s.gens, s.pool, s.held, gone);
  }

  lemma ExitListsMatch(s: State)
    requires ListsMatch(s.gens, s.objects, s.current) && s.current > 0
    ensures ListsMatch(s.gens - Elements(s.objects[s.current]), s.objects - {s.current}, s.current - 1)
  {
    var gone, objects := Elements(s.objects[s.current]), s.objects - {s.current};
    forall g, p | g in objects && p in objects[g] ensures p in s.gens - gone {
      assert s.gens[p] == g;
    }
  }

  lemma ExitKeepsInv(s: State)
    requires Inv(s)
    ensures Inv(ExitScope(s))
  {
    if s.current > 0 {
      ReleaseDropsTop(s);
      ExitListsMatch(s);
    }
  }

  lemma CollectListsMatch(s: State)
    requires ListsMatch(s.gens, s.objects, s.current)
    ensures ListsMatch(s.gens - Elements(s.objects[s.current]), s.objects[s.current := []], s.current)
  {
    var gone, objects := Elements(s.objects[s.current]), s.objects[s.current := []];
    forall g, p | g in objects && p in objects[g] ensures p in s.gens - gone {
      assert s.gens[p] == g;
    }
  }

  lemma CollectKeepsInv(s: State)
    requires Inv(s)
    ensures Inv(CollectGarbage(s))
  {
    ReleaseDropsTop(s);
    CollectListsMatch(s);
  }

  lemma EnterKeepsInv(s: State)
    requires Inv(s)
    ensures Inv(EnterScope(s))
  {
    assert forall p :: p in s.gens ==> s.gens[p] != s.current + 1;
  }

  /** ptr is null, or live and of the size of the type it was created with. */
  predicate OwnType(s: State, ptr: nat, size: nat) {
    ptr == 0 || (ptr in s.gens && ptr in s.held && s.held[ptr] == size)
  }

  lemma DeallocateKeepsInv(s: State, ptr: nat, size: nat)
    requires Inv(s) && OwnType(s, ptr, size)
    ensures Inv(Deallocate(s, ptr, size))
  {
    if ptr != 0 {
      ForgetLoosens(s, ptr);
      ShelveRestores(Forget(s, ptr), ptr);
    }
  }

  /** The pool is full, so a block that is held and not in any pool goes straight back to the manager. */
  predicate GoesStraightBack(s: State, ptr: nat, size: nat) {
    |ListAt(s.pool, size)| >= MAX_REUSE_POOL_SIZE && ptr in s.held && !Pooled(ptr, s.pool, s.held)
  }

  /** Whatever the manager gets back now, it had handed out and not got back before. */
  predicate GivesBackHeld(s: State, ptr: nat, size: nat) {
    ptr != 0 && |ListAt(s.pool, size)| >= MAX_REUSE_POOL_SIZE ==> ptr in s.held
  }

  lemma StraightBackKeepsInv(s: State, ptr: nat, size: nat)
    requires Inv(s) && GoesStraightBack(s, ptr, size)
    ensures Inv(Deallocate(s, ptr, size))
  {
    assert s.pool[size := s.pool[size]] == s.pool;
    assert ptr in s.gens;
    ForgetLoosens(s, ptr);
    var t := Forget(s, ptr);
    HeldLoses(t.gens, t.pool, t.held, ptr);
  }

  lemma WrongTypeBreaksInv(s: State, ptr: nat, size: nat)
    requires Inv(s) && !OwnType(s, ptr, size) && !GoesStraightBack(s, ptr, size) && GivesBackHeld(s, ptr, size)
    ensures !Inv(Deallocate(s, ptr, size))
  {
    var p, f, t := ListAt(s.pool, size), Forget(s, ptr), Deallocate(s, ptr, size);
    if |p| >= MAX_REUSE_POOL_SIZE {
      assert Pooled(ptr, s.pool, s.held) && ptr in t.pool[s.held[ptr]];
      assert ptr !in t.held;
    } else {
      assert t.pool[size] == p + [ptr] && ptr in t.pool[size];
      if Inv(t) {
        assert t.held[ptr] == size && ptr !in s.gens;
        forall i | 0 <= i < |p| ensures p[i] != ptr {
          assert t.pool[size][i] == p[i] && t.pool[size][|p|] == ptr;
        }
        assert false;
      }
    }
  }

  /**
   Deallocation keeps the books and gives no block back twice exactly when it names the type of creation,
   or when a live block is not pooled.
   */
  lemma DeallocateExactCondition(s: State, ptr: nat, size: nat)
    requires Inv(s)
    ensures Inv(Deallocate(s, ptr, size)) && GivesBackHeld(s, ptr, size) <==>
              OwnType(s, ptr, size) || GoesStraightBack(s, ptr, size)
  {
    if OwnType(s, ptr, size) {
      DeallocateKeepsInv(s, ptr, size);
    } else if GoesStraightBack(s, ptr, size) {
      StraightBackKeepsInv(s, ptr, size);
    } else if GivesBackHeld(s, ptr, size) {
      WrongTypeBreaksInv(s, ptr, size);
    }
  }

  // ---------- Runs ----------

  datatype Op = New(size: nat, addr: nat, throws: bool) | Delete(ptr: nat, size: nat) | Enter | Exit | Collect

  ghost predicate Allowed(s: State, op: Op) {
    match op
    case New(size, addr, _) => ManagerMayReturn(s, size, addr)
    case Delete(ptr, size) => OwnType(s, ptr, size) || GoesStraightBack(s, ptr, size)
    case _ => true
  }

  function Step(s: State, op: Op): State {
    match op
    case New(size, addr, throws) => Create(s, size, addr, throws).0
    case Delete(ptr, size) => Deallocate(s, ptr, size)
    case Enter => EnterScope(s)
    case Exit => ExitScope(s)
    case Collect => CollectGarbage(s)
  }

  lemma StepKeepsInv(s: State, op: Op)
    requires Inv(s) && Allowed(s, op)
    ensures Inv(Step(s, op))
  {
    match op
    case New(size, addr, throws) => CreateKeepsInv(s, size, addr, throws);
    case Delete(ptr, size) => DeallocateExactCondition(s, ptr, size);
    case Enter => EnterKeepsInv(s);
    case Exit => ExitKeepsInv(s);
    case Collect => CollectKeepsInv(s);
  }

  /** ops are allowed one after the other, and ss are the states they lead through. */
  ghost predicate IsRun(ss: seq<State>, ops: seq<Op>) {
    && |ss| == |ops| + 1
    && forall i | 0 <= i < |ops| :: Allowed(ss[i], ops[i]) && ss[i + 1] == Step(ss[i], ops[i])
  }

  /** Throughout every run of a new region, held blocks are the live ones and, apart from them, the pooled ones. */
  lemma {:induction false} RunKeepsInv(ss: seq<State>, ops: seq<Op>, i: nat)
    requires IsRun(ss, ops) && Inv(ss[0]) && i < |ss|
    ensures Inv(ss[i])
  {
    if i > 0 {
      RunKeepsInv(ss, ops, i - 1);
      StepKeepsInv(ss[i - 1], ops[i - 1]);
    }
  }

  /** No run gives a block back twice, nor one that was never handed out. */
  lemma RunGivesBackHeld(ss: seq<State>, ops: seq<Op>, i: nat)
    requires IsRun(ss, ops) && Inv(ss[0]) && i < |ops| && ops[i].Delete?
    ensures GivesBackHeld(ss[i], ops[i].ptr, ops[i].size)
  {
    RunKeepsInv(ss, ops, i);
    DeallocateExactCondition(ss[i], ops[i].ptr, ops[i].size);
  }

  lemma NewRegionOk()
    ensures Inv(NEW_REGION)
  {
  }

  function AllPooled(s: State): set<nat> {
    set z, p | z in s.pool && p in s.pool[z] :: p
  }

  /** The blocks held are the live and the pooled ones, and no block is both. */
  lemma HeldPartition(s: State)
    requires Inv(s)
    ensures s.held.Keys == s.gens.Keys + AllPooled(s) && s.gens.Keys !! AllPooled(s)
  {
    forall p | p in s.held ensures p in s.gens || p in AllPooled(s) {
      if p !in s.gens {
        assert Pooled(p, s.pool, s.held) && s.held[p] in s.pool;
      }
    }
  }

  // ---------- What scopes promise ----------

  /** Leaving a scope gives back exactly the survivors of that scope. */
  lemma ExitFreesTopScope(s: State)
    requires Inv(s) && s.current > 0
    ensures var t := ExitScope(s);
            && (forall p | p in s.held :: p !in t.held <==> p in s.gens && s.gens[p] == s.current)
            && t.held.Keys <= s.held.Keys && t.pool == s.pool
            && (forall p | p in t.held :: t.held[p] == s.held[p])
  {
  }

  /** t was reached from s inside scopes above d: outer objects are as they were, unless they were deleted. */
  ghost predicate OuterKept(s: State, t: State, d: nat, deleted: set<nat>) {
    && (forall p | p in t.gens && t.gens[p] <= d :: p in s.gens && s.gens[p] == t.gens[p])
    && (forall p | p in s.gens && s.gens[p] <= d && p !in deleted :: p in t.gens && t.gens[p] == s.gens[p])
  }

  function Deleted(ops: seq<Op>): set<nat> {
    set op | op in ops && op.Delete? :: op.ptr
  }

  lemma CreateKeepsOuter(s: State, t: State, size: nat, addr: nat, throws: bool, d: nat, deleted: set<nat>)
    requires Inv(t) && OuterKept(s, t, d, deleted) && d < t.current && ManagerMayReturn(t, size, addr)
    ensures OuterKept(s, Create(t, size, addr, throws).0, d, deleted)
  {
    var ptr := Take(t, size, addr).1;
    TakeLoosens(t, size, addr);
    assert ptr !in t.gens;
  }

  lemma StepKeepsOuter(s: State, t: State, op: Op, d: nat, deleted: set<nat>)
    requires Inv(t) && Allowed(t, op) && OuterKept(s, t, d, deleted) && d < t.current
    requires op.Delete? ==> op.ptr in deleted
    requires op == Exit ==> t.current > d
    ensures OuterKept(s, Step(t, op), d, deleted)
  {
    match op
    case New(size, addr, throws) => CreateKeepsOuter(s, t, size, addr, throws, d, deleted);
    case Delete(ptr, size) => DeleteKeepsOuter(s, t, ptr, size, d, deleted);
    case Exit => ReleaseKeepsOuter(s, t, d, deleted);
    case Collect => ReleaseKeepsOuter(s, t, d, deleted);
    case Enter =>
  }

  lemma DeleteKeepsOuter(s: State, t: State, ptr: nat, size: nat, d: nat, deleted: set<nat>)
    requires OuterKept(s, t, d, deleted) && ptr in deleted
    ensures OuterKept(s, Deallocate(t, ptr, size), d, deleted)
  {
  }

  /** What leaves with a scope above d is no outer object. */
  lemma ReleaseKeepsOuter(s: State, t: State, d: nat, deleted: set<nat>)
    requires ListsMatch(t.gens, t.objects, t.current) && OuterKept(s, t, d, deleted) && d < t.current
    ensures OuterKept(s, Release(t, ListAt(t.objects, t.current)), d, deleted)
  {
    forall p | p in Elements(ListAt(t.objects, t.current)) ensures p in t.gens && t.gens[p] == t.current {
      assert p in t.objects[t.current];
    }
  }

  lemma {:induction false} RunKeepsOuter(ss: seq<State>, ops: seq<Op>, d: nat, i: nat)
    requires IsRun(ss, ops) && Inv(ss[0]) && i < |ss|
    requires forall k | 0 <= k < |ss| :: ss[k].current > d
    ensures Inv(ss[i]) && OuterKept(ss[0], ss[i], d, Deleted(ops))
  {
    if i > 0 {
      RunKeepsOuter(ss, ops, d, i - 1);
      StepKeepsInv(ss[i - 1], ops[i - 1]);
      assert ops[i - 1] in ops;
      StepKeepsOuter(ss[0], ss[i - 1], ops[i - 1], d, Deleted(ops));
    }
  }

  /**
   Whatever happens between entering a scope and leaving it again, nothing created inside is live
   afterwards, and every outer object that nobody deleted still is, in its own scope.
   */
  lemma ScopesAreBracketed(s: State, ss: seq<State>, ops: seq<Op>)
    requires Inv(s) && IsRun(ss, ops) && ss[0] == EnterScope(s) && ss[|ops|].current == s.current + 1
    requires forall k | 0 <= k < |ss| :: ss[k].current > s.current
    ensures var t := ExitScope(ss[|ops|]);
            && t.current == s.current
            && (forall p | p in t.gens :: p in s.gens && t.gens[p] == s.gens[p])
            && (forall p | p in s.gens && p !in Deleted(ops) :: p in t.gens)
  {
    EnterKeepsInv(s);
    RunKeepsOuter(ss, ops, s.current, |ops|);
    ExitKeepsInv(ss[|ops|]);
  }

  // ---------- What each operation does ----------

  /** A new object is live in the current scope, in the block of its type that was freed last, or a new one. */
  lemma CreateRegisters(s: State, size: nat, addr: nat)
    requires Inv(s) && ManagerMayReturn(s, size, addr)
    ensures var (t, ptr) := Create(s, size, addr, false); var p := ListAt(s.pool, size);
            && ptr != 0 && ptr !in s.gens && t.gens == s.gens[ptr := s.current]
            && t.held == s.held[ptr := size] && t.current == s.current
            && ptr == if p == [] then addr else p[|p| - 1]
  {
    TakeLoosens(s, size, addr);
  }

  /** If its constructor throws nothing is live that was not, and the block waits for reuse. */
  lemma ThrowLeavesNothing(s: State, size: nat, addr: nat)
    requires Inv(s) && ManagerMayReturn(s, size, addr)
    ensures var (t, ptr) := Create(s, size, addr, true);
            && ptr == 0 && t.gens == s.gens && t.objects == s.objects && t.current == s.current
            && ListAt(t.pool, size) == if ListAt(s.pool, size) == [] then [addr] else ListAt(s.pool, size)
  {
    var p := ListAt(s.pool, size);
    var (t, ptr) := Take(s, size, addr);
    assert |p| <= MAX_REUSE_POOL_SIZE;
    ShelveLast(t, ptr, size);
    if p != [] { assert p[..|p| - 1] + [ptr] == p; }
  }

  lemma ShelveLast(s: State, ptr: nat, size: nat)
    requires |ListAt(s.pool, size)| < MAX_REUSE_POOL_SIZE
    ensures var t := Shelve(s, ptr, size);
            ListAt(t.pool, size) == ListAt(s.pool, size) + [ptr] && t.gens == s.gens && t.objects == s.objects && t.current == s.current
  {
  }

  /** A deleted object is live no more, others are, and its block waits for reuse or goes back if enough do. */
  lemma DeleteForgets(s: State, ptr: nat, size: nat)
    requires Inv(s) && OwnType(s, ptr, size) && ptr != 0
    ensures var t := Deallocate(s, ptr, size);
            && t.gens == s.gens - {ptr} && t.current == s.current
            && if |ListAt(s.pool, size)| < 1000 then t.held == s.held && ListAt(t.pool, size) == ListAt(s.pool, size) + [ptr]
               else t.held == s.held - {ptr} && ListAt(t.pool, size) == ListAt(s.pool, size)
  {
  }

  /** The object created next of that type gets its block. */
  lemma DeletedIsReused(s: State, ptr: nat, size: nat, addr: nat)
    requires Inv(s) && OwnType(s, ptr, size) && ptr != 0 && |ListAt(s.pool, size)| < 1000
    ensures Create(Deallocate(s, ptr, size), size, addr, false).1 == ptr
  {
    DeleteForgets(s, ptr, size);
  }

  /** Collection gives back exactly the objects of the current scope and stays in it; in the outermost scope it does nothing. */
  lemma CollectFreesTopScope(s: State)
    requires Inv(s)
    ensures var t := CollectGarbage(s);
            && t.current == s.current && t.pool == s.pool
            && (s.current == 0 ==> t == s)
            && (s.current > 0 ==>
                  && (forall p :: p in t.gens <==> p in s.gens && s.gens[p] < s.current)
                  && (forall p :: p in t.held <==> p in s.held && !(p in s.gens && s.gens[p] == s.current)))
            && (forall p | p in t.gens :: t.gens[p] == s.gens[p]) && (forall p | p in t.held :: t.held[p] == s.held[p])
  {
    if s.current > 0 {
      assert Elements(s.objects[s.current]) == set p | p in s.gens && s.gens[p] == s.current;
    }
  }

  /** Entering and leaving at once changes nothing; the outermost scope cannot be left. */
  lemma EnterThenExit(s: State)
    requires Inv(s)
    ensures EnterScope(s).current == s.current + 1 && EnterScope(s).gens == s.gens && EnterScope(s).held == s.held
    ensures ExitScope(EnterScope(s)) == s
    ensures s.current == 0 ==> ExitScope(s) == s
  {
    assert s.current + 1 !in s.objects;
    ReleaseNothing(EnterScope(s));
    AddThenRemove(s.objects, s.current + 1, []);
  }

  lemma ReleaseNothing(s: State)
    ensures Release(s, []) == s
  {
    assert Elements([]) == {};
    assert s.gens - {} == s.gens && s.held - {} == s.held;
  }

  lemma AddThenRemove(m: map<nat, seq<nat>>, k: nat, v: seq<nat>)
    requires k !in m
    ensures m[k := v] - {k} == m
  {
  }
}
