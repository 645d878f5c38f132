/**
 Dead code elimination on code with jumps. The pass takes liveness from the order of the array and leaves
 jump targets alone; it is right where nothing erased is needed along any edge or lies before a target.
 */
module EliminationWithJumps {
  import opened Lir
  import opened ControlFlow
  import opened DeadCode

  // ---------- Execution ----------

  datatype Action<W> = Did(value: Value, world: W) | Failed

  /** What computes is a function of the operands; calls and prints also see and change the world, or fail. */
  datatype Behaviour<!W> = Behaviour(compute: (Inst, seq<Value>) -> Value, act: (Inst, seq<Value>, W) -> Action<W>,
                                     test: (Inst, seq<Value>, W) -> bool)

  /** Conditional jumps may read any of their operands. */
  function AllReads(inst: Inst): seq<U32> {
    if inst.op.JumpIf? || inst.op.JumpIfFalse? then [inst.dst, inst.a, inst.b] else Reads(inst)
  }

  function Perform<W>(rt: Behaviour<W>, inst: Inst, s: State<W>): Step<State<W>> {
    var values := GetAll(s.regs, AllReads(inst));
    if Computes(inst.op) then Next(s.(regs := Assign(inst, s.regs, rt.compute(inst, values))))
    else if inst.op.Label? then Next(s)
    else match rt.act(inst, values, s.world)
         case Failed => Trap
         case Did(v, w) => Next(State(Assign(inst, s.regs, v), w))
  }

  function MachineOf<W>(rt: Behaviour<W>): Machine<State<W>> {
    Machine((inst: Inst, s: State<W>) => Perform(rt, inst, s),
            (inst: Inst, s: State<W>) => rt.test(inst, GetAll(s.regs, AllReads(inst)), s.world))
  }

  function After<W>(rt: Behaviour<W>, code: seq<Inst>, c: Config<State<W>>): Config<State<W>> {
    StepOnce(MachineOf(rt), code, c)
  }

  lemma PerformStep<W>(rt: Behaviour<W>, code: seq<Inst>, pc: nat, s: State<W>)
    requires pc < |code| && !code[pc].IsJump() && !code[pc].IsReturn()
    ensures After(rt, code, Running(pc, s)) ==
            match Perform(rt, code[pc], s) case Next(s') => Running(pc + 1, s') case Trap => Trapped(s)
  {
  }

  /** Where control goes from a jump at pc. */
  function Target<W>(rt: Behaviour<W>, inst: Inst, pc: nat, s: State<W>): nat {
    if inst.op.Jump? then inst.imm
    else if rt.test(inst.(imm := 0), GetAll(s.regs, AllReads(inst.(imm := 0))), s.world) == inst.op.JumpIf? then inst.imm
    else pc + 1
  }

  lemma JumpStep<W>(rt: Behaviour<W>, code: seq<Inst>, pc: nat, s: State<W>)
    requires pc < |code| && code[pc].IsJump()
    ensures After(rt, code, Running(pc, s)) == Running(Target(rt, code[pc], pc, s), s)
  {
  }

  /** Two jumps on equal operands go the same way. */
  lemma SameTarget<W>(rt: Behaviour<W>, inst: Inst, i: nat, i': nat, s: State<W>, s': State<W>)
    requires inst.IsJump() && s.world == s'.world && GetAll(s.regs, AllReads(inst)) == GetAll(s'.regs, AllReads(inst))
    ensures || (Target(rt, inst, i, s) == inst.imm && Target(rt, inst, i', s') == inst.imm)
            || (!inst.op.Jump? && Target(rt, inst, i, s) == i + 1 && Target(rt, inst, i', s') == i' + 1)
  {
    assert !inst.op.Jump? ==> AllReads(inst.(imm := 0)) == AllReads(inst);
  }

  /** The instructions whose operands are told here. */
  predicate Modelled(inst: Inst) {
    || Computes(inst.op) || IsPrint(inst.op) || IsCall(inst.op) || inst.op.CallVoid? || IsAction(inst.op)
    || inst.op.Label? || inst.IsReturn() || inst.IsJump()
  }

  function Written(inst: Inst): set<U32> {
    if Writes(inst) then {inst.dst} else {}
  }

  lemma AgreeValues(regs: Registers, regs': Registers, needed: set<U32>, rs: seq<U32>)
    requires Agree(regs, regs', needed) && forall r | r in rs && r != NONE :: r in needed
    ensures GetAll(regs, rs) == GetAll(regs', rs)
  {
    forall i | 0 <= i < |rs| ensures Get(regs, rs[i]) == Get(regs', rs[i]) {
      assert rs[i] != NONE ==> rs[i] in needed;
    }
  }

  /** Registers that agree as far as needed here agree as far as needed next. */
  lemma AgreeNext(inst: Inst, regs: Registers, regs': Registers, v: Value, here: set<U32>, next: set<U32>)
    requires Agree(regs, regs', here) && next - Written(inst) <= here
    ensures Agree(Assign(inst, regs, v), Assign(inst, regs', v), next)
    ensures inst.dst !in next ==> Agree(Assign(inst, regs, v), regs', next)
    ensures !Writes(inst) ==> Agree(regs, regs', next)
  {
    forall r | r in next && r !in Written(inst) ensures r in here {
      assert r in next - Written(inst);
    }
  }

  /** On equal operands and in equal worlds both do the same. */
  lemma PerformsAlike<W>(rt: Behaviour<W>, inst: Inst, s: State<W>, s': State<W>, here: set<U32>, next: set<U32>)
    requires s.world == s'.world && Agree(s.regs, s'.regs, here) && next - Written(inst) <= here
    requires forall r | r in AllReads(inst) && r != NONE :: r in here
    requires !inst.IsJump() && !inst.IsReturn()
    ensures var t, t' := Perform(rt, inst, s), Perform(rt, inst, s');
            if t.Trap? then t'.Trap? else t'.Next? && t.data.world == t'.data.world && Agree(t.data.regs, t'.data.regs, next)
  {
    AgreeValues(s.regs, s'.regs, here, AllReads(inst));
    var values := GetAll(s.regs, AllReads(inst));
    var action := rt.act(inst, values, s.world);
    AgreeNext(inst, s.regs, s'.regs, rt.compute(inst, values), here, next);
    if action.Did? { AgreeNext(inst, s.regs, s'.regs, action.value, here, next); }
  }

  datatype Pair<S> = Pair(run: Config<S>, follower: Config<S>)

  // ---------- Erasures ----------

  /** Code, the marks of what is erased, the code that is left, and which registers are said to matter where. */
  datatype Cut = Cut(code: seq<Inst>, marked: seq<bool>, left: seq<Inst>, needs: seq<set<U32>>)
  {
    /** How many instructions below i survive. */
    function Place(i: nat): (r: nat)
      requires i <= |marked|
      ensures r <= i
    {
      if i == 0 then 0 else Place(i - 1) + (if marked[i - 1] then 0 else 1)
    }

    function NeededAt(i: nat): set<U32> {
      if i < |needs| then needs[i] else {}
    }

    predicate InPlace(i: nat)
      requires |marked| == |code| && i < |code|
    {
      !marked[i] ==> Place(i) < |left| && left[Place(i)] == code[i]
    }

    /** What is left are the unmarked instructions, in order and untouched. */
    ghost predicate Compacted() {
      && |marked| == |code| && |left| == Place(|code|)
      && forall i | 0 <= i < |code| :: InPlace(i)
    }

    /** What is read at i, or needed next and not written at i, is needed at i; nothing needed is erased. */
    predicate Sound(i: nat)
      requires |marked| == |code| == |needs| && i < |code|
    {
      var inst := code[i];
      && Modelled(inst) && (forall r | r in AllReads(inst) && r != NONE :: r in needs[i])
      && (forall j | 0 <= j < |code| && Edge(code, i, j) :: NeededAt(j) - Written(inst) <= needs[i])
      && (marked[i] ==> Computes(inst.op) && inst.dst !in NeededAt(i + 1))
      && (inst.IsJump() && inst.imm < |code| ==> forall k | 0 <= k < inst.imm :: !marked[k])
    }

    /** Sound wherever control can get. */
    ghost predicate Harmless() {
      && |marked| == |code| == |needs| && Compacted()
      && forall i | 0 <= i < |code| && Reachable(code, i) :: Sound(i)
    }

    // ---------- Simulation ----------

    /** Same world, same registers as far as needed, and the place of the surviving code. */
    ghost predicate Follows<W>(c: Config<State<W>>, d: Config<State<W>>)
      requires |marked| == |code|
    {
      && c.data.world == d.data.world
      && match c
         case Running(pc, s) =>
           && d.Running? && Agree(s.regs, d.data.regs, NeededAt(pc))
           && AtPlace(pc, d.pc)
         case Returned(inst, s) =>
           d.Returned? && d.inst == inst && GetAll(s.regs, Reads(inst)) == GetAll(d.data.regs, Reads(inst))
         case FellOff(_) => d.FellOff?
         case Trapped(_) => d.Trapped?
    }

    predicate Skips<S>(c: Config<S>)
      requires |marked| == |code|
    {
      c.Running? && c.pc < |code| && marked[c.pc]
    }

    lemma {:induction false} NothingErasedBelow(i: nat)
      requires i <= |marked| && forall k | 0 <= k < i :: !marked[k]
      ensures Place(i) == i
    {
      if i > 0 { NothingErasedBelow(i - 1); }
    }

    lemma NextNeeds(i: nat, j: nat)
      requires |marked| == |code| == |needs| && i < |code| && Sound(i) && (j < |code| ==> Edge(code, i, j))
      ensures NeededAt(j) - Written(code[i]) <= needs[i]
    {
    }

    /** d is at the place of what c is going to do. */
    ghost predicate AtPlace(j: nat, j': nat)
      requires |marked| == |code|
    {
      if j < |code| then Reachable(code, j) && j' == Place(j) else j' >= |left|
    }

    lemma NextPlace(i: nat)
      requires Harmless() && i < |code| && Reachable(code, i) && !code[i].op.Jump? && !code[i].IsReturn()
      ensures AtPlace(i + 1, Place(i) + (if marked[i] then 0 else 1))
    {
      if i + 1 < |code| { EdgeReachable(code, i, i + 1); }
    }

    lemma TargetPlace(i: nat)
      requires Harmless() && i < |code| && Reachable(code, i) && code[i].IsJump()
      ensures AtPlace(code[i].imm, code[i].imm)
    {
      assert Sound(i);
      var j := code[i].imm;
      if j < |code| {
        EdgeReachable(code, i, j);
        NothingErasedBelow(j);
      }
    }

    lemma SkippedStep<W>(rt: Behaviour<W>, c: Config<State<W>>, d: Config<State<W>>)
      requires Harmless() && Follows(c, d) && Skips(c)
      ensures Follows(After(rt, code, c), d)
      ensures After(rt, code, c).Running? && After(rt, code, c).pc == c.pc + 1
    {
      var i, inst := c.pc, code[c.pc];
      assert Sound(i);
      PerformStep(rt, code, i, c.data);
      NextNeeds(i, i + 1);
      NextPlace(i);
      AgreeNext(inst, c.data.regs, d.data.regs, rt.compute(inst, GetAll(c.data.regs, AllReads(inst))), needs[i], NeededAt(i + 1));
    }

    lemma Jumps<W>(rt: Behaviour<W>, i: nat, s: State<W>, s': State<W>)
      requires Harmless() && i < |code| && Reachable(code, i) && code[i].IsJump()
      requires s.world == s'.world && Agree(s.regs, s'.regs, needs[i])
      ensures Follows(After(rt, code, Running(i, s)), After(rt, left, Running(Place(i), s')))
    {
      var inst := code[i];
      assert Sound(i) && InPlace(i);
      JumpStep(rt, code, i, s);
      JumpStep(rt, left, Place(i), s');
      AgreeValues(s.regs, s'.regs, needs[i], AllReads(inst));
      SameTarget(rt, inst, i, Place(i), s, s');
      var j := Target(rt, inst, i, s);
      NextNeeds(i, j);
      AgreeNext(inst, s.regs, s'.regs, Nil, needs[i], NeededAt(j));
      if j == inst.imm && Target(rt, inst, Place(i), s') == j { TargetPlace(i); } else { NextPlace(i); }
    }

    lemma Performs<W>(rt: Behaviour<W>, i: nat, s: State<W>, s': State<W>)
      requires Harmless() && i < |code| && Reachable(code, i) && !marked[i] && !code[i].IsJump() && !code[i].IsReturn()
      requires s.world == s'.world && Agree(s.regs, s'.regs, needs[i])
      ensures Follows(After(rt, code, Running(i, s)), After(rt, left, Running(Place(i), s')))
    {
      assert Sound(i) && InPlace(i);
      PerformStep(rt, code, i, s);
      PerformStep(rt, left, Place(i), s');
      NextNeeds(i, i + 1);
      PerformsAlike(rt, code[i], s, s', needs[i], NeededAt(i + 1));
      NextPlace(i);
    }

    lemma Returns<W>(rt: Behaviour<W>, i: nat, s: State<W>, s': State<W>)
      requires Harmless() && i < |code| && Reachable(code, i) && code[i].IsReturn()
      requires s.world == s'.world && Agree(s.regs, s'.regs, needs[i])
      ensures Follows(After(rt, code, Running(i, s)), After(rt, left, Running(Place(i), s')))
    {
      assert Sound(i) && InPlace(i);
      AgreeValues(s.regs, s'.regs, needs[i], AllReads(code[i]));
    }

    lemma SharedStep<W>(rt: Behaviour<W>, c: Config<State<W>>, d: Config<State<W>>)
      requires Harmless() && Follows(c, d) && !Skips(c)
      ensures Follows(After(rt, code, c), After(rt, left, d))
    {
      if c.Running? && c.pc < |code| {
        if code[c.pc].IsJump() { Jumps(rt, c.pc, c.data, d.data); }
        else if code[c.pc].IsReturn() { Returns(rt, c.pc, c.data, d.data); }
        else { Performs(rt, c.pc, c.data, d.data); }
      }
    }

    /** The run of the code and the run of what is left, which waits while the code does something erased. */
    ghost function Together<S>(m: Machine<S>, s: S, k: nat): Pair<S>
      requires |marked| == |code|
    {
      if k == 0 then Pair(Running(0, s), Running(0, s)) else StepBoth(m, Together(m, s, k - 1))
    }

    function StepBoth<S>(m: Machine<S>, c: Pair<S>): Pair<S>
      requires |marked| == |code|
    {
      Pair(StepOnce(m, code, c.run), if Skips(c.run) then c.follower else StepOnce(m, left, c.follower))
    }

    /** How many of the first k steps are shared. */
    ghost function Turns<S>(m: Machine<S>, s: S, k: nat): (r: nat)
      requires |marked| == |code|
      ensures r <= k
    {
      if k == 0 then 0 else Turns(m, s, k - 1) + (if Skips(Together(m, s, k - 1).run) then 0 else 1)
    }

    lemma TurnsStep<S>(m: Machine<S>, s: S, k: nat, c: Pair<S>)
      requires |marked| == |code| && Together(m, s, k) == c
      ensures Together(m, s, k + 1) == StepBoth(m, c)
      ensures Turns(m, s, k + 1) == Turns(m, s, k) + (if Skips(c.run) then 0 else 1)
    {
    }

    /** One more step, whatever the configurations are. */
    lemma RunsOn<S>(m: Machine<S>, s: S, k: nat, c: Pair<S>, n: nat, n': nat)
      requires |marked| == |code| && n' == if Skips(c.run) then n else n + 1
      requires c.run == Run(m, code, Running(0, s), k) && c.follower == Run(m, left, Running(0, s), n)
      ensures StepBoth(m, c).run == Run(m, code, Running(0, s), k + 1)
      ensures StepBoth(m, c).follower == Run(m, left, Running(0, s), n')
    {
    }

    lemma {:induction false} TogetherRuns<S>(m: Machine<S>, s: S, k: nat)
      requires |marked| == |code|
      ensures Together(m, s, k).run == Run(m, code, Running(0, s), k)
      ensures Together(m, s, k).follower == Run(m, left, Running(0, s), Turns(m, s, k))
    {
      if k > 0 {
        var c, n := Together(m, s, k - 1), Turns(m, s, k - 1);
        TogetherRuns(m, s, k - 1);
        RunsOn(m, s, k - 1, c, n, Turns(m, s, k));
      }
    }

    lemma {:induction false} TogetherFollows<W>(rt: Behaviour<W>, s: State<W>, k: nat)
      requires Harmless()
      ensures Follows(Together(MachineOf(rt), s, k).run, Together(MachineOf(rt), s, k).follower)
    {
      if k > 0 {
        TogetherFollows(rt, s, k - 1);
        var Pair(c, d) := Together(MachineOf(rt), s, k - 1);
        if Skips(c) { SkippedStep(rt, c, d); } else { SharedStep(rt, c, d); }
      } else if code != [] {
        EntryReachable(code);
      }
    }

    lemma {:induction false} NextTurn<W>(rt: Behaviour<W>, s: State<W>, k: nat, c: Pair<State<W>>) returns (n: nat)
      requires Harmless() && Together(MachineOf(rt), s, k) == c && Follows(c.run, c.follower)
      ensures Turns(MachineOf(rt), s, n) == Turns(MachineOf(rt), s, k) + 1
      decreases if Skips(c.run) then |code| - c.run.pc else 0
    {
      TurnsStep(MachineOf(rt), s, k, c);
      if !Skips(c.run) { return k + 1; }
      SkippedStep(rt, c.run, c.follower);
      n := NextTurn(rt, s, k + 1, StepBoth(MachineOf(rt), c));
    }
  }

  /**
   If an erasure is harmless, what is left follows the code: after the steps they share the world is the same,
   and they halt the same way with the same returned values, for every behaviour and every start.
   */
  lemma HarmlessErasurePreserves<W>(rt: Behaviour<W>, x: Cut, s: State<W>, k: nat)
    requires x.Harmless()
    ensures x.Turns(MachineOf(rt), s, k) <= k
    ensures x.Follows(Run(MachineOf(rt), x.code, Running(0, s), k),
                      Run(MachineOf(rt), x.left, Running(0, s), x.Turns(MachineOf(rt), s, k)))
  {
    x.TogetherRuns(MachineOf(rt), s, k);
    x.TogetherFollows(rt, s, k);
  }

  /** And it takes no other steps: after n of its own the code is at some step that it follows. */
  lemma {:induction false} EveryTurnIsShared<W>(rt: Behaviour<W>, x: Cut, s: State<W>, n: nat) returns (k: nat)
    requires x.Harmless()
    ensures x.Turns(MachineOf(rt), s, k) == n
    ensures x.Follows(Run(MachineOf(rt), x.code, Running(0, s), k), Run(MachineOf(rt), x.left, Running(0, s), n))
  {
    k := 0;
    if n > 0 {
      k := EveryTurnIsShared(rt, x, s, n - 1);
      x.TogetherFollows(rt, s, k);
      k := x.NextTurn(rt, s, k, x.Together(MachineOf(rt), s, k));
    }
    HarmlessErasurePreserves(rt, x, s, k);
  }

  // ---------- What the pass erases ----------

  /** The erasure of dead code elimination. */
  function Elimination(p: seq<Inst>, needs: seq<set<U32>>): Cut {
    Cut(p, seq(|p|, i requires 0 <= i < |p| => IsDead(p[i..])), Live(p), needs)
  }

  lemma DropOne(whole: seq<Inst>, n: nat, head: seq<Inst>, tail: seq<Inst>)
    requires n <= |whole| && head + tail == whole[n..]
    ensures n + |head| <= |whole| && tail == whole[n + |head|..]
  {
    assert tail == (head + tail)[|head|..];
  }

  ghost predicate ErasesDead(p: seq<Inst>, x: Cut) {
    x.code == p && x.left == Live(p) && |x.marked| == |p| && forall k | 0 <= k < |p| :: MarksDead(p, x, k)
  }

  predicate MarksDead(p: seq<Inst>, x: Cut, k: nat)
    requires k < |p| == |x.marked|
  {
    x.marked[k] == IsDead(p[k..])
  }

  lemma {:induction false} LiveFrom(p: seq<Inst>, x: Cut, i: nat)
    requires i <= |p| && ErasesDead(p, x)
    ensures x.Place(i) <= |x.left| && Live(p[i..]) == x.left[x.Place(i)..]
  {
    if i == 0 {
      assert p[0..] == p;
    } else {
      LiveFrom(p, x, i - 1);
      LiveSuffix(p, i - 1);
      assert MarksDead(p, x, i - 1);
      DropOne(x.left, x.Place(i - 1), if x.marked[i - 1] then [] else [p[i - 1]], Live(p[i..]));
    }
  }

  lemma LiveInPlace(p: seq<Inst>, x: Cut, i: nat)
    requires i < |p| && ErasesDead(p, x)
    ensures x.InPlace(i)
  {
    assert MarksDead(p, x, i);
    if !x.marked[i] {
      LiveFrom(p, x, i);
      LiveSuffix(p, i);
      assert Live(p[i..])[0] == p[i];
    }
  }

  lemma DeadIsErased(p: seq<Inst>, x: Cut)
    requires ErasesDead(p, x)
    ensures x.Compacted()
  {
    forall i | 0 <= i < |p| ensures x.InPlace(i) { LiveInPlace(p, x, i); }
    LiveFrom(p, x, |p|);
    assert Live(p[|p|..]) == [];
  }

  /** The condition for straight-line code is a special case: there the needed registers are those of the rest. */
  lemma UnneededErasuresAreHarmless(p: seq<Inst>)
    requires StraightLine(p) && ErasesUnneeded(p)
    ensures Elimination(p, NeedsOfRest(p)).Harmless()
  {
    var x := Elimination(p, NeedsOfRest(p));
    assert forall k | 0 <= k < |p| :: MarksDead(p, x, k);
    DeadIsErased(p, x);
    forall i | 0 <= i < |p| && Reachable(p, i) ensures x.Sound(i) {
      var w :| WalkTo(p, w, i);
      StraightWalk(p, w, i);
      UnneededAt(p, x, i);
    }
  }

  function NeedsOfRest(p: seq<Inst>): seq<set<U32>> {
    seq(|p|, i requires 0 <= i < |p| => Needed(p[i..]))
  }

  lemma {:induction false} StraightWalk(p: seq<Inst>, w: seq<nat>, i: nat)
    requires StraightLine(p) && ErasesUnneeded(p) && WalkTo(p, w, i)
    ensures i < |p| && ErasesUnneeded(p[i..])
  {
    if |w| > 1 {
      var v := w[..|w| - 1];
      var h := w[|w| - 2];
      assert Edge(p, h, i) && p[h] in p;
      StraightWalk(p, v, h);
      assert p[h..][1..] == p[i..];
    } else {
      assert p[0..] == p;
    }
  }

  lemma NeededStep(rest: seq<Inst>, tail: seq<Inst>, dead: bool)
    requires rest != [] && tail == rest[1..] && dead == IsDead(rest) && StraightLine(rest) && ErasesUnneeded(rest)
    ensures Modelled(rest[0]) && !rest[0].IsJump()
    ensures forall r | r in AllReads(rest[0]) && r != NONE :: r in Needed(rest)
    ensures !rest[0].IsReturn() ==> Needed(tail) - Written(rest[0]) <= Needed(rest)
    ensures dead ==> Computes(rest[0].op) && rest[0].dst !in Needed(tail)
  {
    assert rest[0] in rest;
    assert forall r | r in Reads(rest[0]) && r != NONE :: r in ReadSet(rest[0]);
  }

  lemma SoundStraight(x: Cut, i: nat, here: set<U32>, next: set<U32>)
    requires |x.marked| == |x.code| == |x.needs| && i < |x.code| && x.needs[i] == here && x.NeededAt(i + 1) <= next
    requires Modelled(x.code[i]) && !x.code[i].IsJump()
    requires forall r | r in AllReads(x.code[i]) && r != NONE :: r in here
    requires !x.code[i].IsReturn() ==> next - Written(x.code[i]) <= here
    requires x.marked[i] ==> Computes(x.code[i].op) && x.code[i].dst !in next
    ensures x.Sound(i)
  {
  }

  lemma UnneededAt(p: seq<Inst>, x: Cut, i: nat)
    requires StraightLine(p) && i < |p| && ErasesUnneeded(p[i..]) && ErasesDead(p, x) && x.needs == NeedsOfRest(p)
    ensures x.Sound(i)
  {
    var rest, tail := p[i..], p[i + 1..];
    assert rest[0] == p[i] && rest[1..] == tail && forall inst | inst in rest :: inst in p;
    assert MarksDead(p, x, i);
    NeededStep(rest, tail, x.marked[i]);
    SoundStraight(x, i, Needed(rest), Needed(tail));
  }
}
