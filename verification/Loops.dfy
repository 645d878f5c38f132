/**
 Neither liveness nor constant folding looks along a jump, so both passes change programs with loops.
 The two programs here are run on the machine of ControlFlow, before and after the pass.
 */
module Loops {
  import opened Lir
  import opened ControlFlow
  import DeadCode
  import ConstantFolding
  import FoldingWithJumps
  import EliminationWithJumps

  datatype Memory = Memory(regs: map<U32, Value>, printed: seq<Value>)

  function Perform(inst: Inst, m: Memory): Step<Memory> {
    if inst.op.LoadConst? then Next(m.(regs := m.regs[inst.dst := inst.constVal]))
    else if inst.op.PrintInt? then Next(m.(printed := m.printed + [DeadCode.Get(m.regs, inst.a)]))
    else if inst.op.Add? then
      var x, y := DeadCode.Get(m.regs, inst.a), DeadCode.Get(m.regs, inst.b);
      Next(m.(regs := m.regs[inst.dst := if x.Int? && y.Int? then Int(x.n + y.n) else Nil]))
    else Trap
  }

  const MACHINE := Machine((inst: Inst, m: Memory) => Perform(inst, m), (inst: Inst, m: Memory) => false)

  const START := Running(0, Memory(map[], []))

  function Load(dst: U32, n: int): Inst {
    Inst(LoadConst, dst, NONE, NONE, 0, Int(n), "", [])
  }

  function JumpTo(target: U32): Inst {
    Inst(Jump, NONE, NONE, NONE, target, Nil, "", [])
  }

  lemma StepAt(p: seq<Inst>, pc: nat, m: Memory, inst: Inst)
    requires pc < |p| && p[pc] == inst && (inst.op.LoadConst? || inst.op.PrintInt? || inst.op.Add?)
    ensures StepOnce(MACHINE, p, Running(pc, m)) == Running(pc + 1, Perform(inst, m).data)
  {
  }

  lemma JumpAt(p: seq<Inst>, pc: nat, m: Memory, target: U32)
    requires pc < |p| && p[pc] == JumpTo(target)
    ensures StepOnce(MACHINE, p, Running(pc, m)) == Running(target, m)
  {
  }

  /** Each configuration follows from the one before it. */
  ghost predicate Steps(p: seq<Inst>, cs: seq<Config<Memory>>) {
    |cs| > 0 && cs[0] == START && forall k | 0 <= k < |cs| - 1 :: StepOnce(MACHINE, p, cs[k]) == cs[k + 1]
  }

  lemma {:induction false} StepsRun(p: seq<Inst>, cs: seq<Config<Memory>>, k: nat)
    requires Steps(p, cs) && k < |cs|
    ensures Run(MACHINE, p, START, k) == cs[k]
  {
    if k > 0 {
      StepsRun(p, cs, k - 1);
    }
  }

  /** r1 := 0; r2 := 1; again: r1 := r1 + r2; goto again */
  const COUNT := [Load(1, 0)] + ([Load(2, 1)] + ([Inst(Add, 1, 1, 2, 0, Nil, "", [])] + ([JumpTo(2)] + [])))

  const COUNT_FOLDED := [Load(1, 0), Load(2, 1), Inst(LoadConst, 1, 1, 2, 0, Int(1), "", []), JumpTo(2)]

  lemma FoldCons(inst: Inst, rest: seq<Inst>, facts: ConstantFolding.Facts)
    ensures ConstantFolding.FoldFrom([inst] + rest, facts)
            == [ConstantFolding.Rewritten(inst, facts)] + ConstantFolding.FoldFrom(rest, ConstantFolding.NextFacts(inst, facts))
  {
    assert ([inst] + rest)[1..] == rest;
  }

  lemma CountIsFolded()
    ensures ConstantFolding.FoldFrom(COUNT, map[]) == COUNT_FOLDED
  {
    var add := Inst(Add, 1, 1, 2, 0, Nil, "", []);
    var f1: ConstantFolding.Facts := map[1 := Int(0)];
    var f2 := f1[2 := Int(1)];
    FoldCons(JumpTo(2), [], f2[1 := Int(1)]);
    FoldCons(add, [JumpTo(2)] + [], f2);
    FoldCons(Load(2, 1), [add] + ([JumpTo(2)] + []), f1);
    FoldCons(Load(1, 0), [Load(2, 1)] + ([add] + ([JumpTo(2)] + [])), map[]);
  }

  const ADD := Inst(Add, 1, 1, 2, 0, Nil, "", [])

  /** After 2n + 1 steps the counter is n. */
  lemma {:induction false} CountReaches(n: nat)
    requires n > 0
    ensures var c := Run(MACHINE, COUNT, START, 2 * n + 1);
            c.Running? && c.pc == 3 && DeadCode.Get(c.data.regs, 1) == Int(n) && DeadCode.Get(c.data.regs, 2) == Int(1)
  {
    assert COUNT[1] == Load(2, 1) && COUNT[2] == ADD && COUNT[3] == JumpTo(2);
    if n == 1 {
      CountStarts();
    } else {
      CountReaches(n - 1);
      var c := Run(MACHINE, COUNT, START, 2 * n - 1);
      JumpAt(COUNT, 3, c.data, 2);
      assert Run(MACHINE, COUNT, START, 2 * n) == Running(2, c.data);
      StepAt(COUNT, 2, c.data, ADD);
    }
  }

  lemma CountStarts()
    ensures var c := Run(MACHINE, COUNT, START, 3);
            c.Running? && c.pc == 3 && DeadCode.Get(c.data.regs, 1) == Int(1) && DeadCode.Get(c.data.regs, 2) == Int(1)
  {
    var m0 := Memory(map[], []);
    var m1 := m0.(regs := m0.regs[1 := Int(0)]);
    var m2 := m1.(regs := m1.regs[2 := Int(1)]);
    var m3 := m2.(regs := m2.regs[1 := Int(1)]);
    assert COUNT[1] == Load(2, 1) && COUNT[2] == ADD;
    StepAt(COUNT, 0, m0, Load(1, 0));
    StepAt(COUNT, 1, m1, Load(2, 1));
    StepAt(COUNT, 2, m2, ADD);
    StepsRun(COUNT, [START, Running(1, m1), Running(2, m2), Running(3, m3)], 3);
  }

  /** The folded loop never gets past 1. */
  lemma {:induction false} FoldedStays(k: nat)
    ensures var c := Run(MACHINE, COUNT_FOLDED, START, k);
            && c.Running? && c.pc < 4
            && (DeadCode.Get(c.data.regs, 1) == Nil || DeadCode.Get(c.data.regs, 1) == Int(0) || DeadCode.Get(c.data.regs, 1) == Int(1))
  {
    if k > 0 {
      FoldedStays(k - 1);
      var c := Run(MACHINE, COUNT_FOLDED, START, k - 1);
      if c.pc == 3 {
        JumpAt(COUNT_FOLDED, 3, c.data, 2);
      } else {
        StepAt(COUNT_FOLDED, c.pc, c.data, COUNT_FOLDED[c.pc]);
      }
    }
  }

  /** Folding makes a loop counter a constant: the loop reaches every n, the folded one never gets past 1. */
  lemma LoopBreaksFolding(n: nat, k: nat)
    requires n > 0
    ensures DeadCode.Get(Run(MACHINE, COUNT, START, 2 * n + 1).data.regs, 1) == Int(n)
    ensures var v := DeadCode.Get(Run(MACHINE, ConstantFolding.FoldFrom(COUNT, map[]), START, k).data.regs, 1);
            v == Nil || v == Int(0) || v == Int(1)
  {
    CountIsFolded();
    CountReaches(n);
    FoldedStays(k);
  }

  lemma CountFacts()
    ensures |COUNT| == 4 && COUNT[2] == ADD && COUNT[3] == JumpTo(2)
    ensures FoldingWithJumps.FactsAt(COUNT, 2) == map[1 := Int(0), 2 := Int(1)]
    ensures FoldingWithJumps.FactsAt(COUNT, 3) == map[1 := Int(1), 2 := Int(1)]
  {
    assert COUNT[0] == Load(1, 0) && COUNT[1] == Load(2, 1);
    assert FoldingWithJumps.FactsAt(COUNT, 1) == map[1 := Int(0)];
  }

  lemma CountWalks()
    ensures Reachable(COUNT, 2) && Reachable(COUNT, 3) && Edge(COUNT, 3, 2)
  {
    CountFacts();
    assert COUNT[0] == Load(1, 0) && COUNT[1] == Load(2, 1);
    assert WalkTo(COUNT, [0, 1, 2], 2) && WalkTo(COUNT, [0, 1, 2, 3], 3);
  }

  /** No choice of facts can be trusted there: the jump back brings another value than the one recorded. */
  lemma CountIsNotTrusted(t: seq<set<U32>>)
    ensures !FoldingWithJumps.Trusted(COUNT, t)
  {
    CountFacts();
    CountWalks();
    if |t| == |COUNT| {
      assert FoldingWithJumps.FoldsTrusted(COUNT, t, 2) ==> 1 in t[2];
      assert FoldingWithJumps.Carries(COUNT, t, 3, 2) ==> 1 !in t[2];
    }
  }

  /** r1 := 2; again: r3 := r1 * r1; goto again */
  const SQUARE := [Load(1, 2), Inst(Mul, 3, 1, 1, 0, Nil, "", []), JumpTo(1)]

  /** A loop that does not change what it reads can be folded. */
  lemma UnchangingLoopIsTrusted()
    ensures FoldingWithJumps.Trusted(SQUARE, [{}, {1}, {1}])
    ensures ConstantFolding.FoldFrom(SQUARE, map[])[1] == SQUARE[1].(op := LoadConst, constVal := Int(4))
  {
    var t: seq<set<U32>> := [{}, {1}, {1}];
    var f1: ConstantFolding.Facts := map[1 := Int(2)];
    var f2 := f1[3 := Int(4)];
    assert FoldingWithJumps.FactsAt(SQUARE, 1) == f1;
    assert FoldingWithJumps.FactsAt(SQUARE, 2) == f2;
    assert SQUARE[0..] == SQUARE;
    FoldingWithJumps.FoldedAt(SQUARE, 0, 1);
    forall i, j: nat | 0 <= i < |SQUARE| && Reachable(SQUARE, i) && Edge(SQUARE, i, j)
      ensures FoldingWithJumps.Carries(SQUARE, t, i, j)
    {
      assert i == 0 || i == 1 || i == 2;
      assert j == if i == 2 then 1 else i + 1;
      assert FoldingWithJumps.Known(f1, {1}) == f1;
    }
  }

  /** r1 := 0; again: print r1; r1 := 7; goto again */
  const SHOW := [Load(1, 0)] + ([Inst(PrintInt, NONE, 1, NONE, 0, Nil, "", [])] + ([Load(1, 7)] + ([JumpTo(1)] + [])))

  const SHOW_LIVE := [Load(1, 0), Inst(PrintInt, NONE, 1, NONE, 0, Nil, "", []), JumpTo(1)]

  lemma ShowIsCut()
    ensures DeadCode.Live(SHOW) == SHOW_LIVE
  {
    var tail := [Load(1, 7)] + ([JumpTo(1)] + []);
    TailIsCut(tail);
    LoadIsAlive([PRINT] + tail);
    DeadCode.Unfold(PRINT, tail);
    DeadCode.Unfold(Load(1, 0), [PRINT] + tail);
  }

  lemma TailIsCut(tail: seq<Inst>)
    requires tail == [Load(1, 7)] + ([JumpTo(1)] + [])
    ensures DeadCode.Live(tail) == [JumpTo(1)]
  {
    DeadCode.Unfold(JumpTo(1), []);
    DeadCode.Unfold(Load(1, 7), [JumpTo(1)] + []);
  }

  lemma ShowRuns()
    ensures exists m :: Run(MACHINE, SHOW, START, 5) == Running(2, m) && m.printed == [Int(0), Int(7)]
  {
    var print1 := Inst(PrintInt, NONE, 1, NONE, 0, Nil, "", []);
    var m0 := Memory(map[], []);
    var m1 := m0.(regs := m0.regs[1 := Int(0)]);
    var m2 := m1.(printed := m1.printed + [Int(0)]);
    var m3 := m2.(regs := m2.regs[1 := Int(7)]);
    var m5 := m3.(printed := m3.printed + [Int(7)]);
    assert SHOW[1] == print1 && SHOW[2] == Load(1, 7) && SHOW[3] == JumpTo(1);
    StepAt(SHOW, 0, m0, Load(1, 0));
    StepAt(SHOW, 1, m1, print1);
    StepAt(SHOW, 2, m2, Load(1, 7));
    JumpAt(SHOW, 3, m3, 1);
    StepAt(SHOW, 1, m3, print1);
    StepsRun(SHOW, [START, Running(1, m1), Running(2, m2), Running(3, m3), Running(1, m3), Running(2, m5)], 5);
  }

  lemma LiveRuns()
    ensures exists m :: Run(MACHINE, SHOW_LIVE, START, 4) == Running(2, m) && m.printed == [Int(0), Int(0)]
  {
    var m0 := Memory(map[], []);
    var m1 := m0.(regs := m0.regs[1 := Int(0)]);
    var m2 := m1.(printed := m1.printed + [Int(0)]);
    var m4 := m2.(printed := m2.printed + [Int(0)]);
    StepAt(SHOW_LIVE, 0, m0, Load(1, 0));
    StepAt(SHOW_LIVE, 1, m1, SHOW_LIVE[1]);
    JumpAt(SHOW_LIVE, 2, m2, 1);
    StepAt(SHOW_LIVE, 1, m2, SHOW_LIVE[1]);
    StepsRun(SHOW_LIVE, [START, Running(1, m1), Running(2, m2), Running(1, m2), Running(2, m4)], 4);
  }

  /** Elimination drops what only the next turn of a loop reads: the second turn prints 7, and 0 after the pass. */
  lemma LoopBreaksElimination()
    ensures Run(MACHINE, SHOW, START, 5).data.printed == [Int(0), Int(7)]
    ensures Run(MACHINE, DeadCode.Live(SHOW), START, 4).data.printed == [Int(0), Int(0)]
  {
    ShowIsCut();
    ShowRuns();
    LiveRuns();
  }

  const PRINT := Inst(PrintInt, NONE, 1, NONE, 0, Nil, "", [])

  lemma ShowCode()
    ensures |SHOW| == 4 && SHOW[0] == Load(1, 0) && SHOW[1] == PRINT && SHOW[2] == Load(1, 7) && SHOW[3] == JumpTo(1)
    ensures SHOW[2..] == [Load(1, 7)] + ([JumpTo(1)] + [])
  {
  }

  lemma ShowWalks()
    ensures Reachable(SHOW, 1) && Reachable(SHOW, 2) && Reachable(SHOW, 3) && Edge(SHOW, 3, 1)
  {
    ShowCode();
    assert WalkTo(SHOW, [0, 1], 1) && WalkTo(SHOW, [0, 1, 2], 2) && WalkTo(SHOW, [0, 1, 2, 3], 3);
  }

  lemma ShowDead()
    ensures DeadCode.IsDead(SHOW[2..])
  {
    ShowCode();
    DeadCode.Unfold(JumpTo(1), []);
    DeadCode.Unfold(Load(1, 7), [JumpTo(1)] + []);
  }

  /** No needed registers make that erasure harmless: the jump back leads to what reads the register. */
  lemma ShowIsNotHarmless(needs: seq<set<U32>>)
    ensures !EliminationWithJumps.Elimination(SHOW, needs).Harmless()
  {
    ShowCode();
    ShowWalks();
    ShowDead();
    var x := EliminationWithJumps.Elimination(SHOW, needs);
    if |needs| == |SHOW| {
      assert x.Sound(1) ==> 1 in needs[1];
      assert x.Sound(3) ==> needs[1] <= needs[3] by {
        assert x.NeededAt(1) == needs[1] && EliminationWithJumps.Written(SHOW[3]) == {};
      }
      assert x.Sound(2) ==> 1 !in needs[3];
    }
  }

  const COPY := Inst(Mov, 2, 1, NONE, 0, Nil, "", [])

  /** r1 := 0; again: print r1; r2 := r1; goto again */
  const SPARE := [Load(1, 0)] + ([PRINT] + ([COPY] + ([JumpTo(1)] + [])))

  lemma SpareCode()
    ensures |SPARE| == 4 && SPARE[0] == Load(1, 0) && SPARE[1] == PRINT && SPARE[2] == COPY && SPARE[3] == JumpTo(1)
    ensures SPARE[1..] == [PRINT] + ([COPY] + ([JumpTo(1)] + [])) && SPARE[2..] == [COPY] + ([JumpTo(1)] + [])
  {
  }

  lemma CopyIsDead(rest: seq<Inst>)
    requires rest == [COPY] + ([JumpTo(1)] + [])
    ensures DeadCode.IsDead(rest)
  {
    DeadCode.Unfold(JumpTo(1), []);
    DeadCode.Unfold(COPY, [JumpTo(1)] + []);
  }

  lemma LoadIsAlive(rest: seq<Inst>)
    requires rest != [] && rest[0] == PRINT
    ensures !DeadCode.IsDead([Load(1, 0)] + rest)
  {
    DeadCode.Unfold(Load(1, 0), rest);
  }

  lemma SpareDead(p: seq<Inst>)
    requires p == SPARE
    ensures DeadCode.IsDead(p[2..]) && !DeadCode.IsDead(p[0..])
  {
    SpareCode();
    assert p[0..] == p;
    CopyIsDead(p[2..]);
    LoadIsAlive([PRINT] + ([COPY] + ([JumpTo(1)] + [])));
  }

  lemma SpareMarks(x: EliminationWithJumps.Cut)
    requires EliminationWithJumps.ErasesDead(SPARE, x)
    ensures x.marked == [false, false, true, false]
  {
    SpareCode();
    SpareDead(SPARE);
    forall i | 0 <= i < |SPARE| ensures x.marked[i] <==> i == 2 {
      assert EliminationWithJumps.MarksDead(SPARE, x, i) && SPARE[i..][0] == SPARE[i];
    }
  }

  /** The copy nobody reads can be erased from this loop. */
  lemma SpareCopyIsHarmless()
    ensures var x := EliminationWithJumps.Elimination(SPARE, [{}, {1}, {1}, {1}]); x.Harmless() && x.marked[2]
  {
    var needs: seq<set<U32>> := [{}, {1}, {1}, {1}];
    var x := EliminationWithJumps.Elimination(SPARE, needs);
    assert forall k | 0 <= k < |SPARE| :: EliminationWithJumps.MarksDead(SPARE, x, k);
    SpareMarks(x);
    SpareCode();
    EliminationWithJumps.DeadIsErased(SPARE, x);
    forall i | 0 <= i < |SPARE| ensures x.Sound(i) {
      SpareSound(x, needs, i);
    }
  }

  lemma SpareSound(x: EliminationWithJumps.Cut, needs: seq<set<U32>>, i: nat)
    requires needs == [{}, {1}, {1}, {1}] && x == EliminationWithJumps.Elimination(SPARE, needs) && i < |SPARE|
    requires x.marked == [false, false, true, false]
    ensures x.Sound(i)
  {
    SpareCode();
    assert i == 0 || i == 1 || i == 2 || i == 3;
  }
}
