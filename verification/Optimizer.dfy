/** The passes of src/lir/optimizer.cpp, which rewrite a function's instructions in place. */
module Optimizers {
  import opened Lir
  import opened ControlFlow
  import opened DeadCode
  import Folding = ConstantFolding

  class LirFunction {
    var instructions: seq<Inst>

    constructor (instructions: seq<Inst>)
      ensures this.instructions == instructions
    {
      this.instructions := instructions;
    }
  }

  /** Marks idx and queues it unless it is out of range or already marked. */
  method PushIfValid(idx: nat, reachable: seq<bool>, worklist: seq<nat>)
    returns (reachable': seq<bool>, worklist': seq<nat>)
    ensures |reachable'| == |reachable|
    ensures if idx < |reachable| && !reachable[idx]
            then reachable' == reachable[idx := true] && worklist' == worklist + [idx]
            else reachable' == reachable && worklist' == worklist
  {
    reachable', worklist' := reachable, worklist;
    if idx < |reachable| && !reachable[idx] {
      reachable' := reachable[idx := true];
      worklist' := worklist + [idx];
    }
  }

  ghost function Unmarked(reachable: seq<bool>): set<nat> {
    set i | 0 <= i < |reachable| && !reachable[i]
  }

  lemma MarkingShrinks(before: seq<bool>, after: seq<bool>)
    requires |after| == |before| && after != before
    requires forall k | 0 <= k < |before| && before[k] :: after[k]
    ensures Unmarked(after) < Unmarked(before)
  {
    var k :| 0 <= k < |before| && before[k] != after[k];
    assert k in Unmarked(before) && k !in Unmarked(after);
  }

  /** Marks and queues every instruction that control can reach directly from i. */
  method PushSuccessors(p: seq<Inst>, i: nat, reachable: seq<bool>, worklist: seq<nat>)
    returns (reachable': seq<bool>, worklist': seq<nat>)
    requires i < |p| == |reachable|
    ensures |reachable'| == |p|
    ensures forall j | 0 <= j < |p| :: reachable'[j] <==> reachable[j] || Edge(p, i, j)
    ensures forall k | k in worklist :: k in worklist'
    ensures forall k | k in worklist' :: k in worklist || (k < |p| && reachable'[k])
    ensures forall j | 0 <= j < |p| && reachable'[j] && !reachable[j] :: j in worklist'
    ensures reachable' == reachable ==> worklist' == worklist
  {
    reachable', worklist' := reachable, worklist;
    var inst := p[i];
    if inst.IsJump() {
      reachable', worklist' := PushIfValid(inst.imm, reachable', worklist');
    }
    if !inst.op.Jump? && !inst.IsReturn() && i + 1 < |p| {
      reachable', worklist' := PushIfValid(i + 1, reachable', worklist');
    }
  }

  /** Breadth-first traversal of the instruction graph from the entry. */
  method MarkReachable(p: seq<Inst>) returns (reachable: seq<bool>)
    requires p != []
    ensures |reachable| == |p|
    ensures forall i | 0 <= i < |p| :: reachable[i] <==> Reachable(p, i)
  {
    reachable := seq(|p|, _ => false);
    var worklist: seq<nat> := [];
    EntryReachable(p);
    reachable, worklist := PushIfValid(0, reachable, worklist);
    while worklist != []
      invariant |reachable| == |p| && reachable[0]
      invariant forall i | 0 <= i < |p| && reachable[i] :: Reachable(p, i)
      invariant forall i | i in worklist :: i < |p| && reachable[i]
      invariant forall i, j | 0 <= i < |p| && reachable[i] && i !in worklist && 0 <= j && Edge(p, i, j) :: reachable[j]
      decreases Unmarked(reachable), |worklist|
    {
      var i := worklist[0];
      assert i in worklist;
      ghost var before, queued := reachable, worklist;
      reachable, worklist := PushSuccessors(p, i, reachable, worklist[1..]);
      assert forall k :: k in queued <==> k == i || k in queued[1..];
      forall k | 0 <= k < |p| && reachable[k] && !before[k] ensures Reachable(p, k) {
        EdgeReachable(p, i, k);
      }
      if reachable != before { MarkingShrinks(before, reachable); }
    }
    forall i | 0 <= i < |p| && Reachable(p, i) ensures reachable[i] {
      var w :| WalkTo(p, w, i);
      ClosedMarksReachable(p, reachable, w);
    }
  }

  method Compact(p: seq<Inst>, reachable: seq<bool>) returns (compacted: seq<Inst>, changed: bool)
    requires |reachable| == |p| && forall i | 0 <= i < |p| :: reachable[i] <==> Reachable(p, i)
    ensures changed <==> exists i | 0 <= i < |p| :: !Reachable(p, i)
    ensures compacted == Kept(p, |p|)
  {
    changed, compacted := false, [];
    for i := 0 to |p|
      invariant changed <==> exists k | 0 <= k < i :: !Reachable(p, k)
      invariant compacted == Kept(p, i)
    {
      if reachable[i] {
        compacted := compacted + [p[i]];
      } else {
        changed := true;
      }
    }
  }

  /** Old-to-new index map, with -1 (the source's `size_t(-1)`) at dropped indices. */
  method BuildRemap(p: seq<Inst>, reachable: seq<bool>) returns (remap: seq<int>)
    requires |reachable| == |p| && forall i | 0 <= i < |p| :: reachable[i] <==> Reachable(p, i)
    ensures |remap| == |p|
    ensures forall i | 0 <= i < |p| :: remap[i] == if Reachable(p, i) then Rank(p, i) else -1
  {
    remap := seq(|p|, _ => -1);
    var next := 0;
    for i := 0 to |p|
      invariant |remap| == |p| && next == Rank(p, i)
      invariant forall k | 0 <= k < |p| :: remap[k] == if k < i && Reachable(p, k) then Rank(p, k) else -1
    {
      if reachable[i] {
        remap := remap[i := next];
        next := next + 1;
      }
    }
  }

  method RetargetJumps(p: seq<Inst>, remap: seq<int>, compacted: seq<Inst>) returns (r: seq<Inst>)
    requires |remap| == |p|
    requires forall i | 0 <= i < |p| :: remap[i] == if Reachable(p, i) then Rank(p, i) else -1
    ensures |r| == |compacted|
    ensures forall k | 0 <= k < |r| :: r[k] == Retarget(p, compacted[k])
  {
    r := compacted;
    for j := 0 to |compacted|
      invariant |r| == |compacted|
      invariant forall k | 0 <= k < |r| :: r[k] == if k < j then Retarget(p, compacted[k]) else compacted[k]
    {
      var inst := r[j];
      if inst.IsJump() {
        var oldTarget := inst.imm;
        if oldTarget < |p| && remap[oldTarget] != -1 {
          r := r[j := inst.(imm := remap[oldTarget])];
        }
      }
    }
  }

  method AddUses(inst: Inst, live: set<U32>) returns (live': set<U32>)
    ensures live' == live + Uses(inst)
  {
    live' := live;
    if inst.a != NONE { live' := live' + {inst.a}; }
    if inst.b != NONE { live' := live' + {inst.b}; }
    for j := 0 to |inst.args|
      invariant live' == live + Present(inst.a) + Present(inst.b) + set k | 0 <= k < j && inst.args[k] != NONE :: inst.args[k]
    {
      if inst.args[j] != NONE { live' := live' + {inst.args[j]}; }
    }
    if inst.IsReturn() && inst.dst != NONE { live' := live' + {inst.dst}; }
    if (inst.op.JumpIf? || inst.op.JumpIfFalse?) && inst.dst != NONE { live' := live' + {inst.dst}; }
  }

  /** Backward pass: the live set stored at each instruction. */
  method AnalyzeLiveness(p: seq<Inst>) returns (liveAt: seq<set<U32>>)
    ensures liveAt == LiveSets(p)
  {
    liveAt := seq(|p|, _ => {});
    var liveRegs: set<U32> := {};
    for i := |p| downto 0
      invariant |liveAt| == |p| && liveRegs == LiveIn(p[i..])
      invariant liveAt[i..] == LiveSets(p[i..])
    {
      LiveSuffix(p, i);
      liveRegs := AddUses(p[i], liveRegs);
      liveAt := liveAt[i := liveRegs];
      liveRegs := EraseDefinition(p[i], liveRegs);
    }
    assert p[0..] == p && liveAt[0..] == liveAt;
  }

  method EraseDefinition(inst: Inst, live: set<U32>) returns (live': set<U32>)
    ensures live' == live - (if Kills(inst) then {inst.dst} else {})
  {
    live' := if Kills(inst) then live - {inst.dst} else live;
  }

  method MarkDead(p: seq<Inst>, liveAt: seq<set<U32>>) returns (toRemove: seq<bool>)
    requires liveAt == LiveSets(p)
    ensures |toRemove| == |p|
    ensures forall i | 0 <= i < |p| :: toRemove[i] <==> IsDead(p[i..])
  {
    toRemove := seq(|p|, _ => false);
    for i := 0 to |p|
      invariant |toRemove| == |p|
      invariant forall k | 0 <= k < |p| :: toRemove[k] <==> k < i && IsDead(p[k..])
    {
      var inst := p[i];
      var dstIsLive := false;
      if inst.dst != NONE && i + 1 < |p| {
        LiveSetsAt(p, i + 1);
        assert p[i..][1..] == p[i + 1..];
        dstIsLive := inst.dst in liveAt[i + 1];
      }
      if !HasSideEffects(inst) && !dstIsLive && inst.dst != NONE {
        toRemove := toRemove[i := true];
      }
    }
  }

  method EraseMarked(p: seq<Inst>, toRemove: seq<bool>) returns (code: seq<Inst>)
    requires |toRemove| == |p| && forall i | 0 <= i < |p| :: toRemove[i] <==> IsDead(p[i..])
    ensures code == Live(p)
  {
    code := p;
    for i := |p| downto 0
      invariant code == p[..i] + Live(p[i..])
    {
      LiveSuffix(p, i);
      assert p[..i + 1] == p[..i] + [p[i]];
      assert code == p[..i] + ([p[i]] + Live(p[i + 1..]));
      if toRemove[i] {
        code := code[..i] + code[i + 1..];
      }
    }
    assert p[0..] == p;
  }

  class Optimizer {
    const func: LirFunction

    constructor (func: LirFunction)
      ensures this.func == func
    {
      this.func := func;
    }

    /** Keeps exactly the instructions reachable from the entry and retargets their jumps. */
    method RemoveUnreachableCode() returns (changed: bool)
      modifies func
      ensures func.instructions == Pruned(old(func.instructions))
      ensures changed <==> exists i | 0 <= i < |old(func.instructions)| :: !Reachable(old(func.instructions), i)
    {
      if func.instructions == [] { return false; }
      var p := func.instructions;
      var reachable := MarkReachable(p);

      var compacted;
      compacted, changed := Compact(p, reachable);
      if changed {
        var remap := BuildRemap(p, reachable);
        compacted := RetargetJumps(p, remap, compacted);
        func.instructions := compacted;
      } else {
        PrunedAll(p);
      }
    }

    /** Erases the instructions whose destination the liveness analysis takes for dead. */
    method DeadCodeElimination() returns (changed: bool)
      modifies func
      ensures func.instructions == Live(old(func.instructions))
      ensures changed <==> func.instructions != old(func.instructions)
    {
      if func.instructions == [] { return false; }
      var p := func.instructions;
      var liveAt := AnalyzeLiveness(p);
      var toRemove := MarkDead(p, liveAt);
      changed := exists i | 0 <= i < |p| :: toRemove[i];
      func.instructions := EraseMarked(p, toRemove);
      LiveChanges(p);
    }

    /** Replaces arithmetic on known small integers by constants, in one forward pass. */
    method ConstantFolding() returns (changed: bool)
      modifies func
      ensures func.instructions == Folding.FoldFrom(old(func.instructions), map[])
      ensures changed <==> func.instructions != old(func.instructions)
    {
      if func.instructions == [] { return false; }
      changed := false;
      var constRegs: Folding.Facts := map[];
      ghost var p := func.instructions;

      for i := 0 to |func.instructions|
        invariant |func.instructions| == |p| && func.instructions[i..] == p[i..]
        invariant func.instructions[..i] + Folding.FoldFrom(p[i..], constRegs) == Folding.FoldFrom(p, map[])
        invariant changed <==> func.instructions != p
      {
        var inst := func.instructions[i];
        ghost var before, code := constRegs, func.instructions;
        assert inst == code[i..][0] == p[i..][0] == p[i];
        if inst.op.LoadConst? {
          constRegs := constRegs[inst.dst := inst.constVal];
        } else if inst.op.Mov? {
          if inst.a in constRegs {
            constRegs := constRegs[inst.dst := constRegs[inst.a]];
          } else {
            constRegs := constRegs - {inst.dst};
          }
        } else if Folding.IsFolded(inst.op) {
          if inst.a in constRegs && inst.b in constRegs {
            var va, vb := constRegs[inst.a], constRegs[inst.b];
            // Only fold integers, and leave a zero divisor alone.
            if IsSmallInt(va) && IsSmallInt(vb) && (inst.op.Div? ==> vb.n != 0) {
              var res := Int(Folding.Wrap64(Folding.Exact(inst.op, va.n, vb.n)));
              func.instructions := func.instructions[i := inst.(op := LoadConst, constVal := res)];
              constRegs := constRegs[inst.dst := res];
              changed := true;
              assert func.instructions[i].op != p[i].op;
            }
          } else if inst.dst != NONE {
            constRegs := constRegs - {inst.dst};
          }
        } else if inst.dst != NONE {
          constRegs := constRegs - {inst.dst};
        }
        assert constRegs == Folding.NextFacts(inst, before);
        assert func.instructions == code[i := Folding.Rewritten(inst, before)];
        FoldTurn(p, i, before, code);
      }
    }
  }

  /** One turn of the folding loop: the code so far and the code still to fold make the whole. */
  lemma FoldTurn(p: seq<Inst>, i: nat, facts: Folding.Facts, code: seq<Inst>)
    requires i < |p| == |code| && code[i..] == p[i..]
    ensures var inst := Folding.Rewritten(p[i], facts);
            && code[i := inst][i + 1..] == p[i + 1..]
            && code[..i] + Folding.FoldFrom(p[i..], facts)
               == code[i := inst][..i + 1] + Folding.FoldFrom(p[i + 1..], Folding.NextFacts(p[i], facts))
  {
    assert p[i..][1..] == p[i + 1..] && p[i..][0] == p[i];
    assert code[i + 1..] == code[i..][1..];
  }
}
