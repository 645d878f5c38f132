/**
 Liveness as the optimizer computes it, the program dead-code elimination leaves,
 and the exact condition under which the computed liveness can be trusted.
 */
module DeadCode {
  import opened Lir

  // ---------- The analysis ----------

  /** Operations the pass never removes. */
  predicate HasSideEffects(inst: Inst) {
    || inst.op.Call? || inst.op.CallVoid? || inst.op.CallIndirect? || inst.op.CallBuiltin? || inst.op.CallVariadic?
    || inst.op.PrintInt? || inst.op.PrintUint? || inst.op.PrintFloat? || inst.op.PrintBool? || inst.op.PrintString?
    || inst.op.Return? || inst.op.Ret? || inst.op.Jump? || inst.op.JumpIf? || inst.op.JumpIfFalse?
    || inst.op.Label? || inst.op.Store?
    || inst.op.ChannelSend? || inst.op.ChannelRecv? || inst.op.ChannelClose? || inst.op.Await? || inst.op.AsyncCall?
  }

  function Present(r: U32): set<U32> {
    if r == NONE then {} else {r}
  }

  /** Registers the analysis counts as used, whatever the opcode really reads. */
  function Uses(inst: Inst): set<U32> {
    Present(inst.a) + Present(inst.b) + (set r | r in inst.args && r != NONE)
    + (if inst.IsReturn() || inst.op.JumpIf? || inst.op.JumpIfFalse? then Present(inst.dst) else {})
  }

  /** The analysis treats dst as defined here, whatever the opcode really writes. */
  predicate Kills(inst: Inst) {
    inst.dst != NONE && !inst.IsReturn() && !inst.IsJump()
  }

  /** The running live set after the backward pass has processed all of p. */
  function LiveIn(p: seq<Inst>): set<U32>
    decreases p, 1
  {
    if p == [] then {} else LiveAt(p) - (if Kills(p[0]) then {p[0].dst} else {})
  }

  /** The live set stored for the first instruction of p: taken before dst is erased. */
  function LiveAt(p: seq<Inst>): set<U32>
    requires p != []
    decreases p, 0
  {
    LiveIn(p[1..]) + Uses(p[0])
  }

  /** The live sets stored for all of p. */
  function LiveSets(p: seq<Inst>): (r: seq<set<U32>>)
    ensures |r| == |p|
  {
    if p == [] then [] else [LiveAt(p)] + LiveSets(p[1..])
  }

  lemma {:induction false} LiveSetsAt(p: seq<Inst>, i: nat)
    requires i < |p|
    ensures LiveSets(p)[i] == LiveAt(p[i..])
  {
    if i > 0 {
      LiveSetsAt(p[1..], i - 1);
      assert p[1..][i - 1..] == p[i..];
    } else {
      assert p[0..] == p;
    }
  }

  predicate IsDead(p: seq<Inst>)
    requires p != []
  {
    && !HasSideEffects(p[0]) && p[0].dst != NONE
    && (|p| > 1 ==> p[0].dst !in LiveAt(p[1..]))
  }

  /** What dead-code elimination leaves of p. */
  function Live(p: seq<Inst>): seq<Inst> {
    if p == [] then [] else (if IsDead(p) then [] else [p[0]]) + Live(p[1..])
  }

  lemma LiveSuffix(p: seq<Inst>, i: nat)
    requires i < |p|
    ensures LiveAt(p[i..]) == LiveIn(p[i + 1..]) + Uses(p[i])
    ensures LiveIn(p[i..]) == LiveAt(p[i..]) - (if Kills(p[i]) then {p[i].dst} else {})
    ensures LiveSets(p[i..]) == [LiveAt(p[i..])] + LiveSets(p[i + 1..])
    ensures Live(p[i..]) == (if IsDead(p[i..]) then [] else [p[i]]) + Live(p[i + 1..])
  {
    assert p[i..][1..] == p[i + 1..];
  }

  /** The pass changes the program exactly when it finds a dead instruction. */
  lemma {:induction false} LiveChanges(p: seq<Inst>)
    ensures |Live(p)| <= |p|
    ensures Live(p) != p <==> exists i | 0 <= i < |p| :: IsDead(p[i..])
    ensures Live(p) != p ==> |Live(p)| < |p|
  {
    if p != [] {
      LiveChanges(p[1..]);
      assert p[0..] == p;
      if i :| 0 <= i < |p[1..]| && IsDead(p[1..][i..]) {
        assert p[1..][i..] == p[i + 1..];
      }
      if i :| 0 < i < |p| && IsDead(p[i..]) {
        assert p[1..][i - 1..] == p[i..];
      }
    }
  }

  /**
   Erased are the computations whose result is not live, and with them every other instruction with such a
   destination that is not named as a side effect: an offer to a channel, a poll, or one the pass does not name.
   */
  lemma ErasedExactCondition(p: seq<Inst>)
    requires p != []
    ensures IsDead(p) <==>
              && (Computes(p[0].op) || p[0].op.ChannelOffer? || p[0].op.ChannelPoll? || p[0].op.Other?)
              && p[0].dst != NONE && (|p| > 1 ==> p[0].dst !in LiveAt(p[1..]))
  {
  }

  /** What counts as used are the operands, the arguments, and the destination of what reads it. */
  lemma UsesExactly(inst: Inst, r: U32)
    ensures r in Uses(inst) <==>
              && r != NONE
              && (r == inst.a || r == inst.b || r in inst.args
                  || (r == inst.dst && inst.op in {Return, Ret, JumpIf, JumpIfFalse}))
  {
  }

  /** What is defined as far as the analysis knows: any destination but that of a return or a jump. */
  lemma KillsExactly(inst: Inst)
    ensures Kills(inst) <==> inst.dst != NONE && inst.op !in {Return, Ret, Jump, JumpIf, JumpIfFalse}
  {
  }

  /** A use at k that no definition hides: none on the way there, and none by the instruction itself. */
  predicate SeesUse(p: seq<Inst>, k: nat, r: U32) {
    k < |p| && r in Uses(p[k]) && forall j | 1 <= j <= k :: !(Kills(p[j]) && p[j].dst == r)
  }

  /** A register is stored as live exactly where a later use, or one right here, is in sight. */
  lemma {:induction false} LiveExactly(p: seq<Inst>, r: U32)
    requires p != []
    ensures r in LiveAt(p) <==> exists k: nat :: SeesUse(p, k, r)
  {
    if |p| > 1 {
      var rest := p[1..];
      LiveExactly(rest, r);
      var hidden := Kills(rest[0]) && rest[0].dst == r;
      assert r in LiveIn(rest) <==> r in LiveAt(rest) && !hidden;
      if k: nat :| SeesUse(rest, k, r) && !hidden {
        assert forall j | 1 <= j <= k + 1 :: p[j] == rest[j - 1];
        assert SeesUse(p, k + 1, r);
      }
      if k: nat :| SeesUse(p, k, r) && k > 0 {
        assert forall j | 0 <= j < k :: rest[j] == p[j + 1];
        assert SeesUse(rest, k - 1, r) && !hidden;
      }
    }
    if r in Uses(p[0]) { assert SeesUse(p, 0, r); }
    if SeesUse(p, 0, r) { assert r in LiveAt(p); }
  }

  // ---------- Execution of straight-line code ----------

  predicate Computes(op: Op) {
    || op.Mov? || op.LoadConst? || op.Copy? || op.Neg? || IsBinary(op)
  }

  predicate IsBinary(op: Op) {
    || op.Add? || op.Sub? || op.Mul? || op.Div? || op.Mod? || op.And? || op.Or? || op.Xor?
    || op.CmpEQ? || op.CmpNEQ? || op.CmpLT? || op.CmpLE? || op.CmpGT? || op.CmpGE?
  }

  predicate IsPrint(op: Op) {
    op.PrintInt? || op.PrintUint? || op.PrintFloat? || op.PrintBool? || op.PrintString?
  }

  predicate IsCall(op: Op) {
    op.Call? || op.CallIndirect? || op.CallBuiltin? || op.CallVariadic?
  }

  /** What acts on memory, channels or tasks. */
  predicate IsAction(op: Op) {
    || op.Store? || op.ChannelSend? || op.ChannelRecv? || op.ChannelClose? || op.ChannelOffer? || op.ChannelPoll?
    || op.Await? || op.AsyncCall?
  }

  predicate StraightLine(p: seq<Inst>) {
    forall inst | inst in p ::
      || Computes(inst.op) || IsPrint(inst.op) || IsCall(inst.op) || inst.op.CallVoid? || IsAction(inst.op)
      || inst.op.Label? || inst.IsReturn()
  }

  /** The registers an instruction really reads. A return may hand back any of its three operands. */
  function Reads(inst: Inst): seq<U32> {
    if inst.op.Mov? || inst.op.Copy? || inst.op.Neg? || IsPrint(inst.op) then [inst.a]
    else if IsBinary(inst.op) then [inst.a, inst.b]
    else if IsAction(inst.op) then [inst.a, inst.b] + inst.args
    else if inst.op.CallIndirect? then [inst.a] + inst.args
    else if IsCall(inst.op) || inst.op.CallVoid? then inst.args
    else if inst.IsReturn() then [inst.dst, inst.a, inst.b]
    else []
  }

  predicate Writes(inst: Inst) {
    inst.dst != NONE && (Computes(inst.op) || IsCall(inst.op) || (IsAction(inst.op) && !inst.op.Store?))
  }

  /** Every operand an operation has is read, and by a return its destination too. */
  lemma ReadsExactly(inst: Inst)
    ensures inst.op in {Mov, Copy, Neg, PrintInt, PrintUint, PrintFloat, PrintBool, PrintString} ==> Reads(inst) == [inst.a]
    ensures IsBinary(inst.op) ==> Reads(inst) == [inst.a, inst.b]
    ensures inst.op in {Call, CallVoid, CallBuiltin, CallVariadic} ==> Reads(inst) == inst.args
    ensures inst.op == CallIndirect ==> Reads(inst) == [inst.a] + inst.args
    ensures IsAction(inst.op) ==> Reads(inst) == [inst.a, inst.b] + inst.args
    ensures inst.IsReturn() ==> Reads(inst) == [inst.dst, inst.a, inst.b]
  {
  }

  /** What computes, calls or acts leaves a result, except for a store and a call for nothing. */
  lemma WritesExactly(inst: Inst)
    ensures Writes(inst) <==>
              && inst.dst != NONE
              && (Computes(inst.op)
                  || inst.op in {Call, CallIndirect, CallBuiltin, CallVariadic,
                                 ChannelSend, ChannelRecv, ChannelClose, ChannelOffer, ChannelPoll, Await, AsyncCall})
  {
  }

  type Registers = map<U32, Value>

  /** Registers and whatever else there is: memory, output, the replies still to come. */
  datatype State<W> = State(regs: Registers, world: W)

  function Get(regs: Registers, r: U32): Value {
    if r != NONE && r in regs then regs[r] else Nil
  }

  function GetAll(regs: Registers, rs: seq<U32>): seq<Value> {
    seq(|rs|, i requires 0 <= i < |rs| => Get(regs, rs[i]))
  }

  datatype Event = Event(inst: Inst, values: seq<Value>)

  datatype Outcome = FellOff(trace: seq<Event>) | Returned(trace: seq<Event>, inst: Inst, values: seq<Value>)

  /** Arithmetic is left open, and a call may answer according to everything printed or called so far. */
  datatype Runtime = Runtime(compute: (Inst, seq<Value>) -> Value, reply: seq<Event> -> Value)

  function Exec(rt: Runtime, p: seq<Inst>, regs: Registers, trace: seq<Event>): Outcome {
    if p == [] then FellOff(trace) else
    var values := GetAll(regs, Reads(p[0]));
    if p[0].IsReturn() then Returned(trace, p[0], values) else
    var trace' := Emit(p[0], values, trace);
    Exec(rt, p[1..], Assign(p[0], regs, Result(rt, p[0], values, trace')), trace')
  }

  function Emit(inst: Inst, values: seq<Value>, trace: seq<Event>): seq<Event> {
    if Computes(inst.op) || inst.op.Label? then trace else trace + [Event(inst, values)]
  }

  function Result(rt: Runtime, inst: Inst, values: seq<Value>, trace: seq<Event>): Value {
    if Computes(inst.op) then rt.compute(inst, values) else rt.reply(trace)
  }

  function Assign(inst: Inst, regs: Registers, v: Value): Registers {
    if Writes(inst) then regs[inst.dst := v] else regs
  }

  // ---------- When the analysis is right ----------

  /** The registers whose values can still matter when p starts. */
  function Needed(p: seq<Inst>): set<U32> {
    if p == [] then {}
    else if p[0].IsReturn() then ReadSet(p[0])
    else ReadSet(p[0]) + (Needed(p[1..]) - (if Writes(p[0]) then {p[0].dst} else {}))
  }

  function ReadSet(inst: Inst): set<U32> {
    set r | r in Reads(inst) && r != NONE
  }

  /** At every point the live set covers the registers that still matter. */
  ghost predicate LivenessCovers(p: seq<Inst>) {
    Needed(p) <= LiveIn(p) && (p != [] ==> LivenessCovers(p[1..]))
  }

  /**
   Whatever the analysis takes for a definition is one: no instruction reads its own
   destination, and one that only carries a destination it does not write, such as a
   print, names a register nobody needs afterwards.
   */
  predicate KillsAreDefinitions(p: seq<Inst>) {
    p == [] ||
    (&& (Kills(p[0]) ==> p[0].dst !in Reads(p[0]) && (Writes(p[0]) || p[0].dst !in Needed(p[1..])))
     && KillsAreDefinitions(p[1..]))
  }

  /** Exactly when the computed liveness is right. */
  lemma {:induction false} LivenessExactCondition(p: seq<Inst>)
    requires StraightLine(p)
    ensures LivenessCovers(p) <==> KillsAreDefinitions(p)
  {
    if p != [] {
      LivenessExactCondition(p[1..]);
      assert p[0] in p;
      assert ReadSet(p[0]) <= Uses(p[0]);
      if Kills(p[0]) {
        var d := p[0].dst;
        assert d in Needed(p) <==> d in Reads(p[0]) || (!Writes(p[0]) && d in Needed(p[1..]));
        assert LiveIn(p) == LiveIn(p[1..]) + Uses(p[0]) - {d};
      } else {
        assert LiveIn(p) == LiveIn(p[1..]) + Uses(p[0]);
      }
    }
  }

  ghost predicate Agree(regs: Registers, regs': Registers, rs: set<U32>) {
    forall r | r in rs :: Get(regs, r) == Get(regs', r)
  }

  lemma AgreeReads(regs: Registers, regs': Registers, inst: Inst)
    requires Agree(regs, regs', ReadSet(inst))
    ensures GetAll(regs, Reads(inst)) == GetAll(regs', Reads(inst))
  {
    forall i | 0 <= i < |Reads(inst)| ensures Get(regs, Reads(inst)[i]) == Get(regs', Reads(inst)[i]) {
      assert Reads(inst)[i] != NONE ==> Reads(inst)[i] in ReadSet(inst);
    }
  }

  lemma AgreeAfter(p: seq<Inst>, regs: Registers, regs': Registers, v: Value)
    requires p != [] && !p[0].IsReturn() && Agree(regs, regs', Needed(p))
    ensures Agree(Assign(p[0], regs, v), Assign(p[0], regs', v), Needed(p[1..]))
    ensures p[0].dst !in Needed(p[1..]) ==> Agree(Assign(p[0], regs, v), regs', Needed(p[1..]))
  {
    forall r | r in Needed(p[1..]) && !(Writes(p[0]) && r == p[0].dst)
      ensures Get(regs, r) == Get(regs', r)
    {
      assert r in Needed(p);
    }
  }

  /** Before the first return, only computations are erased, and only of what the code that follows does not need. */
  predicate ErasesUnneeded(p: seq<Inst>) {
    p == [] || p[0].IsReturn() ||
    ((IsDead(p) ==> Computes(p[0].op) && p[0].dst !in Needed(p[1..])) && ErasesUnneeded(p[1..]))
  }

  /** Then removing dead code changes neither the trace nor the returned values, for every runtime and every start. */
  lemma {:induction false} EliminationPreserves(rt: Runtime, p: seq<Inst>, regs: Registers, regs': Registers, trace: seq<Event>)
    requires StraightLine(p) && ErasesUnneeded(p) && Agree(regs, regs', Needed(p))
    ensures Exec(rt, p, regs, trace) == Exec(rt, Live(p), regs', trace)
  {
    if p == [] { return; }
    var inst, rest := p[0], p[1..];
    assert inst in p;
    AgreeReads(regs, regs', inst);
    if inst.IsReturn() {
      assert Live(p)[0] == inst;
      return;
    }
    var values := GetAll(regs, Reads(inst));
    var trace' := Emit(inst, values, trace);
    var v := Result(rt, inst, values, trace');
    AgreeAfter(p, regs, regs', v);
    if IsDead(p) {
      assert trace' == trace && Live(p) == Live(rest);
      EliminationPreserves(rt, rest, Assign(inst, regs, v), regs', trace');
    } else {
      assert Live(p)[0] == inst && Live(p)[1..] == Live(rest);
      EliminationPreserves(rt, rest, Assign(inst, regs, v), Assign(inst, regs', v), trace');
    }
  }

  /** No action that the pass does not know to have a side effect. */
  predicate ActionsAreNamed(p: seq<Inst>) {
    forall inst | inst in p :: IsAction(inst.op) ==> HasSideEffects(inst)
  }

  /** Trustworthy live sets never let a needed definition be erased. */
  lemma {:induction false} DefinitionsAreKept(p: seq<Inst>)
    requires StraightLine(p) && KillsAreDefinitions(p) && ActionsAreNamed(p)
    ensures ErasesUnneeded(p)
  {
    if p != [] && !p[0].IsReturn() {
      assert StraightLine(p[1..]) && p[0] in p;
      LivenessExactCondition(p[1..]);
      DefinitionsAreKept(p[1..]);
    }
  }

  /** So the trace and the returned values stay wherever the live sets can be trusted. */
  lemma TrustedLivenessPreserves(rt: Runtime, p: seq<Inst>, regs: Registers)
    requires StraightLine(p) && KillsAreDefinitions(p) && ActionsAreNamed(p)
    ensures Exec(rt, p, regs, []) == Exec(rt, Live(p), regs, [])
  {
    DefinitionsAreKept(p);
    EliminationPreserves(rt, p, regs, regs, []);
  }

  // ---------- What goes wrong otherwise ----------

  /** Constants load, everything else copies its first operand. */
  const ECHO := Runtime((inst: Inst, values: seq<Value>) =>
                          if inst.op.LoadConst? then inst.constVal else if values == [] then Nil else values[0],
                        (trace: seq<Event>) => Nil)

  function Op2(op: Op, dst: U32, a: U32, b: U32): Inst {
    Inst(op, dst, a, b, 0, Nil, "", [])
  }

  function LoadSeven(dst: U32): Inst {
    Inst(LoadConst, dst, NONE, NONE, 0, Int(7), "", [])
  }

  lemma Unfold(inst: Inst, rest: seq<Inst>)
    ensures LiveIn([inst] + rest) == LiveIn(rest) + Uses(inst) - (if Kills(inst) then {inst.dst} else {})
    ensures Live([inst] + rest) == (if IsDead([inst] + rest) then [] else [inst]) + Live(rest)
    ensures !inst.IsReturn() ==>
              Needed([inst] + rest) == ReadSet(inst) + (Needed(rest) - (if Writes(inst) then {inst.dst} else {}))
    ensures rest != [] ==>
              (IsDead([inst] + rest) <==>
                !HasSideEffects(inst) && inst.dst != NONE && inst.dst !in LiveIn(rest[1..]) + Uses(rest[0]))
    ensures KillsAreDefinitions([inst] + rest) ==> KillsAreDefinitions(rest)
  {
    assert ([inst] + rest)[1..] == rest;
  }

  lemma UnfoldExec(inst: Inst, rest: seq<Inst>, regs: Registers)
    requires Computes(inst.op)
    ensures Exec(ECHO, [inst] + rest, regs, []) ==
            Exec(ECHO, rest, Assign(inst, regs, ECHO.compute(inst, GetAll(regs, Reads(inst)))), [])
  {
    assert ([inst] + rest)[1..] == rest;
  }

  const PRINT_R1: seq<Inst> := [Op2(PrintInt, NONE, 1, NONE)]
  const ADD_PRINT: seq<Inst> := [Op2(Add, 1, 1, 2)] + PRINT_R1
  const MOV_ADD_PRINT: seq<Inst> := [Op2(Mov, 2, 3, NONE)] + ADD_PRINT

  /** r1 := 7; r2 := r3; r1 := r1 + r2; print r1 */
  const SELF_READ: seq<Inst> := [LoadSeven(1)] + MOV_ADD_PRINT

  lemma SelfReadSuffix()
    ensures LiveIn(PRINT_R1) == {1} && LiveIn(ADD_PRINT) == {2}
    ensures Live(ADD_PRINT) == ADD_PRINT && !KillsAreDefinitions(ADD_PRINT)
  {
    assert [Op2(PrintInt, NONE, 1, NONE)] + [] == PRINT_R1;
    Unfold(Op2(PrintInt, NONE, 1, NONE), []);
    Unfold(Op2(Add, 1, 1, 2), PRINT_R1);
  }

  /** r1 := r1 + r2; print r1 reads its own destination, and the pass leaves it as it is. */
  lemma SelfReadNeedNotBeCut()
    ensures !KillsAreDefinitions(ADD_PRINT) && ErasesUnneeded(ADD_PRINT) && Live(ADD_PRINT) == ADD_PRINT
  {
    SelfReadSuffix();
    assert ADD_PRINT[1..] == PRINT_R1 && PRINT_R1[1..] == [];
    assert !IsDead(ADD_PRINT) && !IsDead(PRINT_R1);
  }

  lemma SelfReadIsCut()
    ensures !KillsAreDefinitions(SELF_READ) && Live(SELF_READ) == MOV_ADD_PRINT
  {
    SelfReadSuffix();
    Unfold(Op2(Mov, 2, 3, NONE), ADD_PRINT);
    Unfold(LoadSeven(1), MOV_ADD_PRINT);
  }

  lemma PrintRuns(regs: Registers)
    ensures Exec(ECHO, PRINT_R1, regs, []) == FellOff([Event(PRINT_R1[0], [Get(regs, 1)])])
  {
    assert GetAll(regs, [1]) == [Get(regs, 1)];
  }

  lemma SelfReadRuns(regs: Registers)
    ensures Exec(ECHO, MOV_ADD_PRINT, regs, []) == FellOff([Event(PRINT_R1[0], [Get(regs, 1)])])
  {
    UnfoldExec(Op2(Mov, 2, 3, NONE), ADD_PRINT, regs);
    var regs' := regs[2 := Get(regs, 3)];
    assert GetAll(regs, [3])[0] == Get(regs, 3);
    UnfoldExec(Op2(Add, 1, 1, 2), PRINT_R1, regs');
    assert GetAll(regs', [1, 2])[0] == Get(regs, 1);
    PrintRuns(regs'[1 := Get(regs, 1)]);
  }

  /** An instruction that reads its own destination makes the pass drop the value it reads. */
  lemma SelfReadBreaksElimination()
    ensures !KillsAreDefinitions(SELF_READ)
    ensures Exec(ECHO, SELF_READ, map[], []) == FellOff([Event(PRINT_R1[0], [Int(7)])])
    ensures Exec(ECHO, Live(SELF_READ), map[], []) == FellOff([Event(PRINT_R1[0], [Nil])])
  {
    SelfReadIsCut();
    UnfoldExec(LoadSeven(1), MOV_ADD_PRINT, map[]);
    SelfReadRuns(map[]);
    SelfReadRuns(map[1 := Int(7)]);
  }

  /** r1 := offer r2, r3; return */
  const OFFER: seq<Inst> := [Inst(ChannelOffer, 1, 2, 3, 0, Nil, "", []), Inst(Ret, NONE, NONE, NONE, 0, Nil, "", [])]

  /** An offer whose answer nobody reads is erased, so the value is never offered. */
  lemma UnusedOfferIsErased(rt: Runtime, regs: Registers)
    ensures Live(OFFER) == [OFFER[1]]
    ensures Exec(rt, OFFER, regs, []).trace == [Event(OFFER[0], [Get(regs, 2), Get(regs, 3)])]
    ensures Exec(rt, Live(OFFER), regs, []).trace == []
  {
    assert OFFER[1..] == [OFFER[1]] && [OFFER[1]][1..] == [];
    assert LiveAt(OFFER[1..]) == {} && IsDead(OFFER);
    assert !IsDead([OFFER[1]]);
    assert Live([OFFER[1]]) == [OFFER[1]];
    assert GetAll(regs, [2, 3] + []) == [Get(regs, 2), Get(regs, 3)];
  }
}
