/**
 Constant folding on code with jumps. The pass still goes through the array once, from front to back; it
 is right where the facts it uses come along every edge that leads there.
 */
module FoldingWithJumps {
  import opened Lir
  import opened ControlFlow
  import opened ConstantFolding
  import DeadCode

  type Registers = DeadCode.Registers
  type State<W> = DeadCode.State<W>

  // ---------- The facts of the linear pass ----------

  /** What the pass records before instruction i. */
  function FactsAt(p: seq<Inst>, i: nat): Facts
    requires i <= |p|
  {
    if i == 0 then map[] else NextFacts(p[i - 1], FactsAt(p, i - 1))
  }

  lemma {:induction false} FoldedAt(p: seq<Inst>, i: nat, n: nat)
    requires i <= n < |p|
    ensures |FoldFrom(p[i..], FactsAt(p, i))| == |p| - i
    ensures FoldFrom(p[i..], FactsAt(p, i))[n - i] == Rewritten(p[n], FactsAt(p, n))
    decreases |p| - i
  {
    assert p[i..][0] == p[i] && p[i..][1..] == p[i + 1..];
    assert FactsAt(p, i + 1) == NextFacts(p[i], FactsAt(p, i));
    if i < n {
      FoldedAt(p, i + 1, n);
    } else {
      FoldedLength(p[i + 1..], FactsAt(p, i + 1));
    }
  }

  lemma {:induction false} FoldedLength(p: seq<Inst>, facts: Facts)
    ensures |FoldFrom(p, facts)| == |p|
  {
    if p != [] { FoldedLength(p[1..], NextFacts(p[0], facts)); }
  }

  // ---------- Execution ----------

  datatype Reply<W> = Replied(written: Written, world: W) | Failed

  /** Arithmetic beyond small integers, every other instruction and the tests of jumps are left open. */
  datatype Runtime<!W> = Runtime(arith: (Op, Value, Value) -> Value, other: (Inst, State<W>) -> Reply<W>,
                                 test: (Inst, State<W>) -> bool)

  function Result(arith: (Op, Value, Value) -> Value, op: Op, x: Value, y: Value): Value
    requires IsFolded(op)
  {
    Compute(Arithmetic(arith, (inst: Inst, regs: Registers) => Nothing), op, x, y)
  }

  function Perform<W>(rt: Runtime<W>, inst: Inst, s: State<W>): Step<State<W>> {
    var regs := s.regs;
    if inst.op.LoadConst? then Next(s.(regs := regs[inst.dst := inst.constVal]))
    else if inst.op.Mov? then Next(s.(regs := regs[inst.dst := DeadCode.Get(regs, inst.a)]))
    else if IsFolded(inst.op) then
      Next(s.(regs := regs[inst.dst := Result(rt.arith, inst.op, DeadCode.Get(regs, inst.a), DeadCode.Get(regs, inst.b))]))
    else
      match rt.other(inst, s)
      case Failed => Trap
      case Replied(Nothing, w) => Next(s.(world := w))
      case Replied(Wrote(v), w) => Next(DeadCode.State(if inst.dst == NONE then regs else regs[inst.dst := v], w))
  }

  function MachineOf<W>(rt: Runtime<W>): Machine<State<W>> {
    Machine((inst: Inst, s: State<W>) => Perform(rt, inst, s), rt.test)
  }

  // ---------- Trusted facts ----------

  /** The facts about the trusted registers. */
  function Known(facts: Facts, trusted: set<U32>): Facts {
    map r | r in trusted && r in facts && r != NONE :: facts[r]
  }

  /** What is known after one instruction from what is known before it, with exact products. */
  function KnownAfter(inst: Inst, known: Facts): Facts {
    if inst.dst == NONE || inst.IsJump() || inst.IsReturn() then known
    else if inst.op.LoadConst? then known[inst.dst := inst.constVal]
    else if inst.op.Mov? && inst.a in known then known[inst.dst := known[inst.a]]
    else if Foldable(inst, known) then known[inst.dst := Int(Exact(inst.op, known[inst.a].n, known[inst.b].n))]
    else known - {inst.dst}
  }

  /** What is trusted at j is known after i, and the pass records the same value at j. */
  predicate Carries(p: seq<Inst>, t: seq<set<U32>>, i: nat, j: nat)
    requires |t| == |p| && i < |p| && j < |p|
  {
    var known := KnownAfter(p[i], Known(FactsAt(p, i), t[i]));
    forall r | r in t[j] :: r in known && r in FactsAt(p, j) && known[r] == FactsAt(p, j)[r]
  }

  /** What is folded is folded from trusted facts, to a result that fits 64 bits. */
  predicate FoldsTrusted(p: seq<Inst>, t: seq<set<U32>>, i: nat)
    requires |t| == |p| && i < |p|
  {
    var inst, facts := p[i], FactsAt(p, i);
    Foldable(inst, facts) ==>
      && inst.a in t[i] && inst.b in t[i] && inst.a != NONE && inst.b != NONE
      && (inst.op.Mul? ==> FitsInt64(facts[inst.a].n * facts[inst.b].n))
  }

  /** t says for each instruction which recorded facts hold there along every edge; none do at the entry. */
  ghost predicate Trusted(p: seq<Inst>, t: seq<set<U32>>) {
    && |t| == |p| && (p != [] ==> t[0] == {})
    && (forall i, j: nat | 0 <= i < |p| && Reachable(p, i) && Edge(p, i, j) :: Carries(p, t, i, j))
    && (forall i | 0 <= i < |p| && Reachable(p, i) :: FoldsTrusted(p, t, i))
  }

  lemma KnownAfterHolds<W>(rt: Runtime<W>, inst: Inst, known: Facts, s: State<W>)
    requires NONE !in known && Holds(known, s.regs) && !inst.IsJump() && !inst.IsReturn()
    ensures NONE !in KnownAfter(inst, known)
    ensures var step := Perform(rt, inst, s);
            step.Next? ==> Holds(KnownAfter(inst, known), step.data.regs)
  {
  }

  /** Folding a trusted instruction changes nothing it does. */
  lemma FoldedPerforms<W>(rt: Runtime<W>, p: seq<Inst>, t: seq<set<U32>>, i: nat, s: State<W>)
    requires |t| == |p| && i < |p| && FoldsTrusted(p, t, i) && Holds(Known(FactsAt(p, i), t[i]), s.regs)
    requires Foldable(p[i], FactsAt(p, i))
    ensures Perform(rt, Rewritten(p[i], FactsAt(p, i)), s) == Perform(rt, p[i], s)
  {
    var inst, facts := p[i], FactsAt(p, i);
    var known := Known(facts, t[i]);
    assert known[inst.a] == facts[inst.a] && known[inst.b] == facts[inst.b];
    FoldedIsExact(inst, facts);
  }

  /** The run is at a reachable instruction and the facts trusted there hold. */
  ghost predicate Knows<W>(p: seq<Inst>, t: seq<set<U32>>, c: Config<State<W>>)
    requires |t| == |p|
  {
    c.Running? && c.pc < |p| ==> Reachable(p, c.pc) && Holds(Known(FactsAt(p, c.pc), t[c.pc]), c.data.regs)
  }

  lemma CarriedHolds(p: seq<Inst>, t: seq<set<U32>>, i: nat, j: nat, regs: Registers)
    requires |t| == |p| && i < |p| && j < |p| && Carries(p, t, i, j)
    requires Holds(KnownAfter(p[i], Known(FactsAt(p, i), t[i])), regs)
    ensures Holds(Known(FactsAt(p, j), t[j]), regs)
  {
  }

  lemma SameStep<W>(rt: Runtime<W>, p: seq<Inst>, t: seq<set<U32>>, c: Config<State<W>>)
    requires Trusted(p, t) && Knows(p, t, c)
    ensures StepOnce(MachineOf(rt), FoldFrom(p, map[]), c) == StepOnce(MachineOf(rt), p, c)
  {
    FoldedLength(p, map[]);
    if c.Running? && c.pc < |p| {
      var i := c.pc;
      assert p[0..] == p;
      FoldedAt(p, 0, i);
      assert FoldsTrusted(p, t, i);
      if Foldable(p[i], FactsAt(p, i)) { FoldedPerforms(rt, p, t, i, c.data); }
    }
  }

  lemma StepKnows<W>(rt: Runtime<W>, p: seq<Inst>, t: seq<set<U32>>, c: Config<State<W>>)
    requires Trusted(p, t) && Knows(p, t, c)
    ensures Knows(p, t, StepOnce(MachineOf(rt), p, c))
  {
    var next := StepOnce(MachineOf(rt), p, c);
    if c.Running? && c.pc < |p| && next.Running? && next.pc < |p| {
      assert Edge(p, c.pc, next.pc);
      EdgeReachable(p, c.pc, next.pc);
      var known := Known(FactsAt(p, c.pc), t[c.pc]);
      if !p[c.pc].IsJump() { KnownAfterHolds(rt, p[c.pc], known, c.data); }
      assert Holds(KnownAfter(p[c.pc], known), next.data.regs);
      CarriedHolds(p, t, c.pc, next.pc, next.data.regs);
    }
  }

  /**
   If the folded instructions use trusted facts only, the folded program is at every step where the program
   is, with the same registers and the same world, for every runtime, every test and every start.
   */
  lemma {:induction false} TrustedFoldingPreserves<W>(rt: Runtime<W>, p: seq<Inst>, t: seq<set<U32>>, s: State<W>, k: nat)
    requires Trusted(p, t)
    ensures Run(MachineOf(rt), FoldFrom(p, map[]), Running(0, s), k) == Run(MachineOf(rt), p, Running(0, s), k)
    ensures Knows(p, t, Run(MachineOf(rt), p, Running(0, s), k))
  {
    if k > 0 {
      TrustedFoldingPreserves(rt, p, t, s, k - 1);
      var c := Run(MachineOf(rt), p, Running(0, s), k - 1);
      SameStep(rt, p, t, c);
      StepKnows(rt, p, t, c);
    } else if p != [] {
      EntryReachable(p);
    }
  }

  // ---------- Straight-line code ----------

  /** The stale facts before instruction i. */
  function StaleAt(p: seq<Inst>, i: nat): set<U32>
    requires i <= |p|
  {
    if i == 0 then {} else NextStale(p[i - 1], FactsAt(p, i - 1), StaleAt(p, i - 1))
  }

  function Fresh(p: seq<Inst>, i: nat): set<U32>
    requires i <= |p|
  {
    FactsAt(p, i).Keys - StaleAt(p, i)
  }

  lemma {:induction false} NoFactAboutNone(p: seq<Inst>, i: nat)
    requires WellFormed(p) && i <= |p|
    ensures NONE !in FactsAt(p, i)
  {
    if i > 0 {
      assert p[i - 1] in p;
      NoFactAboutNone(p, i - 1);
    }
  }

  /** A reachable instruction of code without jumps is reached from the front, without a return before it. */
  lemma {:induction false} ReachedFromFront(p: seq<Inst>, w: seq<nat>, i: nat)
    requires WellFormed(p) && WalkTo(p, w, i)
    ensures i < |p| && forall k | 0 <= k < i :: !p[k].IsReturn()
  {
    if |w| > 1 {
      var v := w[..|w| - 1];
      assert Edge(p, w[|w| - 2], i) && p[w[|w| - 2]] in p;
      ReachedFromFront(p, v, w[|w| - 2]);
    }
  }

  lemma {:induction false} TrueFactsAt(p: seq<Inst>, i: nat, n: nat)
    requires i <= n < |p| && (forall k | 0 <= k <= n :: k < n ==> !p[k].IsReturn())
    requires FoldsTrueFacts(p[i..], FactsAt(p, i), StaleAt(p, i))
    ensures FoldsTrueFacts(p[n..], FactsAt(p, n), StaleAt(p, n))
    decreases n - i
  {
    if i < n {
      assert p[i..][0] == p[i] && p[i..][1..] == p[i + 1..];
      TrueFactsAt(p, i + 1, n);
    }
  }

  /** The condition for straight-line code is a special case: there the facts that are not stale can be trusted. */
  lemma FreshIsTrusted(p: seq<Inst>)
    requires WellFormed(p) && FoldsTrueFacts(p, map[], {})
    ensures Trusted(p, seq(|p|, i requires 0 <= i < |p| => Fresh(p, i)))
  {
    var t := seq(|p|, i requires 0 <= i < |p| => Fresh(p, i));
    forall i | 0 <= i < |p| && Reachable(p, i) ensures FoldsTrusted(p, t, i) {
      FreshFolds(p, t, i);
    }
    forall i, j: nat | 0 <= i < |p| && Reachable(p, i) && Edge(p, i, j) ensures Carries(p, t, i, j) {
      FreshFolds(p, t, i);
      FreshCarries(p, t, i, j);
    }
  }

  lemma FreshFolds(p: seq<Inst>, t: seq<set<U32>>, i: nat)
    requires WellFormed(p) && FoldsTrueFacts(p, map[], {}) && i < |p| && Reachable(p, i)
    requires |t| == |p| && t[i] == Fresh(p, i)
    ensures FoldsTrusted(p, t, i) && !(exists k | 0 <= k < i :: p[k].IsReturn())
  {
    var w :| WalkTo(p, w, i);
    ReachedFromFront(p, w, i);
    assert p[0..] == p;
    TrueFactsAt(p, 0, i);
    NoFactAboutNone(p, i);
    assert p[i..][0] == p[i];
  }

  lemma FreshCarries(p: seq<Inst>, t: seq<set<U32>>, i: nat, j: nat)
    requires WellFormed(p) && |t| == |p| && i < |p| && Edge(p, i, j)
    requires t[i] == Fresh(p, i) && t[j] == Fresh(p, j) && FoldsTrusted(p, t, i)
    ensures Carries(p, t, i, j)
  {
    assert p[i] in p;
    NoFactAboutNone(p, i);
    var facts, known := FactsAt(p, i), Known(FactsAt(p, i), t[i]);
    if Foldable(p[i], facts) { FoldedIsExact(p[i], facts); }
  }
}
