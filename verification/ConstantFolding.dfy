/**
 Constant folding over straight-line code: the facts the pass collects, the code it
 leaves, and the exact condition under which every fact is the register's real value.
 */
module ConstantFolding {
  import opened Lir
  import opened DeadCode

  // ---------- Integer arithmetic ----------

  function Abs(a: int): nat { if a < 0 then -a else a }

  /** Division that rounds toward zero, as in C++. */
  function TruncDiv(a: int, b: int): int
    requires b != 0
  {
    if (a < 0) == (b < 0) then Abs(a) / Abs(b) else -(Abs(a) / Abs(b))
  }

  function Exact(op: Op, a: int, b: int): int
    requires IsFolded(op) && (op.Div? ==> b != 0)
  {
    match op
    case Add => a + b
    case Sub => a - b
    case Mul => a * b
    case Div => TruncDiv(a, b)
  }

  /** Two's-complement wrap to int64_t, in which the pass computes. */
  function Wrap64(n: int): int {
    (n + 0x8000_0000_0000_0000) % 0x1_0000_0000_0000_0000 - 0x8000_0000_0000_0000
  }

  predicate FitsInt64(n: int) {
    -0x8000_0000_0000_0000 <= n < 0x8000_0000_0000_0000
  }

  // ---------- What the arithmetic means ----------

  lemma SumDifferenceProduct(a: int, b: int)
    ensures Exact(Add, a, b) == a + b && Exact(Sub, a, b) + b == a && Exact(Mul, a, b) == a * b
  {
  }

  /** Division leaves a remainder smaller than the divisor, with the sign of the dividend. */
  lemma QuotientTruncates(a: int, b: int)
    requires b != 0
    ensures var r := a - b * Exact(Div, a, b);
            && (if b > 0 then -b < r < b else b < r < -b)
            && (a >= 0 ==> r >= 0) && (a <= 0 ==> r <= 0)
  {
    var n: int, d: int := Abs(a), Abs(b);
    var q := n / d;
    SignsOfProduct(d, q);
    assert n == d * q + n % d;
  }

  lemma SignsOfProduct(d: int, q: int)
    ensures d * -q == -(d * q) && -d * q == -(d * q) && -d * -q == d * q
  {
  }

  /** Wrapping stays in 64 bits and changes a number by a multiple of 2^64, so not at all if it fits. */
  lemma WrapIsCongruent(n: int)
    ensures FitsInt64(Wrap64(n)) && (n - Wrap64(n)) % 0x1_0000_0000_0000_0000 == 0
    ensures FitsInt64(n) ==> Wrap64(n) == n
  {
  }

  /** A small integer is one that leaves room for three tag bits in 64. */
  lemma SmallIntsLeaveTagBits(v: Value)
    ensures IsSmallInt(v) <==> v.Int? && FitsInt64(8 * v.n)
  {
  }

  // ---------- The pass ----------

  predicate IsFolded(op: Op) {
    op.Add? || op.Sub? || op.Mul? || op.Div?
  }

  type Facts = map<U32, Value>

  predicate BothKnown(inst: Inst, facts: Facts) {
    IsFolded(inst.op) && inst.a in facts && inst.b in facts
  }

  /** Both operands are tagged small integers and the operation is defined on them. */
  predicate Foldable(inst: Inst, facts: Facts) {
    && BothKnown(inst, facts)
    && IsSmallInt(facts[inst.a]) && IsSmallInt(facts[inst.b])
    && (inst.op.Div? ==> facts[inst.b].n != 0)
  }

  function Folded(inst: Inst, facts: Facts): Value
    requires Foldable(inst, facts)
  {
    Int(Wrap64(Exact(inst.op, facts[inst.a].n, facts[inst.b].n)))
  }

  /** The facts after one instruction. When both operands are known but cannot be folded, nothing is erased. */
  function NextFacts(inst: Inst, facts: Facts): Facts {
    if inst.op.LoadConst? then facts[inst.dst := inst.constVal]
    else if inst.op.Mov? then
      if inst.a in facts then facts[inst.dst := facts[inst.a]] else facts - {inst.dst}
    else if Foldable(inst, facts) then facts[inst.dst := Folded(inst, facts)]
    else if BothKnown(inst, facts) || inst.dst == NONE then facts
    else facts - {inst.dst}
  }

  function Rewritten(inst: Inst, facts: Facts): Inst {
    if Foldable(inst, facts) then inst.(op := LoadConst, constVal := Folded(inst, facts)) else inst
  }

  function FoldFrom(p: seq<Inst>, facts: Facts): seq<Inst> {
    if p == [] then [] else [Rewritten(p[0], facts)] + FoldFrom(p[1..], NextFacts(p[0], facts))
  }

  /** Two small constants and an operation defined on them: the result is folded in 64 bits. */
  lemma KnownOperandsAreFolded(op: Op, x: int, y: int, d: U32, a: U32, b: U32)
    requires IsFolded(op) && IsSmallInt(Int(x)) && IsSmallInt(Int(y)) && (op.Div? ==> y != 0) && a != b
    ensures var inst := Inst(op, d, a, b, 0, Nil, "", []);
            var p := [Inst(LoadConst, a, NONE, NONE, 0, Int(x), "", []), Inst(LoadConst, b, NONE, NONE, 0, Int(y), "", []), inst];
            FoldFrom(p, map[]) == p[2 := inst.(op := LoadConst, constVal := Int(Wrap64(Exact(op, x, y))))]
  {
    var inst := Inst(op, d, a, b, 0, Nil, "", []);
    var load, load' := Inst(LoadConst, a, NONE, NONE, 0, Int(x), "", []), Inst(LoadConst, b, NONE, NONE, 0, Int(y), "", []);
    var facts: Facts := map[a := Int(x)];
    var facts' := facts[b := Int(y)];
    assert [load, load', inst][1..] == [load', inst] && [load', inst][1..] == [inst] && [inst][1..] == [];
    assert FoldFrom([inst], facts') == [Rewritten(inst, facts')] + FoldFrom([], NextFacts(inst, facts'));
    assert FoldFrom([load', inst], facts) == [load'] + FoldFrom([inst], facts');
  }

  /** Nothing but sums, differences, products and quotients of known small integers is rewritten, and only to a constant. */
  lemma OnlyArithmeticIsRewritten(inst: Inst, facts: Facts)
    ensures Rewritten(inst, facts) != inst <==>
              && inst.op in {Add, Sub, Mul, Div} && inst.a in facts && inst.b in facts
              && IsSmallInt(facts[inst.a]) && IsSmallInt(facts[inst.b]) && (inst.op.Div? ==> facts[inst.b] != Int(0))
    ensures Rewritten(inst, facts) != inst ==>
              Rewritten(inst, facts).op.LoadConst? && Rewritten(inst, facts).dst == inst.dst
  {
  }

  /** An instruction changes the fact about its destination only: a constant or a copy is known, other results are not. */
  lemma OneFactChanges(inst: Inst, facts: Facts, r: U32)
    ensures var next := NextFacts(inst, facts);
            && (r != inst.dst ==> (r in next <==> r in facts) && (r in facts ==> next[r] == facts[r]))
            && (inst.op.LoadConst? ==> inst.dst in next && next[inst.dst] == inst.constVal)
            && (inst.op.Mov? ==> (inst.dst in next <==> inst.a in facts) && (inst.a in facts ==> next[inst.dst] == facts[inst.a]))
            && (Rewritten(inst, facts) != inst ==> inst.dst in next && next[inst.dst] == Rewritten(inst, facts).constVal)
            && (inst.op !in {LoadConst, Mov, Add, Sub, Mul, Div} && inst.dst != NONE ==> inst.dst !in next)
            && (inst.op in {Add, Sub, Mul, Div} && (inst.a !in facts || inst.b !in facts) && inst.dst != NONE ==> inst.dst !in next)
  {
  }

  // ---------- Execution ----------

  /**
   Exact results on small integers; every other arithmetic result, such as a quotient by zero,
   and every other instruction are left to the runtime. `other` answers None when nothing is written.
   */
  datatype Arithmetic = Arithmetic(arith: (Op, Value, Value) -> Value, other: (Inst, Registers) -> Written)

  datatype Written = Nothing | Wrote(value: Value)

  function Compute(rt: Arithmetic, op: Op, x: Value, y: Value): Value
    requires IsFolded(op)
  {
    if IsSmallInt(x) && IsSmallInt(y) && (op.Div? ==> y.n != 0) then Int(Exact(op, x.n, y.n)) else rt.arith(op, x, y)
  }

  function Effect(rt: Arithmetic, inst: Inst, regs: Registers): Registers {
    if inst.op.LoadConst? then regs[inst.dst := inst.constVal]
    else if inst.op.Mov? then regs[inst.dst := Get(regs, inst.a)]
    else if IsFolded(inst.op) then regs[inst.dst := Compute(rt, inst.op, Get(regs, inst.a), Get(regs, inst.b))]
    else if inst.dst == NONE then regs
    else match rt.other(inst, regs)
         case Nothing => regs
         case Wrote(v) => regs[inst.dst := v]
  }

  /** The register file after each instruction up to the first return. */
  function States(rt: Arithmetic, p: seq<Inst>, regs: Registers): seq<Registers> {
    if p == [] || p[0].IsReturn() then []
    else [Effect(rt, p[0], regs)] + States(rt, p[1..], Effect(rt, p[0], regs))
  }

  /** No jumps, and whatever computes names the register it computes into. */
  predicate WellFormed(p: seq<Inst>) {
    forall inst | inst in p ::
      !inst.IsJump() && (inst.op.LoadConst? || inst.op.Mov? || IsFolded(inst.op) ==> inst.dst != NONE)
  }

  // ---------- When folding is right ----------

  /** NONE is no register, so a fact about it means nothing. */
  ghost predicate Holds(facts: Facts, regs: Registers) {
    forall r | r in facts :: facts[r] == Get(regs, r)
  }

  /** The facts are the registers' real values before every instruction and at the end. */
  ghost predicate FactsTrue(rt: Arithmetic, p: seq<Inst>, facts: Facts, regs: Registers) {
    && Holds(facts, regs)
    && (p == [] || p[0].IsReturn() || FactsTrue(rt, p[1..], NextFacts(p[0], facts), Effect(rt, p[0], regs)))
  }

  /**
   Products of known operands fit 64 bits, and an operation on known operands that cannot be
   folded writes a register without a recorded fact.
   */
  predicate Clean(p: seq<Inst>, facts: Facts) {
    p == [] || p[0].IsReturn() ||
    (&& (Foldable(p[0], facts) && p[0].op.Mul? ==> FitsInt64(facts[p[0].a].n * facts[p[0].b].n))
     && (BothKnown(p[0], facts) && !Foldable(p[0], facts) ==> p[0].dst !in facts)
     && Clean(p[1..], NextFacts(p[0], facts)))
  }

  lemma QuotientInRange(a: int, b: int)
    requires b != 0 && MIN_SMI <= a <= MAX_SMI
    ensures FitsInt64(TruncDiv(a, b))
  {
    var n, d := Abs(a), Abs(b);
    var q := n / d;
    assert n == d * q + n % d && q >= 0;
    assert (d - 1) * q >= 0;
  }

  /** Folding computes the exact result except for a product beyond 64 bits. */
  lemma FoldedIsExact(inst: Inst, facts: Facts)
    requires Foldable(inst, facts)
    ensures var x, y := facts[inst.a].n, facts[inst.b].n;
            Folded(inst, facts) == Int(Exact(inst.op, x, y)) <==> (inst.op.Mul? ==> FitsInt64(x * y))
  {
    if inst.op.Div? { QuotientInRange(facts[inst.a].n, facts[inst.b].n); }
  }

  lemma StepHolds(rt: Arithmetic, p: seq<Inst>, facts: Facts, regs: Registers)
    requires p != [] && !p[0].IsReturn() && WellFormed(p) && NONE !in facts && Clean(p, facts) && Holds(facts, regs)
    ensures Holds(NextFacts(p[0], facts), Effect(rt, p[0], regs)) && NONE !in NextFacts(p[0], facts)
  {
    assert p[0] in p;
    if Foldable(p[0], facts) { FoldedIsExact(p[0], facts); }
  }

  /** On clean code every fact is true. */
  lemma {:induction false} FactsHold(rt: Arithmetic, p: seq<Inst>, facts: Facts, regs: Registers)
    requires WellFormed(p) && NONE !in facts && Clean(p, facts) && Holds(facts, regs)
    ensures FactsTrue(rt, p, facts, regs)
  {
    if p != [] && !p[0].IsReturn() {
      StepHolds(rt, p, facts, regs);
      FactsHold(rt, p[1..], NextFacts(p[0], facts), Effect(rt, p[0], regs));
    }
  }

  function Constantly(c: Value): Arithmetic {
    Arithmetic((op: Op, x: Value, y: Value) => c, (inst: Inst, regs: Registers) => Nothing)
  }

  /** On any other code some runtime makes a fact false, whatever the registers start from. */
  lemma {:induction false} UncleanFactsFail(p: seq<Inst>, facts: Facts) returns (c: Value)
    requires WellFormed(p) && NONE !in facts && !Clean(p, facts)
    ensures forall regs :: !FactsTrue(Constantly(c), p, facts, regs)
  {
    assert p[0] in p;
    var next := NextFacts(p[0], facts);
    if BothKnown(p[0], facts) && !Foldable(p[0], facts) && p[0].dst in facts {
      c := if facts[p[0].dst] == Nil then Int(0) else Nil;
    } else if Foldable(p[0], facts) && p[0].op.Mul? && !FitsInt64(facts[p[0].a].n * facts[p[0].b].n) {
      c := Nil;
      FoldedIsExact(p[0], facts);
    } else {
      c := UncleanFactsFail(p[1..], next);
    }
    forall regs ensures !FactsTrue(Constantly(c), p, facts, regs) {
      if Holds(facts, regs) && BothKnown(p[0], facts) {
        assert Get(regs, p[0].a) == facts[p[0].a] && Get(regs, p[0].b) == facts[p[0].b];
        var regs' := Effect(Constantly(c), p[0], regs);
        assert p[0].dst in next ==> Holds(next, regs') ==> next[p[0].dst] == Get(regs', p[0].dst);
      }
    }
  }

  /** Exactly on clean code are the facts true under every runtime and from every register file. */
  lemma FactsExactCondition(p: seq<Inst>)
    requires WellFormed(p)
    ensures Clean(p, map[]) <==> forall rt, regs :: FactsTrue(rt, p, map[], regs)
  {
    if Clean(p, map[]) {
      forall rt, regs ensures FactsTrue(rt, p, map[], regs) {
        FactsHold(rt, p, map[], regs);
      }
    } else {
      var c := UncleanFactsFail(p, map[]);
      assert !FactsTrue(Constantly(c), p, map[], map[]);
    }
  }

  // ---------- Which code keeps its registers ----------

  /** The facts that may be false after one instruction: those the pass should have dropped, and copies of them. */
  function NextStale(inst: Inst, facts: Facts, stale: set<U32>): set<U32> {
    if inst.op.Mov? && inst.a in facts && inst.a in stale then stale + {inst.dst}
    else if BothKnown(inst, facts) && !Foldable(inst, facts) then
      if inst.dst in facts then stale + {inst.dst} else stale
    else if inst.dst == NONE then stale
    else stale - {inst.dst}
  }

  /** Whatever is folded is folded from facts that are not stale, and a folded product fits 64 bits. */
  predicate FoldsTrueFacts(p: seq<Inst>, facts: Facts, stale: set<U32>) {
    p == [] || p[0].IsReturn() ||
    (&& (Foldable(p[0], facts) ==>
           && p[0].a !in stale && p[0].b !in stale
           && (p[0].op.Mul? ==> FitsInt64(facts[p[0].a].n * facts[p[0].b].n)))
     && FoldsTrueFacts(p[1..], NextFacts(p[0], facts), NextStale(p[0], facts, stale)))
  }

  /** Every fact that is not stale is the register's value. */
  ghost predicate FreshHolds(facts: Facts, stale: set<U32>, regs: Registers) {
    NONE !in facts && forall r | r in facts && r !in stale :: facts[r] == Get(regs, r)
  }

  lemma StepKeepsFresh(rt: Arithmetic, p: seq<Inst>, facts: Facts, stale: set<U32>, regs: Registers)
    requires p != [] && !p[0].IsReturn() && WellFormed(p) && FreshHolds(facts, stale, regs)
    requires FoldsTrueFacts(p, facts, stale)
    ensures FreshHolds(NextFacts(p[0], facts), NextStale(p[0], facts, stale), Effect(rt, p[0], regs))
    ensures Effect(rt, Rewritten(p[0], facts), regs) == Effect(rt, p[0], regs)
  {
    assert p[0] in p;
    if Foldable(p[0], facts) { FoldedIsExact(p[0], facts); }
  }

  /** Then the rewritten code leaves the same registers after every instruction. */
  lemma {:induction false} FoldingPreserves(rt: Arithmetic, p: seq<Inst>, facts: Facts, stale: set<U32>, regs: Registers)
    requires WellFormed(p) && FreshHolds(facts, stale, regs) && FoldsTrueFacts(p, facts, stale)
    ensures States(rt, FoldFrom(p, facts), regs) == States(rt, p, regs)
  {
    if p != [] && !p[0].IsReturn() {
      StepKeepsFresh(rt, p, facts, stale, regs);
      FoldingPreserves(rt, p[1..], NextFacts(p[0], facts), NextStale(p[0], facts, stale), Effect(rt, p[0], regs));
      assert FoldFrom(p, facts)[1..] == FoldFrom(p[1..], NextFacts(p[0], facts));
    }
  }

  /** Under the runtime that answers nil, a register with a stale fact is nil. */
  ghost predicate StaleAreNil(facts: Facts, stale: set<U32>, regs: Registers) {
    forall r | r in facts && r in stale :: Get(regs, r) == Nil
  }

  lemma StepKeepsStaleNil(p: seq<Inst>, facts: Facts, stale: set<U32>, regs: Registers)
    requires p != [] && !p[0].IsReturn() && WellFormed(p)
    requires FreshHolds(facts, stale, regs) && StaleAreNil(facts, stale, regs)
    requires Foldable(p[0], facts) ==> p[0].a !in stale && p[0].b !in stale
    ensures StaleAreNil(NextFacts(p[0], facts), NextStale(p[0], facts, stale), Effect(Constantly(Nil), p[0], regs))
  {
    assert p[0] in p;
    if BothKnown(p[0], facts) && !Foldable(p[0], facts) {
      UnfoldableIsNil(p[0], facts, stale, regs);
    }
  }

  /** An operation on known operands that is not folded is nil under that runtime, be its facts stale or not. */
  lemma UnfoldableIsNil(inst: Inst, facts: Facts, stale: set<U32>, regs: Registers)
    requires BothKnown(inst, facts) && !Foldable(inst, facts)
    requires FreshHolds(facts, stale, regs) && StaleAreNil(facts, stale, regs)
    ensures Compute(Constantly(Nil), inst.op, Get(regs, inst.a), Get(regs, inst.b)) == Nil
  {
  }

  /** An instruction folded from a stale fact, or beyond 64 bits, leaves another register file under that runtime. */
  lemma BadFoldShows(inst: Inst, facts: Facts, stale: set<U32>, regs: Registers)
    requires Foldable(inst, facts) && inst.dst != NONE
    requires FreshHolds(facts, stale, regs) && StaleAreNil(facts, stale, regs)
    requires inst.a in stale || inst.b in stale || (inst.op.Mul? && !FitsInt64(facts[inst.a].n * facts[inst.b].n))
    ensures Effect(Constantly(Nil), Rewritten(inst, facts), regs) != Effect(Constantly(Nil), inst, regs)
  {
    var rt := Constantly(Nil);
    if inst.a in stale || inst.b in stale {
      assert Compute(rt, inst.op, Get(regs, inst.a), Get(regs, inst.b)) == Nil;
    } else {
      FoldedIsExact(inst, facts);
    }
    assert Effect(rt, Rewritten(inst, facts), regs)[inst.dst] != Effect(rt, inst, regs)[inst.dst];
  }

  lemma {:induction false} BadFoldsShow(p: seq<Inst>, facts: Facts, stale: set<U32>, regs: Registers)
    requires WellFormed(p) && !FoldsTrueFacts(p, facts, stale)
    requires FreshHolds(facts, stale, regs) && StaleAreNil(facts, stale, regs)
    ensures States(Constantly(Nil), FoldFrom(p, facts), regs) != States(Constantly(Nil), p, regs)
  {
    var rt := Constantly(Nil);
    var inst, next := p[0], NextFacts(p[0], facts);
    assert inst in p;
    var folded := FoldFrom(p, facts);
    assert folded[1..] == FoldFrom(p[1..], next);
    assert States(rt, folded, regs)[0] == Effect(rt, Rewritten(inst, facts), regs);
    assert States(rt, p, regs)[0] == Effect(rt, inst, regs);
    if Foldable(inst, facts) && (inst.a in stale || inst.b in stale || (inst.op.Mul? && !FitsInt64(facts[inst.a].n * facts[inst.b].n))) {
      BadFoldShows(inst, facts, stale, regs);
    } else if Effect(rt, Rewritten(inst, facts), regs) == Effect(rt, inst, regs) {
      StepKeepsStaleNil(p, facts, stale, regs);
      FreshAfterGoodFold(p, facts, stale, regs);
      BadFoldsShow(p[1..], next, NextStale(inst, facts, stale), Effect(rt, inst, regs));
      assert States(rt, folded, regs)[1..] != States(rt, p, regs)[1..];
    }
  }

  lemma FreshAfterGoodFold(p: seq<Inst>, facts: Facts, stale: set<U32>, regs: Registers)
    requires p != [] && !p[0].IsReturn() && WellFormed(p) && FreshHolds(facts, stale, regs)
    requires Foldable(p[0], facts) ==>
               p[0].a !in stale && p[0].b !in stale && (p[0].op.Mul? ==> FitsInt64(facts[p[0].a].n * facts[p[0].b].n))
    ensures FreshHolds(NextFacts(p[0], facts), NextStale(p[0], facts, stale), Effect(Constantly(Nil), p[0], regs))
  {
    assert p[0] in p;
    if Foldable(p[0], facts) { FoldedIsExact(p[0], facts); }
  }

  /**
   Folding leaves the same registers after every instruction, on every runtime and from every start,
   exactly when no instruction is folded from a stale fact or to a product beyond 64 bits.
   */
  lemma FoldingExactCondition(p: seq<Inst>)
    requires WellFormed(p)
    ensures FoldsTrueFacts(p, map[], {}) <==>
            forall rt, regs :: States(rt, FoldFrom(p, map[]), regs) == States(rt, p, regs)
  {
    if FoldsTrueFacts(p, map[], {}) {
      forall rt, regs ensures States(rt, FoldFrom(p, map[]), regs) == States(rt, p, regs) {
        FoldingPreserves(rt, p, map[], {}, regs);
      }
    } else {
      BadFoldsShow(p, map[], {}, map[]);
    }
  }

  // ---------- What goes wrong otherwise ----------

  const SEVEN := Inst(LoadConst, 3, NONE, NONE, 0, Int(7), "", [])
  const ONE := Inst(LoadConst, 1, NONE, NONE, 0, Int(1), "", [])
  const ZERO := Inst(LoadConst, 2, NONE, NONE, 0, Int(0), "", [])
  const QUOTIENT := Inst(Div, 3, 1, 2, 0, Nil, "", [])
  const SUM := Inst(Add, 4, 3, 1, 0, Nil, "", [])

  lemma Unfold(inst: Inst, rest: seq<Inst>, facts: Facts, rt: Arithmetic, regs: Registers)
    requires !inst.IsReturn()
    ensures FoldFrom([inst] + rest, facts) == [Rewritten(inst, facts)] + FoldFrom(rest, NextFacts(inst, facts))
    ensures States(rt, [inst] + rest, regs) == [Effect(rt, inst, regs)] + States(rt, rest, Effect(rt, inst, regs))
    ensures Clean([inst] + rest, facts) ==> Clean(rest, NextFacts(inst, facts))
    ensures Clean([inst] + rest, facts) ==> BothKnown(inst, facts) && !Foldable(inst, facts) ==> inst.dst !in facts
  {
    assert ([inst] + rest)[1..] == rest;
  }

  lemma UnfoldCondition(inst: Inst, rest: seq<Inst>, facts: Facts, stale: set<U32>)
    requires !inst.IsReturn()
    ensures FoldsTrueFacts([inst] + rest, facts, stale) <==>
              && (Foldable(inst, facts) ==>
                    && inst.a !in stale && inst.b !in stale
                    && (inst.op.Mul? ==> FitsInt64(facts[inst.a].n * facts[inst.b].n)))
              && FoldsTrueFacts(rest, NextFacts(inst, facts), NextStale(inst, facts, stale))
  {
    assert ([inst] + rest)[1..] == rest;
  }

  const THREE_LOADS_AND_QUOTIENT := [SEVEN] + ([ONE] + ([ZERO] + ([QUOTIENT] + [])))

  /** Up to the quotient every register is kept, although the fact about r3 is stale: nothing is folded from it. */
  lemma UnreadStaleFactIsHarmless()
    ensures !Clean(THREE_LOADS_AND_QUOTIENT, map[]) && FoldsTrueFacts(THREE_LOADS_AND_QUOTIENT, map[], {})
  {
    var f1: Facts := map[3 := Int(7)];
    var f2 := f1[1 := Int(1)];
    var f3 := f2[2 := Int(0)];
    var rt := Constantly(Nil);
    var none: set<U32> := {};
    assert none - {3} == none - {1} == none - {2} == none;
    UnfoldCondition(QUOTIENT, [], f3, {});
    UnfoldCondition(ZERO, [QUOTIENT] + [], f2, {});
    UnfoldCondition(ONE, [ZERO] + ([QUOTIENT] + []), f1, {});
    UnfoldCondition(SEVEN, [ONE] + ([ZERO] + ([QUOTIENT] + [])), map[], {});
    Unfold(QUOTIENT, [], f3, rt, map[]);
    Unfold(ZERO, [QUOTIENT] + [], f2, rt, map[]);
    Unfold(ONE, [ZERO] + ([QUOTIENT] + []), f1, rt, map[]);
    Unfold(SEVEN, [ONE] + ([ZERO] + ([QUOTIENT] + [])), map[], rt, map[]);
  }

  lemma StaleSumIsFolded()
    ensures !FoldsTrueFacts([SEVEN] + ([ONE] + ([ZERO] + ([QUOTIENT] + ([SUM] + [])))), map[], {})
  {
    var f1: Facts := map[3 := Int(7)];
    var f2 := f1[1 := Int(1)];
    var f3 := f2[2 := Int(0)];
    var none: set<U32> := {};
    assert none - {3} == none - {1} == none - {2} == none && none + {3} == {3};
    UnfoldCondition(SUM, [], f3, {3});
    UnfoldCondition(QUOTIENT, [SUM] + [], f3, {});
    UnfoldCondition(ZERO, [QUOTIENT] + ([SUM] + []), f2, {});
    UnfoldCondition(ONE, [ZERO] + ([QUOTIENT] + ([SUM] + [])), f1, {});
    UnfoldCondition(SEVEN, [ONE] + ([ZERO] + ([QUOTIENT] + ([SUM] + []))), map[], {});
  }

  /**
   r3 := 7; r1 := 1; r2 := 0; r3 := r1 / r2; r4 := r3 + r1. The quotient stays, but the old fact
   about r3 stays too, so r4 becomes the constant 8 although the runtime makes it nil.
   */
  lemma ZeroDivisorBreaksFolding(regs: Registers)
    ensures var p := [SEVEN] + ([ONE] + ([ZERO] + ([QUOTIENT] + ([SUM] + []))));
            && !FoldsTrueFacts(p, map[], {})
            && FoldFrom(p, map[]) == [SEVEN, ONE, ZERO, QUOTIENT, SUM.(op := LoadConst, constVal := Int(8))]
            && |States(Constantly(Nil), p, regs)| == 5
            && Get(States(Constantly(Nil), p, regs)[4], 4) == Nil
  {
    var rt := Constantly(Nil);
    var f1: Facts := map[3 := Int(7)];
    var f2 := f1[1 := Int(1)];
    var f3 := f2[2 := Int(0)];
    var r1 := regs[3 := Int(7)];
    var r2 := r1[1 := Int(1)];
    var r3 := r2[2 := Int(0)];
    StaleSumIsFolded();
    Unfold(SUM, [], f3, rt, r3[3 := Nil]);
    Unfold(QUOTIENT, [SUM] + [], f3, rt, r3);
    Unfold(ZERO, [QUOTIENT] + ([SUM] + []), f2, rt, r2);
    Unfold(ONE, [ZERO] + ([QUOTIENT] + ([SUM] + [])), f1, rt, r1);
    Unfold(SEVEN, [ONE] + ([ZERO] + ([QUOTIENT] + ([SUM] + []))), map[], rt, regs);
  }
}
