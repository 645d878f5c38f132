/**
 Reachability over an instruction array whose jumps name instruction indices,
 the program that unreachable-code removal must produce, and the proof that
 this program runs in lockstep with the original.
 */
module ControlFlow {
  import opened Lir

  // ---------- Reachability ----------

  /** Control can pass from index i to index j without leaving the array. */
  predicate Edge(p: seq<Inst>, i: nat, j: nat)
    requires i < |p|
  {
    && j < |p|
    && match p[i].op
       case Jump => j == p[i].imm
       case JumpIf => j == p[i].imm || j == i + 1
       case JumpIfFalse => j == p[i].imm || j == i + 1
       case Return => false
       case Ret => false
       case _ => j == i + 1
  }

  ghost predicate IsWalk(p: seq<Inst>, w: seq<nat>) {
    && |w| > 0 && w[0] == 0
    && (forall k | 0 <= k < |w| :: w[k] < |p|)
    && (forall k | 0 <= k < |w| - 1 :: Edge(p, w[k], w[k + 1]))
  }

  ghost predicate WalkTo(p: seq<Inst>, w: seq<nat>, i: nat) {
    IsWalk(p, w) && w[|w| - 1] == i
  }

  ghost predicate Reachable(p: seq<Inst>, i: nat) {
    exists w :: WalkTo(p, w, i)
  }

  lemma EntryReachable(p: seq<Inst>)
    requires p != []
    ensures Reachable(p, 0)
  {
    assert WalkTo(p, [0], 0);
  }

  lemma EdgeReachable(p: seq<Inst>, i: nat, j: nat)
    requires i < |p| && Reachable(p, i) && Edge(p, i, j)
    ensures Reachable(p, j)
  {
    var w :| WalkTo(p, w, i);
    assert WalkTo(p, w + [j], j);
  }

  /** A marking that holds the entry and is closed under edges holds every reachable index. */
  lemma {:induction false} ClosedMarksReachable(p: seq<Inst>, marks: seq<bool>, w: seq<nat>)
    requires |marks| == |p| && IsWalk(p, w) && marks[0]
    requires forall i, j | 0 <= i < |p| && marks[i] && 0 <= j && Edge(p, i, j) :: marks[j]
    ensures marks[w[|w| - 1]]
  {
    if |w| > 1 {
      ClosedMarksReachable(p, marks, w[..|w| - 1]);
      assert Edge(p, w[|w| - 2], w[|w| - 1]);
    }
  }

  // ---------- The pruned program ----------

  /** How many reachable indices lie below i: the index i gets after compaction. */
  ghost function Rank(p: seq<Inst>, i: nat): (r: nat)
    requires i <= |p|
    ensures r <= i
  {
    if i == 0 then 0 else Rank(p, i - 1) + (if Reachable(p, i - 1) then 1 else 0)
  }

  ghost function Retarget(p: seq<Inst>, inst: Inst): Inst {
    if inst.IsJump() && inst.imm < |p| && Reachable(p, inst.imm)
    then inst.(imm := Rank(p, inst.imm)) else inst
  }

  /** The reachable instructions among the first n, in order. */
  ghost function Kept(p: seq<Inst>, n: nat): (r: seq<Inst>)
    requires n <= |p|
    ensures |r| == Rank(p, n)
  {
    if n == 0 then []
    else Kept(p, n - 1) + (if Reachable(p, n - 1) then [p[n - 1]] else [])
  }

  /** The reachable instructions, with their jumps retargeted. */
  ghost function Pruned(p: seq<Inst>): seq<Inst> {
    seq(Rank(p, |p|), k requires 0 <= k < Rank(p, |p|) => Retarget(p, Kept(p, |p|)[k]))
  }

  lemma {:induction false} RankMonotone(p: seq<Inst>, i: nat, j: nat)
    requires i <= j <= |p|
    ensures Rank(p, i) <= Rank(p, j)
    ensures i < j && Reachable(p, i) ==> Rank(p, i) < Rank(p, j)
    decreases j
  {
    if i < j {
      RankMonotone(p, i, j - 1);
    }
  }

  /** Every reachable instruction survives, at the index given by its rank. */
  lemma {:induction false} KeptAt(p: seq<Inst>, n: nat, i: nat)
    requires i < n <= |p| && Reachable(p, i)
    ensures Rank(p, i) < Rank(p, n)
    ensures Kept(p, n)[Rank(p, i)] == p[i]
  {
    RankMonotone(p, i, n);
    if i < n - 1 {
      KeptAt(p, n - 1, i);
    }
  }

  /** Nothing else survives: every kept instruction comes from a reachable index. */
  lemma {:induction false} KeptFrom(p: seq<Inst>, n: nat, k: nat) returns (i: nat)
    requires n <= |p| && k < Rank(p, n)
    ensures i < n && Reachable(p, i) && Rank(p, i) == k && Kept(p, n)[k] == p[i]
  {
    if k < Rank(p, n - 1) {
      i := KeptFrom(p, n - 1, k);
    } else {
      i := n - 1;
    }
  }

  /** Index k of the pruned program holds an instruction that was reachable. */
  ghost predicate ComesFromReachable(p: seq<Inst>, k: nat) {
    exists i: nat :: i < |p| && Reachable(p, i) && Rank(p, i) == k
  }

  /** Every reachable instruction survives and keeps its place among the others, and nothing else survives. */
  lemma PrunedIsReachablePart(p: seq<Inst>)
    ensures forall i | 0 <= i < |p| && Reachable(p, i) ::
              Rank(p, i) < |Pruned(p)| && Pruned(p)[Rank(p, i)] == Retarget(p, p[i])
    ensures forall i, j | 0 <= i < j < |p| && Reachable(p, i) && Reachable(p, j) :: Rank(p, i) < Rank(p, j)
    ensures forall k | 0 <= k < |Pruned(p)| :: ComesFromReachable(p, k)
  {
    forall k | 0 <= k < |Pruned(p)| ensures ComesFromReachable(p, k) {
      var i := KeptFrom(p, |p|, k);
    }
    forall i | 0 <= i < |p| && Reachable(p, i)
      ensures Rank(p, i) < |Pruned(p)| && Pruned(p)[Rank(p, i)] == Retarget(p, p[i])
    {
      KeptAt(p, |p|, i);
    }
    forall i, j | 0 <= i < j < |p| && Reachable(p, i) && Reachable(p, j)
      ensures Rank(p, i) < Rank(p, j)
    {
      RankMonotone(p, i, j);
    }
  }

  lemma {:induction false} KeptAll(p: seq<Inst>, n: nat)
    requires n <= |p| && forall i | 0 <= i < |p| :: Reachable(p, i)
    ensures Rank(p, n) == n && Kept(p, n) == p[..n]
  {
    if n > 0 { KeptAll(p, n - 1); }
  }

  /** With nothing unreachable the pass is the identity. */
  lemma PrunedAll(p: seq<Inst>)
    requires forall i | 0 <= i < |p| :: Reachable(p, i)
    ensures Pruned(p) == p
  {
    KeptAll(p, |p|);
    forall k | 0 <= k < |p| ensures Retarget(p, p[k]) == p[k] {
      if p[k].imm < |p| { KeptAll(p, p[k].imm); }
    }
  }

  /** Compaction keeps every edge that leaves a reachable index. */
  lemma EdgeSurvives(p: seq<Inst>, i: nat, j: nat)
    requires i < |p| && Reachable(p, i) && Edge(p, i, j)
    ensures Rank(p, i) < |Pruned(p)| && Edge(Pruned(p), Rank(p, i), Rank(p, j))
  {
    EdgeReachable(p, i, j);
    KeptAt(p, |p|, i);
    KeptAt(p, |p|, j);
  }

  lemma {:induction false} WalkSurvives(p: seq<Inst>, w: seq<nat>)
    requires IsWalk(p, w)
    ensures Reachable(Pruned(p), Rank(p, w[|w| - 1]))
  {
    var last := w[|w| - 1];
    assert WalkTo(p, w, last);
    KeptAt(p, |p|, last);
    if |w| == 1 {
      EntryReachable(Pruned(p));
    } else {
      var v := w[..|w| - 1];
      WalkSurvives(p, v);
      assert Edge(p, w[|w| - 2], last);
      assert WalkTo(p, v, w[|w| - 2]);
      EdgeSurvives(p, w[|w| - 2], last);
      EdgeReachable(Pruned(p), Rank(p, w[|w| - 2]), Rank(p, last));
    }
  }

  /** Idempotence: everything the pass keeps is reachable in what it produces. */
  lemma PrunedIsFixpoint(p: seq<Inst>)
    ensures forall k | 0 <= k < |Pruned(p)| :: Reachable(Pruned(p), k)
    ensures Pruned(Pruned(p)) == Pruned(p)
  {
    forall k | 0 <= k < |Pruned(p)| ensures Reachable(Pruned(p), k) {
      var i := KeptFrom(p, |p|, k);
      var w :| WalkTo(p, w, i);
      WalkSurvives(p, w);
    }
    PrunedAll(Pruned(p));
  }

  // ---------- Execution ----------

  /** What the machine does outside control flow is left open. */
  datatype Machine<!S> = Machine(exec: (Inst, S) -> Step<S>, test: (Inst, S) -> bool)

  datatype Step<S> = Next(data: S) | Trap

  datatype Config<S> =
    | Running(pc: nat, data: S)
    | Returned(inst: Inst, data: S)
    | FellOff(data: S)
    | Trapped(data: S)

  /** The condition of a jump is read from its registers, never from its target. */
  function Taken<S>(m: Machine<S>, inst: Inst, s: S): bool {
    m.test(inst.(imm := 0), s)
  }

  function StepOnce<S>(m: Machine<S>, p: seq<Inst>, c: Config<S>): Config<S> {
    match c
    case Running(pc, s) =>
      if pc >= |p| then FellOff(s) else
      (match p[pc].op
       case Jump => Running(p[pc].imm, s)
       case JumpIf => Running(if Taken(m, p[pc], s) then p[pc].imm else pc + 1, s)
       case JumpIfFalse => Running(if Taken(m, p[pc], s) then pc + 1 else p[pc].imm, s)
       case Return => Returned(p[pc], s)
       case Ret => Returned(p[pc], s)
       case _ => match m.exec(p[pc], s)
                 case Next(s') => Running(pc + 1, s')
                 case Trap => Trapped(s))
    case _ => c
  }

  function Run<S>(m: Machine<S>, p: seq<Inst>, c: Config<S>, k: nat): Config<S> {
    if k == 0 then c else StepOnce(m, p, Run(m, p, c, k - 1))
  }

  /** A machine that never traps and answers every test the same way. */
  function Always(taken: bool): Machine<()> {
    Machine((inst: Inst, s: ()) => Next(s), (inst: Inst, s: ()) => taken)
  }

  /** The edges are exactly the steps some machine takes inside the program. */
  lemma EdgesAreSteps(p: seq<Inst>, i: nat, j: nat)
    requires i < |p|
    ensures Edge(p, i, j) <==> j < |p| && exists taken :: StepOnce(Always(taken), p, Running(i, ())) == Running(j, ())
  {
    var yes, no := StepOnce(Always(true), p, Running(i, ())), StepOnce(Always(false), p, Running(i, ()));
    assert forall taken :: StepOnce(Always(taken), p, Running(i, ())) == if taken then yes else no;
    assert yes == Running(j, ()) ==> exists taken :: StepOnce(Always(taken), p, Running(i, ())) == Running(j, ());
    assert no == Running(j, ()) ==> exists taken :: StepOnce(Always(taken), p, Running(i, ())) == Running(j, ());
  }

  /** A conditional jump goes to its target if its test holds, and the other one if it does not. */
  lemma TestsDecide(p: seq<Inst>, i: nat, taken: bool)
    requires i < |p| && (p[i].op.JumpIf? || p[i].op.JumpIfFalse?)
    ensures StepOnce(Always(taken), p, Running(i, ()))
            == Running(if p[i].op.JumpIf? <==> taken then p[i].imm else i + 1, ())
  {
  }

  /** Same data, and the pc of the pruned program is the remapped pc of the original. */
  ghost predicate Related<S>(p: seq<Inst>, c: Config<S>, d: Config<S>) {
    if c.Running? then
      && d.Running? && d.data == c.data
      && if c.pc < |p| then Reachable(p, c.pc) && d.pc == Rank(p, c.pc) else d.pc >= |Pruned(p)|
    else d == c
  }

  lemma NextPcRelated(p: seq<Inst>, i: nat)
    requires i < |p| && Reachable(p, i) && !p[i].op.Jump? && !p[i].IsReturn()
    ensures Rank(p, i + 1) == Rank(p, i) + 1
    ensures i + 1 < |p| ==> Reachable(p, i + 1)
    ensures i + 1 >= |p| ==> Rank(p, i) + 1 >= |Pruned(p)|
  {
    if i + 1 < |p| { EdgeReachable(p, i, i + 1); }
  }

  lemma TargetRelated(p: seq<Inst>, i: nat)
    requires i < |p| && Reachable(p, i) && p[i].IsJump()
    ensures p[i].imm < |p| ==> Reachable(p, p[i].imm) && Retarget(p, p[i]).imm == Rank(p, p[i].imm)
    ensures p[i].imm >= |p| ==> Retarget(p, p[i]).imm >= |Pruned(p)|
  {
    if p[i].imm < |p| { EdgeReachable(p, i, p[i].imm); }
  }

  /** One step of both programs keeps them related. */
  lemma StepRelated<S>(m: Machine<S>, p: seq<Inst>, c: Config<S>, d: Config<S>)
    requires Related(p, c, d)
    ensures Related(p, StepOnce(m, p, c), StepOnce(m, Pruned(p), d))
  {
    if c.Running? && c.pc < |p| {
      KeptAt(p, |p|, c.pc);
      if p[c.pc].IsJump() { TargetRelated(p, c.pc); }
      if !p[c.pc].op.Jump? && !p[c.pc].IsReturn() { NextPcRelated(p, c.pc); }
    }
  }

  /** Lockstep: after any number of steps, from any data, both programs are in related states. */
  lemma {:induction false} Lockstep<S>(m: Machine<S>, p: seq<Inst>, s: S, k: nat)
    ensures Related(p, Run(m, p, Running(0, s), k), Run(m, Pruned(p), Running(0, s), k))
  {
    if k > 0 {
      Lockstep(m, p, s, k - 1);
      StepRelated(m, p, Run(m, p, Running(0, s), k - 1), Run(m, Pruned(p), Running(0, s), k - 1));
    } else if p != [] {
      EntryReachable(p);
    }
  }

  /** The two programs halt at the same step, the same way and with the same data, or never. */
  lemma SameObservations<S>(m: Machine<S>, p: seq<Inst>, s: S, k: nat)
    ensures var c := Run(m, p, Running(0, s), k);
            var d := Run(m, Pruned(p), Running(0, s), k);
            c.data == d.data && c.Running? == d.Running? && (!c.Running? ==> c == d)
  {
    Lockstep(m, p, s, k);
  }
}
