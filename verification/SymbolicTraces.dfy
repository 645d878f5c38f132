/**
 When dead-code elimination keeps what a program does: both programs are run on terms instead of values,
 in one pass over the original code, and everything printed, passed or returned is compared.
 */
module SymbolicTraces {
  import opened Lir
  import opened DeadCode

  /** What a register holds: nothing, its first content, a computed value, or the answer of the n-th event. */
  datatype Term = Missing | Start(r: U32) | Made(inst: Inst, args: seq<Term>) | Answer(n: nat)

  type Env = map<U32, Term>

  function Look(env: Env, r: U32): Term {
    if r == NONE then Missing else if r in env then env[r] else Start(r)
  }

  function LookAll(env: Env, rs: seq<U32>): seq<Term> {
    seq(|rs|, i requires 0 <= i < |rs| => Look(env, rs[i]))
  }

  function Put(env: Env, inst: Inst, t: Term): Env {
    if Writes(inst) then env[inst.dst := t] else env
  }

  /**
   No event is erased, and every event and the return read the same terms in the original program, which is at env, and in the pruned
   one, which is at env' because it has skipped the dead instructions. n events have happened.
   */
  predicate SameReads(p: seq<Inst>, env: Env, env': Env, n: nat) {
    p == [] ||
    var inst := p[0];
    var got, got' := LookAll(env, Reads(inst)), LookAll(env', Reads(inst));
    if inst.IsReturn() then got == got'
    else if Computes(inst.op) then
      SameReads(p[1..], Put(env, inst, Made(inst, got)), if IsDead(p) then env' else Put(env', inst, Made(inst, got')), n)
    else if inst.op.Label? then SameReads(p[1..], env, env', n)
    else !IsDead(p) && got == got' && SameReads(p[1..], Put(env, inst, Answer(n + 1)), Put(env', inst, Answer(n + 1)), n + 1)
  }

  // ---------- Terms have values ----------

  datatype Meaning = Meaning(compute: (Inst, seq<Value>) -> Value, start: Registers, answer: nat -> Value)

  function Interp(m: Meaning, t: Term): Value {
    match t
    case Missing => Nil
    case Start(r) => Get(m.start, r)
    case Made(inst, args) => m.compute(inst, seq(|args|, i requires 0 <= i < |args| => Interp(m, args[i])))
    case Answer(n) => m.answer(n)
  }

  function InterpAll(m: Meaning, ts: seq<Term>): seq<Value> {
    seq(|ts|, i requires 0 <= i < |ts| => Interp(m, ts[i]))
  }

  ghost predicate Models(m: Meaning, env: Env, regs: Registers) {
    forall r: U32 :: Get(regs, r) == Interp(m, Look(env, r))
  }

  lemma ModelsReads(m: Meaning, env: Env, regs: Registers, rs: seq<U32>)
    requires Models(m, env, regs)
    ensures GetAll(regs, rs) == InterpAll(m, LookAll(env, rs))
  {
  }

  lemma ModelsPut(m: Meaning, env: Env, regs: Registers, inst: Inst, t: Term)
    requires Models(m, env, regs)
    ensures Models(m, Put(env, inst, t), Assign(inst, regs, Interp(m, t)))
  {
    forall r: U32 ensures Get(Assign(inst, regs, Interp(m, t)), r) == Interp(m, Look(Put(env, inst, t), r)) {
      assert Get(regs, r) == Interp(m, Look(env, r));
    }
  }

  lemma MadeValue(m: Meaning, inst: Inst, args: seq<Term>)
    ensures Interp(m, Made(inst, args)) == m.compute(inst, InterpAll(m, args))
  {
    assert InterpAll(m, args) == seq(|args|, i requires 0 <= i < |args| => Interp(m, args[i]));
  }

  lemma {:induction false} TraceGrows(rt: Runtime, p: seq<Inst>, regs: Registers, trace: seq<Event>)
    ensures trace <= Exec(rt, p, regs, trace).trace
  {
    if p != [] && !p[0].IsReturn() {
      var values := GetAll(regs, Reads(p[0]));
      var trace' := Emit(p[0], values, trace);
      TraceGrows(rt, p[1..], Assign(p[0], regs, Result(rt, p[0], values, trace')), trace');
    }
  }

  // ---------- Same terms, same behaviour ----------

  /** The runtime's values, given all the events of the run. */
  function RunMeaning(rt: Runtime, regs: Registers, full: seq<Event>): Meaning {
    Meaning(rt.compute, regs, (n: nat) => if n <= |full| then rt.reply(full[..n]) else Nil)
  }

  lemma AnswerValue(rt: Runtime, m: Meaning, full: seq<Event>, trace: seq<Event>)
    requires m == RunMeaning(rt, m.start, full) && trace <= full
    ensures Interp(m, Answer(|trace|)) == rt.reply(trace)
  {
    assert full[..|trace|] == trace;
  }

  lemma {:induction false} SameReadsSimulate(rt: Runtime, m: Meaning, full: seq<Event>, p: seq<Inst>, env: Env, env': Env,
                                             regs: Registers, regs': Registers, trace: seq<Event>)
    requires StraightLine(p) && SameReads(p, env, env', |trace|)
    requires m == RunMeaning(rt, m.start, full) && full == Exec(rt, p, regs, trace).trace
    requires Models(m, env, regs) && Models(m, env', regs')
    ensures Exec(rt, p, regs, trace) == Exec(rt, Live(p), regs', trace)
    decreases |p|, 1
  {
    if p == [] { return; }
    var inst, rest := p[0], p[1..];
    assert inst in p;
    ModelsReads(m, env, regs, Reads(inst));
    ModelsReads(m, env', regs', Reads(inst));
    if inst.IsReturn() {
      assert Live(p)[0] == inst;
      return;
    }
    if !Computes(inst.op) {
      SameReadsSimulateEvent(rt, m, full, p, env, env', regs, regs', trace);
      return;
    }
    var got, got' := LookAll(env, Reads(inst)), LookAll(env', Reads(inst));
    var values := GetAll(regs, Reads(inst));
    var trace' := Emit(inst, values, trace);
    var v := Result(rt, inst, values, trace');
    assert Exec(rt, p, regs, trace) == Exec(rt, rest, Assign(inst, regs, v), trace');
    MadeValue(m, inst, got);
    MadeValue(m, inst, got');
    ModelsPut(m, env, regs, inst, Made(inst, got));
    if IsDead(p) {
      assert Live(p) == Live(rest);
      SameReadsSimulate(rt, m, full, rest, Put(env, inst, Made(inst, got)), env', Assign(inst, regs, v), regs', trace);
    } else {
      assert Live(p)[0] == inst && Live(p)[1..] == Live(rest);
      ModelsPut(m, env', regs', inst, Made(inst, got'));
      var v' := Interp(m, Made(inst, got'));
      SameReadsSimulate(rt, m, full, rest, Put(env, inst, Made(inst, got)), Put(env', inst, Made(inst, got')),
                        Assign(inst, regs, v), Assign(inst, regs', v'), trace);
    }
  }

  /** One event: both its trace and the answer it gets depend on the operands only. */
  lemma EventStep(rt: Runtime, q: seq<Inst>, regs: Registers, trace: seq<Event>, values: seq<Value>)
    requires q != [] && !Computes(q[0].op) && !q[0].op.Label? && !q[0].IsReturn() && values == GetAll(regs, Reads(q[0]))
    ensures var trace' := trace + [Event(q[0], values)];
            Exec(rt, q, regs, trace) == Exec(rt, q[1..], Assign(q[0], regs, rt.reply(trace')), trace')
  {
  }

  lemma LabelStep(rt: Runtime, q: seq<Inst>, regs: Registers, trace: seq<Event>)
    requires q != [] && q[0].op.Label?
    ensures Exec(rt, q, regs, trace) == Exec(rt, q[1..], regs, trace)
  {
  }

  /** The same for a label, or for an event, which both programs have. */
  lemma {:induction false} SameReadsSimulateEvent(rt: Runtime, m: Meaning, full: seq<Event>, p: seq<Inst>, env: Env, env': Env,
                                                  regs: Registers, regs': Registers, trace: seq<Event>)
    requires StraightLine(p) && SameReads(p, env, env', |trace|) && p != [] && !Computes(p[0].op) && !p[0].IsReturn()
    requires m == RunMeaning(rt, m.start, full) && full == Exec(rt, p, regs, trace).trace
    requires Models(m, env, regs) && Models(m, env', regs')
    requires p[0].op.Label? || GetAll(regs, Reads(p[0])) == GetAll(regs', Reads(p[0]))
    ensures Exec(rt, p, regs, trace) == Exec(rt, Live(p), regs', trace)
    decreases |p|, 0
  {
    var inst, rest := p[0], p[1..];
    LiveStep(p);
    if inst.op.Label? {
      LabelStep(rt, p, regs, trace);
      LabelStep(rt, Live(p), regs', trace);
      SameReadsSimulate(rt, m, full, rest, env, env', regs, regs', trace);
      return;
    }
    SameReadsSimulateLater(rt, m, full, p, Live(p), env, env', regs, regs', trace);
  }

  lemma {:induction false} SameReadsSimulateLater(rt: Runtime, m: Meaning, full: seq<Event>, p: seq<Inst>, q: seq<Inst>,
                                                  env: Env, env': Env, regs: Registers, regs': Registers, trace: seq<Event>)
    requires p != [] && q != [] && q[0] == p[0] && q[1..] == Live(p[1..]) && StraightLine(p[1..])
    requires !Computes(p[0].op) && !p[0].op.Label? && !p[0].IsReturn()
    requires var next := |trace| + 1;
             SameReads(p[1..], Put(env, p[0], Answer(next)), Put(env', p[0], Answer(next)), next)
    requires m == RunMeaning(rt, m.start, full) && full == Exec(rt, p, regs, trace).trace
    requires Models(m, env, regs) && Models(m, env', regs')
    requires GetAll(regs, Reads(p[0])) == GetAll(regs', Reads(p[0]))
    ensures Exec(rt, p, regs, trace) == Exec(rt, q, regs', trace)
    decreases |p| - 1, 2
  {
    var inst, rest := p[0], p[1..];
    var values := GetAll(regs, Reads(inst));
    var trace' := trace + [Event(inst, values)];
    EventStep(rt, p, regs, trace, values);
    EventStep(rt, q, regs', trace, values);
    var v, t := rt.reply(trace'), Answer(|trace'|);
    TraceGrows(rt, rest, Assign(inst, regs, v), trace');
    AnswerValue(rt, m, full, trace');
    ModelsPut(m, env, regs, inst, t);
    ModelsPut(m, env', regs', inst, t);
    SameReadsSimulate(rt, m, full, rest, Put(env, inst, t), Put(env', inst, t), Assign(inst, regs, v), Assign(inst, regs', v), trace');
  }

  // ---------- Other terms, other behaviour ----------

  /** Numbers pairs, each differently. */
  function Pair(x: nat, y: nat): nat {
    (x + y) * (x + y) + x
  }

  lemma {:induction false} SquareGap(m: nat, n: nat)
    requires m < n
    ensures m * m + m < n * n
    decreases n
  {
    assert n * n == (n - 1) * (n - 1) + 2 * (n - 1) + 1;
    if m < n - 1 {
      SquareGap(m, n - 1);
    }
  }

  lemma PairInjective(a: nat, b: nat, x: nat, y: nat)
    requires Pair(a, b) == Pair(x, y)
    ensures a == x && b == y
  {
    var m, n := a + b, x + y;
    if m < n { SquareGap(m, n); }
    if n < m { SquareGap(n, m); }
  }

  function IndexIn(table: seq<Inst>, inst: Inst): (i: nat)
    ensures i <= |table| && (inst in table ==> i < |table| && table[i] == inst)
  {
    if table == [] || table[0] == inst then 0 else 1 + IndexIn(table[1..], inst)
  }

  function NumVal(v: Value): nat {
    if v.Boxed? then v.id + 1 else 0
  }

  function NumVals(vs: seq<Value>): nat {
    if vs == [] then 0 else Pair(NumVal(vs[0]), NumVals(vs[1..])) + 1
  }

  predicate Plain(v: Value) { v.Nil? || v.Boxed? }

  lemma {:induction false} NumValsInjective(vs: seq<Value>, ws: seq<Value>)
    requires (forall v | v in vs :: Plain(v)) && (forall w | w in ws :: Plain(w)) && NumVals(vs) == NumVals(ws)
    ensures vs == ws
  {
    if vs != [] && ws != [] {
      PairInjective(NumVal(vs[0]), NumVals(vs[1..]), NumVal(ws[0]), NumVals(ws[1..]));
      NumValsInjective(vs[1..], ws[1..]);
      assert vs[0] in vs && ws[0] in ws;
      assert vs == [vs[0]] + vs[1..] && ws == [ws[0]] + ws[1..];
    }
  }

  /** A runtime that gives every result a number of its own: results, answers and first contents never meet. */
  function Numbering(table: seq<Inst>): Runtime {
    Runtime((inst: Inst, values: seq<Value>) => Boxed(3 * Pair(IndexIn(table, inst), NumVals(values)) + 2),
            (trace: seq<Event>) => Boxed(3 * |trace| + 1))
  }

  function Numbered(): Registers {
    map r: U32 | 0 <= r < NONE :: Boxed(3 * r)
  }

  function NumberMeaning(table: seq<Inst>): Meaning {
    Meaning(Numbering(table).compute, Numbered(), (n: nat) => Boxed(3 * n + 1))
  }

  /** Only instructions of the table, and no first content of an absent register. */
  predicate Known(table: seq<Inst>, t: Term) {
    match t
    case Start(r) => r != NONE
    case Made(inst, args) => inst in table && forall i | 0 <= i < |args| :: Known(table, args[i])
    case _ => true
  }

  lemma {:induction false} NumbersArePlain(table: seq<Inst>, t: Term)
    requires Known(table, t)
    ensures Plain(Interp(NumberMeaning(table), t))
  {
    if t.Made? {
      MadeValue(NumberMeaning(table), t.inst, t.args);
    }
  }

  /** Different terms have different numbers. */
  lemma {:induction false} NumbersDiffer(table: seq<Inst>, t: Term, u: Term)
    requires Known(table, t) && Known(table, u)
    requires Interp(NumberMeaning(table), t) == Interp(NumberMeaning(table), u)
    ensures t == u
    decreases t
  {
    var m := NumberMeaning(table);
    if t.Made? { MadeValue(m, t.inst, t.args); }
    if u.Made? { MadeValue(m, u.inst, u.args); }
    if t.Made? && u.Made? {
      var vs, ws := InterpAll(m, t.args), InterpAll(m, u.args);
      PairInjective(IndexIn(table, t.inst), NumVals(vs), IndexIn(table, u.inst), NumVals(ws));
      forall i | 0 <= i < |t.args| ensures Plain(vs[i]) { NumbersArePlain(table, t.args[i]); }
      forall i | 0 <= i < |u.args| ensures Plain(ws[i]) { NumbersArePlain(table, u.args[i]); }
      NumValsInjective(vs, ws);
      forall i | 0 <= i < |t.args| ensures t.args[i] == u.args[i] {
        assert vs[i] == ws[i];
        NumbersDiffer(table, t.args[i], u.args[i]);
      }
    }
  }

  ghost predicate AllKnown(table: seq<Inst>, env: Env) {
    forall r | r in env :: Known(table, env[r])
  }

  lemma OtherTermsOtherValues(table: seq<Inst>, ts: seq<Term>, us: seq<Term>)
    requires |ts| == |us| && ts != us
    requires forall i | 0 <= i < |ts| :: Known(table, ts[i]) && Known(table, us[i])
    ensures InterpAll(NumberMeaning(table), ts) != InterpAll(NumberMeaning(table), us)
  {
    var m := NumberMeaning(table);
    var i :| 0 <= i < |ts| && ts[i] != us[i];
    if Interp(m, ts[i]) == Interp(m, us[i]) {
      NumbersDiffer(table, ts[i], us[i]);
    }
    assert InterpAll(m, ts)[i] != InterpAll(m, us)[i];
  }

  /** Traces that differ in one event stay different, whatever follows. */
  lemma OtherEventsStay(rt: Runtime, p: seq<Inst>, q: seq<Inst>, regs: Registers, regs': Registers,
                        trace: seq<Event>, e: Event, e': Event)
    requires e != e'
    ensures Exec(rt, p, regs, trace + [e]) != Exec(rt, q, regs', trace + [e'])
  {
    TraceGrows(rt, p, regs, trace + [e]);
    TraceGrows(rt, q, regs', trace + [e']);
    assert Exec(rt, p, regs, trace + [e]).trace[|trace|] == e;
    assert Exec(rt, q, regs', trace + [e']).trace[|trace|] == e';
  }

  /** How many events the code has before it returns. */
  function EventCount(p: seq<Inst>): nat {
    if p == [] || p[0].IsReturn() then 0
    else (if Computes(p[0].op) || p[0].op.Label? then 0 else 1) + EventCount(p[1..])
  }

  lemma {:induction false} TraceLength(rt: Runtime, p: seq<Inst>, regs: Registers, trace: seq<Event>)
    ensures |Exec(rt, p, regs, trace).trace| == |trace| + EventCount(p)
  {
    if p != [] && !p[0].IsReturn() {
      var values := GetAll(regs, Reads(p[0]));
      var trace' := Emit(p[0], values, trace);
      TraceLength(rt, p[1..], Assign(p[0], regs, Result(rt, p[0], values, trace')), trace');
    }
  }

  lemma LiveStep(p: seq<Inst>)
    requires p != []
    ensures if IsDead(p) then Live(p) == Live(p[1..]) && !p[0].IsReturn()
            else Live(p) != [] && Live(p)[0] == p[0] && Live(p)[1..] == Live(p[1..])
  {
  }

  lemma {:induction false} LiveHasNoMoreEvents(p: seq<Inst>)
    ensures EventCount(Live(p)) <= EventCount(p)
  {
    if p != [] {
      LiveHasNoMoreEvents(p[1..]);
      LiveStep(p);
    }
  }

  /** An event that is erased is missing in the end. */
  lemma ErasedEventShows(rt: Runtime, p: seq<Inst>, regs: Registers, regs': Registers, trace: seq<Event>)
    requires p != [] && IsDead(p) && !Computes(p[0].op) && !p[0].op.Label? && !p[0].IsReturn()
    ensures Exec(rt, p, regs, trace) != Exec(rt, Live(p), regs', trace)
  {
    TraceLength(rt, p, regs, trace);
    TraceLength(rt, Live(p), regs', trace);
    LiveHasNoMoreEvents(p[1..]);
    assert Live(p) == Live(p[1..]);
  }

  /** regs hold the numbers of env. */
  ghost predicate Numbers(table: seq<Inst>, env: Env, regs: Registers) {
    Models(NumberMeaning(table), env, regs) && AllKnown(table, env)
  }

  lemma NumbersRead(table: seq<Inst>, env: Env, regs: Registers, inst: Inst)
    requires Numbers(table, env, regs)
    ensures GetAll(regs, Reads(inst)) == InterpAll(NumberMeaning(table), LookAll(env, Reads(inst)))
    ensures forall i | 0 <= i < |Reads(inst)| :: Known(table, LookAll(env, Reads(inst))[i])
  {
    ModelsReads(NumberMeaning(table), env, regs, Reads(inst));
  }

  lemma NumbersMade(table: seq<Inst>, env: Env, regs: Registers, inst: Inst)
    requires Numbers(table, env, regs) && inst in table
    ensures Numbers(table, Put(env, inst, Made(inst, LookAll(env, Reads(inst)))),
                    Assign(inst, regs, Numbering(table).compute(inst, GetAll(regs, Reads(inst)))))
  {
    NumbersRead(table, env, regs, inst);
    MadeValue(NumberMeaning(table), inst, LookAll(env, Reads(inst)));
    ModelsPut(NumberMeaning(table), env, regs, inst, Made(inst, LookAll(env, Reads(inst))));
  }

  lemma NumbersAnswer(table: seq<Inst>, env: Env, regs: Registers, inst: Inst, trace: seq<Event>)
    requires Numbers(table, env, regs)
    ensures Numbers(table, Put(env, inst, Answer(|trace|)), Assign(inst, regs, Numbering(table).reply(trace)))
  {
    ModelsPut(NumberMeaning(table), env, regs, inst, Answer(|trace|));
  }

  lemma {:induction false} OtherReadsShow(table: seq<Inst>, p: seq<Inst>, env: Env, env': Env,
                                          regs: Registers, regs': Registers, trace: seq<Event>)
    requires StraightLine(p) && !SameReads(p, env, env', |trace|) && forall inst | inst in p :: inst in table
    requires Numbers(table, env, regs) && Numbers(table, env', regs')
    ensures Exec(Numbering(table), p, regs, trace) != Exec(Numbering(table), Live(p), regs', trace)
    decreases |p|, 1
  {
    var rt, inst, rest := Numbering(table), p[0], p[1..];
    assert inst in p;
    if Computes(inst.op) {
      var next := Assign(inst, regs, rt.compute(inst, GetAll(regs, Reads(inst))));
      var made := Put(env, inst, Made(inst, LookAll(env, Reads(inst))));
      NumbersMade(table, env, regs, inst);
      if IsDead(p) {
        assert Live(p) == Live(rest);
        OtherReadsShow(table, rest, made, env', next, regs', trace);
      } else {
        assert Live(p)[0] == inst && Live(p)[1..] == Live(rest);
        NumbersMade(table, env', regs', inst);
        OtherReadsShow(table, rest, made, Put(env', inst, Made(inst, LookAll(env', Reads(inst)))),
                       next, Assign(inst, regs', rt.compute(inst, GetAll(regs', Reads(inst)))), trace);
      }
    } else {
      OtherReadsShowNow(table, p, env, env', regs, regs', trace);
    }
  }

  lemma {:induction false} OtherReadsShowNow(table: seq<Inst>, p: seq<Inst>, env: Env, env': Env,
                                             regs: Registers, regs': Registers, trace: seq<Event>)
    requires StraightLine(p) && !SameReads(p, env, env', |trace|) && forall inst | inst in p :: inst in table
    requires Numbers(table, env, regs) && Numbers(table, env', regs') && !Computes(p[0].op)
    ensures Exec(Numbering(table), p, regs, trace) != Exec(Numbering(table), Live(p), regs', trace)
    decreases |p|, 0
  {
    var rt, inst, rest := Numbering(table), p[0], p[1..];
    assert inst in p;
    LiveStep(p);
    if inst.op.Label? {
      LabelStep(rt, p, regs, trace);
      LabelStep(rt, Live(p), regs', trace);
      OtherReadsShow(table, rest, env, env', regs, regs', trace);
    } else if IsDead(p) {
      ErasedEventShows(rt, p, regs, regs', trace);
    } else if LookAll(env, Reads(inst)) != LookAll(env', Reads(inst)) {
      NumbersRead(table, env, regs, inst);
      NumbersRead(table, env', regs', inst);
      OtherTermsOtherValues(table, LookAll(env, Reads(inst)), LookAll(env', Reads(inst)));
      OtherValuesShow(rt, p, regs, regs', trace);
    } else {
      OtherReadsShowLater(table, p, Live(p), env, env', regs, regs', trace);
    }
  }

  lemma {:induction false} OtherReadsShowLater(table: seq<Inst>, p: seq<Inst>, q: seq<Inst>, env: Env, env': Env,
                                               regs: Registers, regs': Registers, trace: seq<Event>)
    requires p != [] && q != [] && q[0] == p[0] && q[1..] == Live(p[1..]) && StraightLine(p[1..])
    requires !Computes(p[0].op) && !p[0].op.Label? && !p[0].IsReturn()
    requires var next := |trace| + 1;
             !SameReads(p[1..], Put(env, p[0], Answer(next)), Put(env', p[0], Answer(next)), next)
    requires LookAll(env, Reads(p[0])) == LookAll(env', Reads(p[0])) && forall inst | inst in p[1..] :: inst in table
    requires Numbers(table, env, regs) && Numbers(table, env', regs')
    ensures Exec(Numbering(table), p, regs, trace) != Exec(Numbering(table), q, regs', trace)
    decreases |p| - 1, 2
  {
    var rt, inst, rest := Numbering(table), p[0], p[1..];
    NumbersRead(table, env, regs, inst);
    NumbersRead(table, env', regs', inst);
    var values := GetAll(regs, Reads(inst));
    var trace' := trace + [Event(inst, values)];
    NumbersAnswer(table, env, regs, inst, trace');
    NumbersAnswer(table, env', regs', inst, trace');
    OtherReadsShow(table, rest, Put(env, inst, Answer(|trace'|)), Put(env', inst, Answer(|trace'|)),
                   Assign(inst, regs, rt.reply(trace')), Assign(inst, regs', rt.reply(trace')), trace');
    EventsGoOn(rt, p, q, inst, rest, Live(rest), regs, regs', trace, values);
  }

  lemma EventsGoOn(rt: Runtime, p: seq<Inst>, q: seq<Inst>, inst: Inst, rest: seq<Inst>, rest': seq<Inst>,
                   regs: Registers, regs': Registers, trace: seq<Event>, values: seq<Value>)
    requires p != [] && p[0] == inst && p[1..] == rest && q != [] && q[0] == inst && q[1..] == rest'
    requires !Computes(inst.op) && !inst.op.Label? && !inst.IsReturn()
    requires values == GetAll(regs, Reads(inst)) == GetAll(regs', Reads(inst))
    requires var trace' := trace + [Event(inst, values)]; var v := rt.reply(trace');
             Exec(rt, rest, Assign(inst, regs, v), trace') != Exec(rt, rest', Assign(inst, regs', v), trace')
    ensures Exec(rt, p, regs, trace) != Exec(rt, q, regs', trace)
  {
    EventStep(rt, p, regs, trace, values);
    EventStep(rt, q, regs', trace, values);
  }

  /** An event or return of other values shows at once. */
  lemma OtherValuesShow(rt: Runtime, p: seq<Inst>, regs: Registers, regs': Registers, trace: seq<Event>)
    requires p != [] && !IsDead(p) && !Computes(p[0].op) && !p[0].op.Label?
    requires GetAll(regs, Reads(p[0])) != GetAll(regs', Reads(p[0]))
    ensures Exec(rt, p, regs, trace) != Exec(rt, Live(p), regs', trace)
  {
    var inst, rest := p[0], p[1..];
    LiveStep(p);
    if !inst.IsReturn() {
      var e, e' := Event(inst, GetAll(regs, Reads(inst))), Event(inst, GetAll(regs', Reads(inst)));
      OtherEventsStay(rt, rest, Live(rest), Assign(inst, regs, rt.reply(trace + [e])),
                      Assign(inst, regs', rt.reply(trace + [e'])), trace, e, e');
    }
  }

  lemma NothingPut(m: Meaning)
    ensures Models(m, map[], m.start)
  {
  }

  /**
   Removing dead code keeps every print, every call and every returned value, on every runtime and from
   every start, exactly when both programs read the same terms wherever something is observed.
   */
  lemma EliminationExactCondition(p: seq<Inst>)
    requires StraightLine(p)
    ensures SameReads(p, map[], map[], 0) <==>
            forall rt, regs :: Exec(rt, p, regs, []) == Exec(rt, Live(p), regs, [])
  {
    if SameReads(p, map[], map[], 0) {
      forall rt, regs ensures Exec(rt, p, regs, []) == Exec(rt, Live(p), regs, []) {
        var full := Exec(rt, p, regs, []).trace;
        var m := RunMeaning(rt, regs, full);
        NothingPut(m);
        SameReadsSimulate(rt, m, full, p, map[], map[], regs, regs, []);
      }
    } else {
      var m := NumberMeaning(p);
      NothingPut(m);
      OtherReadsShow(p, p, map[], map[], m.start, m.start, []);
    }
  }

  /** Erasing only what is not needed is enough for that. */
  lemma UnneededErasuresReadSame(p: seq<Inst>)
    requires StraightLine(p) && ErasesUnneeded(p)
    ensures SameReads(p, map[], map[], 0)
  {
    forall rt, regs ensures Exec(rt, p, regs, []) == Exec(rt, Live(p), regs, []) {
      EliminationPreserves(rt, p, regs, regs, []);
    }
    EliminationExactCondition(p);
  }

  /** The program that loses the definition it reads itself does not read the same terms. */
  lemma SelfReadReadsOther()
    ensures StraightLine(SELF_READ) && !SameReads(SELF_READ, map[], map[], 0) && !ErasesUnneeded(SELF_READ)
  {
    SelfReadBreaksElimination();
    assert SELF_READ == [LoadSeven(1), Op2(Mov, 2, 3, NONE), Op2(Add, 1, 1, 2), Op2(PrintInt, NONE, 1, NONE)];
    assert Exec(ECHO, SELF_READ, map[], []) != Exec(ECHO, Live(SELF_READ), map[], []);
    EliminationExactCondition(SELF_READ);
    if ErasesUnneeded(SELF_READ) {
      UnneededErasuresReadSame(SELF_READ);
    }
  }
}
