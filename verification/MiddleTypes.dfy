/** Which types conversions compose through: the plain ones, and hardly any others. */
module MiddleTypes {
  import opened Types

  /** A yes to b and a yes from b never go with a no. */
  ghost predicate Composes(reg: Registry, b: Type) {
    forall a, c | Registered(a) && Registered(c) && Answers(reg, a, b, Yes) && Answers(reg, b, c, Yes) ::
      !Answers(reg, a, c, No)
  }

  /** No part and no rule that calls for one. */
  predicate Atom(s: Shape) {
    s.Bool? || s.Integer? || s.Float? || s.Other? || s.Frame? || s.Trait? || s.Enum?
  }

  predicate Container(s: Shape) {
    s.Structural? || s.List? || s.Dict? || s.Tuple? || s.ErrorUnion? || s.Function?
  }

  predicate DistinctNames(fs: seq<Field>) {
    forall i, j | 0 <= i < j < |fs| :: fs[i].name != fs[j].name
  }

  /** Member i may be a container or untyped, the others are atoms, as in an optional T?. */
  predicate OneAmongAtoms(ms: seq<Type>, i: nat) {
    && i < |ms| && !ms[i].shape.Refined? && !ms[i].shape.Union?
    && forall k | 0 <= k < |ms| && k != i :: Atom(ms[k].shape)
  }

  /**
   Whatever inside is not plain lies under no union, but for a single member among atoms, and under no
   structural type that names a field twice.
   */
  predicate Settled(t: Type)
    decreases Size(t)
  {
    Plain(t) ||
    (&& (t.shape.Structural? ==> DistinctNames(t.shape.fields))
     && (t.shape.Union? ==> exists i | 0 <= i < |t.shape.members| :: OneAmongAtoms(t.shape.members, i))
     && forall i | 0 <= i < |Parts(t)| :: (PartSmaller(t, i); Settled(Parts(t)[i])))
  }

  /** a converts to b and b to c, but a does not convert to c. */
  predicate Breaks(reg: Registry, d: nat, a: Type, b: Type, c: Type) {
    && Registered(a) && Registered(c) && Container(a.shape) && (Container(c.shape) || c.shape.Union?)
    && CanConvert(reg, d, a, b).Yes? && CanConvert(reg, d, b, c).Yes? && CanConvert(reg, d, a, c).No?
  }

  // ---------- Exchanging one part ----------

  /** t with another type in the place of part i. */
  function WithPart(t: Type, i: nat, x: Type): Type
    requires Container(t.shape) && i < |Parts(t)|
  {
    t.(shape :=
      match t.shape
      case Structural(fields) => Structural(fields[i := fields[i].(typ := x)])
      case List(_) => List(x)
      case Dict(key, value) => if i == 0 then Dict(x, value) else Dict(key, x)
      case Tuple(elements) => Tuple(elements[i := x])
      case ErrorUnion(_, errors, generic) => ErrorUnion(x, errors, generic)
      case Function(params, result) => if i < |params| then Function(params[i := x], result) else Function(params, x))
  }

  lemma WithPartParts(t: Type, i: nat, x: Type)
    requires Container(t.shape) && i < |Parts(t)|
    ensures Container(WithPart(t, i, x).shape) && Parts(WithPart(t, i, x)) == Parts(t)[i := x]
    ensures WithPart(t, i, Parts(t)[i]) == t
  {
    var p := Parts(t)[i];
    match t.shape
    case Structural(fields) => assert fields[i := fields[i].(typ := p)] == fields;
    case Tuple(elements) => assert elements[i := p] == elements;
    case Function(params, result) => if i < |params| { assert params[i := p] == params; }
    case _ =>
  }

  lemma WithPartRegistered(t: Type, i: nat, x: Type)
    requires Container(t.shape) && i < |Parts(t)| && Registered(t) && Registered(x)
    ensures Registered(WithPart(t, i, x))
  {
    WithPartParts(t, i, x);
    var w := WithPart(t, i, x);
    forall k | 0 <= k < |Parts(w)| ensures Registered(Parts(w)[k]) {
      if k != i { PartsOk(t, k); }
    }
  }

  lemma {:induction false} OneDecides(vs: seq<Verdict>, i: nat)
    requires i < |vs| && forall k | 0 <= k < |vs| && k != i :: vs[k].Yes?
    ensures AllOf(vs) == vs[i]
  {
    if i == 0 {
      AllOfYes(vs[1..]);
    } else {
      OneDecides(vs[1..], i - 1);
    }
  }

  /** Where a part of a parameter list is exchanged the conversion turns round, and a structural type asks one deeper. */
  predicate TurnsRound(t: Type, i: nat) { t.shape.Function? && i < |t.shape.params| }

  function Below(t: Type, d: nat): nat { if t.shape.Structural? then d + 1 else d }

  /** Between two types that differ in one part, the answer is that of the part. */
  lemma PartDecides(reg: Registry, d: nat, t: Type, i: nat, x: Type, y: Type)
    requires Container(t.shape) && i < |Parts(t)| && !CanConvert(reg, d, x, y).Deep?
    requires t.shape.Structural? ==> DistinctNames(t.shape.fields)
    ensures var a, b := WithPart(t, i, x), WithPart(t, i, y);
            (if TurnsRound(t, i) then CanConvert(reg, Below(t, d), b, a) else CanConvert(reg, Below(t, d), a, b))
            == CanConvert(reg, d, x, y)
  {
    if x == y { return; }
    match t.shape
    case Structural(_) => FieldDecides(reg, d, t, i, x, y);
    case Tuple(_) => ElementDecides(reg, d, t, i, x, y);
    case Function(_, _) => if TurnsRound(t, i) { ParamDecides(reg, d, t, i, x, y); } else { ResultDecides(reg, d, t, i, x, y); }
    case ErrorUnion(_, _, _) => ToErrorUnionRule(reg, d, WithPart(t, i, x), WithPart(t, i, y));
    case _ =>
  }

  lemma FieldDecides(reg: Registry, d: nat, t: Type, i: nat, x: Type, y: Type)
    requires t.shape.Structural? && i < |t.shape.fields| && x != y && DistinctNames(t.shape.fields)
    ensures CanConvert(reg, d + 1, WithPart(t, i, x), WithPart(t, i, y)) == CanConvert(reg, d, x, y)
  {
    var a, b := WithPart(t, i, x), WithPart(t, i, y);
    assert a.shape.fields[i].typ == x && b.shape.fields[i].typ == y;
    ToStructuralRule(reg, d + 1, a, b);
    var vs := FieldsTo(reg, d + 1, a, b);
    forall k | 0 <= k < |vs| ensures vs[k] == if k == i then CanConvert(reg, d, x, y) else Yes {
      var j := First(a.shape.fields, b.shape.fields[k].name);
      assert a.shape.fields[k].name == b.shape.fields[k].name == t.shape.fields[k].name;
      assert j < |a.shape.fields| ==> t.shape.fields[j].name == a.shape.fields[j].name;
      assert j == k;
    }
    OneDecides(vs, i);
  }

  lemma ElementDecides(reg: Registry, d: nat, t: Type, i: nat, x: Type, y: Type)
    requires t.shape.Tuple? && i < |t.shape.elements| && x != y
    ensures CanConvert(reg, d, WithPart(t, i, x), WithPart(t, i, y)) == CanConvert(reg, d, x, y)
  {
    var a, b := WithPart(t, i, x), WithPart(t, i, y);
    assert a.shape.elements[i] == x && b.shape.elements[i] == y;
    TupleRule(reg, d, a, b);
    OneDecides(ElementsTo(reg, d, a, b), i);
  }

  lemma ParamDecides(reg: Registry, d: nat, t: Type, i: nat, x: Type, y: Type)
    requires t.shape.Function? && i < |t.shape.params| && x != y && !CanConvert(reg, d, x, y).Deep?
    ensures CanConvert(reg, d, WithPart(t, i, y), WithPart(t, i, x)) == CanConvert(reg, d, x, y)
  {
    var a, b := WithPart(t, i, y), WithPart(t, i, x);
    assert a.shape.params[i] == y && b.shape.params[i] == x;
    FunctionRule(reg, d, a, b);
    OneDecides(ParamsTo(reg, d, a, b), i);
  }

  lemma ResultDecides(reg: Registry, d: nat, t: Type, i: nat, x: Type, y: Type)
    requires t.shape.Function? && i == |t.shape.params| && x != y
    ensures CanConvert(reg, d, WithPart(t, i, x), WithPart(t, i, y)) == CanConvert(reg, d, x, y)
  {
    var a, b := WithPart(t, i, x), WithPart(t, i, y);
    FunctionRule(reg, d, a, b);
    AllOfYes(ParamsTo(reg, d, a, b));
  }

  // ---------- Breaking pairs ----------

  lemma AnyBreaks(reg: Registry, d: nat, x: Type, any: Type)
    requires any.shape.Any? && x.shape.Decimal?
    ensures Breaks(reg, d, Type(0, ErrorUnion(x, [], true)), any, Type(0, ErrorUnion(any, [], false)))
  {
    var a, c := Type(0, ErrorUnion(x, [], true)), Type(0, ErrorUnion(any, [], false));
    ToErrorUnionRule(reg, d, any, c);
    ToErrorUnionRule(reg, d, a, c);
  }

  lemma TagBreaks(reg: Registry, d: nat, x: Type, z: Type, b: Type) returns (a: Type, c: Type)
    requires Untyped(b.shape) && !b.shape.Any?
    requires x.shape.Decimal? && z.shape.Decimal? && x.shape.scale != z.shape.scale
    ensures Breaks(reg, d, a, b, c)
  {
    match b.shape
    case AnyList => a, c := Type(0, List(x)), Type(0, List(z));
    case AnyDict => a, c := Type(0, Dict(x, x)), Type(0, Dict(z, z));
    case AnyTuple => a, c := Type(0, Tuple([])), Type(0, Tuple([x]));
    case AnyFunction =>
      a, c := Type(0, Function([], x)), Type(0, Function([], z));
      FunctionRule(reg, d, a, c);
  }

  lemma UntypedBreaks(reg: Registry, b: Type) returns (a: Type, c: Type)
    requires Untyped(b.shape)
    ensures Breaks(reg, 0, a, b, c)
  {
    var x, z := Type(0, Decimal(0)), Type(0, Decimal(1));
    if b.shape.Any? {
      AnyBreaks(reg, 0, x, b);
      return Type(0, ErrorUnion(x, [], true)), Type(0, ErrorUnion(b, [], false));
    }
    a, c := TagBreaks(reg, 0, x, z, b);
  }

  lemma PartBreaks(reg: Registry, d: nat, x: Type, b: Type, z: Type, i: nat)
    requires Container(b.shape) && Registered(b) && i < |Parts(b)| && Breaks(reg, d, x, Parts(b)[i], z)
    requires b.shape.Structural? ==> DistinctNames(b.shape.fields)
    ensures var v, w := WithPart(b, i, x), WithPart(b, i, z);
            if TurnsRound(b, i) then Breaks(reg, Below(b, d), w, b, v) else Breaks(reg, Below(b, d), v, b, w)
  {
    WithPartParts(b, i, x);
    WithPartParts(b, i, z);
    WithPartRegistered(b, i, x);
    WithPartRegistered(b, i, z);
    PartDecides(reg, d, b, i, x, Parts(b)[i]);
    PartDecides(reg, d, b, i, Parts(b)[i], z);
    PartDecides(reg, d, b, i, x, z);
  }

  lemma RefinedBreaks(reg: Registry, d: nat, a: Type, b: Type, c: Type)
    requires b.shape.Refined? && Breaks(reg, d, a, b.shape.base, c)
    ensures Breaks(reg, d, a, b, c)
  {
    RefinedRule(reg, d, a, b);
    RefinedRule(reg, d, b, c);
  }

  // A union of one such member and atoms.

  lemma {:induction false} FirstDecides(vs: seq<Verdict>, i: nat)
    requires i < |vs| && forall k | 0 <= k < i :: vs[k].No?
    ensures vs[i].No? || AnyOf(vs) == vs[i]
  {
    if i > 0 { FirstDecides(vs[1..], i - 1); }
  }

  lemma {:induction false} SomeYes(vs: seq<Verdict>, i: nat)
    requires i < |vs| && vs[i].Yes? && forall k | 0 <= k < i :: !vs[k].Deep?
    ensures AnyOf(vs).Yes?
  {
    if i > 0 { SomeYes(vs[1..], i - 1); }
  }

  lemma {:induction false} NoneYes(vs: seq<Verdict>)
    requires forall k | 0 <= k < |vs| :: vs[k].No?
    ensures AnyOf(vs).No?
  {
    if vs != [] { NoneYes(vs[1..]); }
  }

  lemma NotToAtom(reg: Registry, d: nat, x: Type, m: Type)
    requires (Container(x.shape) || Untyped(x.shape)) && Atom(m.shape)
    ensures CanConvert(reg, d, x, m).No?
  {
  }

  function Without(ms: seq<Type>, i: nat): seq<Type>
    requires i < |ms|
  {
    ms[..i] + ms[i + 1..]
  }

  lemma AtomJoins(reg: Registry, d: nat, atoms: seq<Type>, z: Type, u: Type, k: nat)
    requires k < |atoms| && (forall j | 0 <= j < |atoms| :: Atom(atoms[j].shape))
    requires u.shape == Union(atoms + [z])
    ensures CanConvert(reg, d, atoms[k], u).Yes?
  {
    ToUnionRule(reg, d, atoms[k], u);
    forall j | 0 <= j < k ensures !ToMembers(reg, d, atoms[k], u)[j].Deep? {
      AnsweredAtOnce(reg, d, d, atoms[k], atoms[j]);
    }
    SomeYes(ToMembers(reg, d, atoms[k], u), k);
  }

  /** What is no atom goes to such a union as it goes to its last member. */
  lemma LastDecides(reg: Registry, d: nat, x: Type, atoms: seq<Type>, z: Type, u: Type)
    requires (Container(x.shape) || Untyped(x.shape)) && (forall j | 0 <= j < |atoms| :: Atom(atoms[j].shape))
    requires u.shape == Union(atoms + [z])
    ensures CanConvert(reg, d, x, u) == CanConvert(reg, d, x, z)
  {
    ToUnionRule(reg, d, x, u);
    var vs := ToMembers(reg, d, x, u);
    forall j | 0 <= j < |atoms| ensures vs[j].No? {
      NotToAtom(reg, d, x, atoms[j]);
    }
    FirstDecides(vs, |atoms|);
    if vs[|atoms|].No? { NoneYes(vs); }
  }

  lemma UnionBreaks(reg: Registry, d: nat, a: Type, b: Type, z: Type, i: nat) returns (c: Type)
    requires b.shape.Union? && Registered(b) && OneAmongAtoms(b.shape.members, i)
    requires Container(b.shape.members[i].shape) || Untyped(b.shape.members[i].shape)
    requires Breaks(reg, d, a, b.shape.members[i], z)
    ensures Breaks(reg, d, a, b, c)
  {
    var ms := b.shape.members;
    var atoms := Without(ms, i);
    c := Type(0, Union(atoms + [z]));
    LastDecides(reg, d, a, atoms, z, c);
    ToUnionRule(reg, d, a, b);
    forall k | 0 <= k < i ensures ToMembers(reg, d, a, b)[k].No? { NotToAtom(reg, d, a, ms[k]); }
    FirstDecides(ToMembers(reg, d, a, b), i);
    MembersJoin(reg, d, b, i, z, c);
    forall k | 0 <= k < |Parts(c)| ensures Registered(Parts(c)[k]) {
      if k < |atoms| { PartsOk(b, if k < i then k else k + 1); }
    }
  }

  lemma MembersJoin(reg: Registry, d: nat, b: Type, i: nat, z: Type, c: Type)
    requires b.shape.Union? && OneAmongAtoms(b.shape.members, i)
    requires Container(b.shape.members[i].shape) || Untyped(b.shape.members[i].shape)
    requires c.shape == Union(Without(b.shape.members, i) + [z]) && CanConvert(reg, d, b.shape.members[i], z).Yes?
    ensures CanConvert(reg, d, b, c).Yes?
  {
    if b == c { return; }
    var ms := b.shape.members;
    FromUnionRule(reg, d, b, c);
    var vs := MembersTo(reg, d, b, c);
    forall k | 0 <= k < |vs| ensures vs[k].Yes? {
      if k == i {
        LastDecides(reg, d, ms[i], Without(ms, i), z, c);
      } else {
        AtomJoins(reg, d, Without(ms, i), z, c, if k < i then k else k - 1);
      }
    }
    AllOfYes(vs);
  }

  // ---------- The exact condition ----------

  lemma UnplainShape(b: Type)
    requires Registered(b) && !Plain(b)
    ensures Untyped(b.shape) || Container(b.shape) || b.shape.Refined? || b.shape.Union?
    ensures !Untyped(b.shape) ==> exists i | 0 <= i < |Parts(b)| :: !Plain(Parts(b)[i])
  {
  }

  /** Around every settled type that is not plain there are two types that show it. */
  lemma {:induction false} BreakingPair(reg: Registry, b: Type) returns (d: nat, a: Type, c: Type)
    requires Registered(b) && Settled(b) && !Plain(b)
    ensures Breaks(reg, d, a, b, c)
    decreases Size(b)
  {
    UnplainShape(b);
    if Untyped(b.shape) {
      a, c := UntypedBreaks(reg, b);
      return 0, a, c;
    }
    var i :| 0 <= i < |Parts(b)| && !Plain(Parts(b)[i]);
    PartsOk(b, i);
    d, a, c := BreakingPair(reg, Parts(b)[i]);
    if b.shape.Refined? {
      RefinedBreaks(reg, d, a, b, c);
    } else if b.shape.Union? {
      UnplainShape(Parts(b)[i]);
      var k :| 0 <= k < |b.shape.members| && OneAmongAtoms(b.shape.members, k);
      assert k == i;
      c := UnionBreaks(reg, d, a, b, c, i);
    } else {
      PartBreaks(reg, d, a, b, c, i);
      if TurnsRound(b, i) {
        return Below(b, d), WithPart(b, i, c), WithPart(b, i, a);
      }
      return Below(b, d), WithPart(b, i, a), WithPart(b, i, c);
    }
  }

  /** Conversions compose through a settled type exactly when it is plain. */
  lemma TransitivityExactCondition(reg: Registry, b: Type)
    requires AllRegistered(reg) && Registered(b) && Settled(b)
    ensures Plain(b) <==> Composes(reg, b)
  {
    if Plain(b) {
      forall a, c | Registered(a) && Registered(c) && Answers(reg, a, b, Yes) && Answers(reg, b, c, Yes)
        ensures !Answers(reg, a, c, No)
      {
        if Answers(reg, a, c, No) {
          var d: nat :| CanConvert(reg, d, a, b) == Yes;
          var e: nat :| CanConvert(reg, e, b, c) == Yes;
          var f: nat :| CanConvert(reg, f, a, c) == No;
          Transitive(reg, d, e, f, a, b, c);
        }
      }
    } else {
      var d, a, c := BreakingPair(reg, b);
      assert Answers(reg, a, b, Yes) && Answers(reg, b, c, Yes) && Answers(reg, a, c, No);
    }
  }

  // ---------- Other unions ----------

  const INTEGER := Type(1, Integer(0))
  const MONEY := Type(2, Decimal(2))
  const LIST := Type(3, AnyList)
  const INTEGERS := Type(4, List(INTEGER))
  const BOOLEANS := Type(5, List(Type(6, Bool)))

  lemma ListInUnion(b: Type, s: Type)
    requires b.shape == Union([LIST, s]) && s.shape.Union?
    ensures !Settled(b) && !Plain(b)
  {
    assert Parts(b)[0] == LIST && !IsDecimal(LIST) && !IsDecimal(s);
    assert !Plain(LIST);
    assert b.shape.members[0] == LIST && b.shape.members[1] == s && |b.shape.members| == 2;
    forall i | 0 <= i < |b.shape.members| ensures !OneAmongAtoms(b.shape.members, i) {
      assert b.shape.members[1] == s;
    }
  }

  /** Under a union of other members an untyped list can do no harm. */
  lemma UnsettledMayCompose(reg: Registry)
    ensures var b := Type(8, Union([LIST, Type(7, Union([MONEY]))]));
            !Settled(b) && !Plain(b) && Composes(reg, b)
  {
    var s := Type(7, Union([MONEY]));
    var b := Type(8, Union([LIST, s]));
    ListInUnion(b, s);
    forall e: nat, c | c != b && !c.shape.Any? && !c.shape.Decimal? && !c.shape.Refined? ensures !CanConvert(reg, e, b, c).Yes? {
      NotBoth(reg, e, b, s, c);
    }
    forall a, c | Registered(a) && Registered(c) && Answers(reg, a, b, Yes) && Answers(reg, b, c, Yes)
      ensures !Answers(reg, a, c, No)
    {
      if Answers(reg, a, c, No) {
        var d: nat :| CanConvert(reg, d, a, b) == Yes;
        var e: nat :| CanConvert(reg, e, b, c) == Yes;
        var f: nat :| CanConvert(reg, f, a, c) == No;
        TransitiveNowhere(reg, d, e, f, a, b, c);
      }
    }
  }

  lemma NotBoth(reg: Registry, e: nat, b: Type, s: Type, c: Type)
    requires s.shape == Union([MONEY]) && b.shape == Union([LIST, s])
    requires c != b && !c.shape.Any? && !c.shape.Decimal? && !c.shape.Refined?
    ensures !CanConvert(reg, e, b, c).Yes?
  {
    FromUnionRule(reg, e, b, c);
    var vs := MembersTo(reg, e, b, c);
    AllOfYes(vs);
    assert vs[0] == CanConvert(reg, e, LIST, c) && vs[1] == CanConvert(reg, e, s, c);
    if s == c {
      ToUnionRule(reg, e, LIST, c);
      NoneYes(ToMembers(reg, e, LIST, c));
    } else {
      assert IsDecimal(s.shape.members[0]);
      SealedGoesNowhere(reg, s);
    }
  }

  /** And it can do harm although a decimal is hidden in the union. */
  lemma HiddenDecimalMayBreak(reg: Registry, d: nat)
    ensures var c := Type(7, Union([INTEGERS, MONEY]));
            var b := Type(8, Union([LIST, c]));
            && !Settled(b) && !Plain(b) && HidesDecimal(b)
            && CanConvert(reg, d, BOOLEANS, b).Yes? && CanConvert(reg, d, b, c).Yes? && CanConvert(reg, d, BOOLEANS, c).No?
  {
    var c := Type(7, Union([INTEGERS, MONEY]));
    var b := Type(8, Union([LIST, c]));
    ListInUnion(b, c);
    Lists(reg, d, c);
    ToUnionRule(reg, d, BOOLEANS, b);
    SomeYes(ToMembers(reg, d, BOOLEANS, b), 0);
    FromUnionRule(reg, d, b, c);
    AllOfYes(MembersTo(reg, d, b, c));
    assert HidesDecimal(c.shape.members[1]);
    assert HidesDecimal(b.shape.members[1]);
  }

  lemma Lists(reg: Registry, d: nat, c: Type)
    requires c.shape == Union([INTEGERS, MONEY])
    ensures CanConvert(reg, d, LIST, c).Yes? && CanConvert(reg, d, BOOLEANS, c).No?
  {
    ToUnionRule(reg, d, LIST, c);
    SomeYes(ToMembers(reg, d, LIST, c), 0);
    ToUnionRule(reg, d, BOOLEANS, c);
    assert CanConvert(reg, d, BOOLEANS, INTEGERS) == CanConvert(reg, d, Type(6, Bool), INTEGER) == No;
    NoneYes(ToMembers(reg, d, BOOLEANS, c));
  }
}
