/**
 The convertibility check of src/backend/types.hh. A type carries the identity of its object, because the
 source compares shared pointers: two equal-looking types with different identities are different types.
 */
module Types {

  datatype Type = Type(id: nat, shape: Shape)

  datatype Field = Field(name: string, typ: Type)

  datatype Shape =
    | Any
    | Decimal(scale: nat)
    | Bool
    | Integer(tag: nat)                 // Int to Int128, UInt to UInt128
    | Float(tag: nat)
    | Other(tag: nat)                   // nil, string, closure, sum, range, channel, object, module, ...
    | Frame(name: string, local: seq<Field>)
    | Trait(name: string)
    | Enum(name: string)
    | Refined(base: Type)
    | Structural(fields: seq<Field>)
    | List(element: Type)
    | Dict(key: Type, value: Type)
    | Tuple(elements: seq<Type>)
    | Union(members: seq<Type>)
    | ErrorUnion(success: Type, errors: seq<string>, generic: bool)
    | Function(params: seq<Type>, result: Type)
    | AnyList | AnyDict | AnyTuple | AnyFunction   // the tag without element types

  // ---------- Parts and size ----------

  function Size(t: Type): nat {
    1 + match t.shape
        case Refined(base) => Size(base)
        case Structural(fields) => SizeFields(fields)
        case Frame(_, local) => SizeFields(local)
        case List(element) => Size(element)
        case Dict(key, value) => Size(key) + Size(value)
        case Tuple(elements) => SizeAll(elements)
        case Union(members) => SizeAll(members)
        case ErrorUnion(success, _, _) => Size(success)
        case Function(params, result) => SizeAll(params) + Size(result)
        case _ => 0
  }

  function SizeAll(ts: seq<Type>): nat {
    if ts == [] then 0 else Size(ts[0]) + SizeAll(ts[1..])
  }

  function SizeFields(fs: seq<Field>): nat {
    if fs == [] then 0 else Size(fs[0].typ) + SizeFields(fs[1..])
  }

  lemma {:induction false} ElementSmaller(ts: seq<Type>, i: nat)
    requires i < |ts|
    ensures Size(ts[i]) <= SizeAll(ts)
  {
    if i > 0 { ElementSmaller(ts[1..], i - 1); }
  }

  lemma {:induction false} FieldSmaller(fs: seq<Field>, i: nat)
    requires i < |fs|
    ensures Size(fs[i].typ) <= SizeFields(fs)
  {
    if i > 0 { FieldSmaller(fs[1..], i - 1); }
  }

  function FieldTypes(fs: seq<Field>): seq<Type> {
    seq(|fs|, i requires 0 <= i < |fs| => fs[i].typ)
  }

  /** The types a type is made of. */
  function Parts(t: Type): seq<Type> {
    match t.shape
    case Refined(base) => [base]
    case Structural(fields) => FieldTypes(fields)
    case Frame(_, local) => FieldTypes(local)
    case List(element) => [element]
    case Dict(key, value) => [key, value]
    case Tuple(elements) => elements
    case Union(members) => members
    case ErrorUnion(success, _, _) => [success]
    case Function(params, result) => params + [result]
    case _ => []
  }

  lemma PartSmaller(t: Type, i: nat)
    requires i < |Parts(t)|
    ensures Size(Parts(t)[i]) < Size(t)
  {
    match t.shape
    case Structural(fields) => FieldSmaller(fields, i);
    case Frame(_, local) => FieldSmaller(local, i);
    case Tuple(elements) => ElementSmaller(elements, i);
    case Union(members) => ElementSmaller(members, i);
    case Function(params, result) => if i < |params| { ElementSmaller(params, i); }
    case _ =>
  }

  // ---------- Verdicts ----------

  /** The answer of a call, or Deep when it was cut off. */
  datatype Verdict = Yes | No | Deep

  function FromBool(b: bool): Verdict { if b then Yes else No }

  /** v && w: the right-hand call is made only after a yes. */
  function Then(v: Verdict, w: Verdict): Verdict { if v.Yes? then w else v }

  /** Calls made one after the other until one does not say yes. */
  function AllOf(vs: seq<Verdict>): Verdict {
    if vs == [] then Yes else Then(vs[0], AllOf(vs[1..]))
  }

  /** Calls made one after the other until one does not say no. */
  function AnyOf(vs: seq<Verdict>): Verdict {
    if vs == [] then No else if vs[0].No? then AnyOf(vs[1..]) else vs[0]
  }

  /** w says at least what v says. */
  predicate Refines(v: Verdict, w: Verdict) { v.Deep? || v == w }

  predicate AllRefine(vs: seq<Verdict>, ws: seq<Verdict>) {
    |vs| == |ws| && forall i | 0 <= i < |vs| :: Refines(vs[i], ws[i])
  }

  lemma {:induction false} AllOfYes(vs: seq<Verdict>)
    ensures AllOf(vs).Yes? <==> forall i | 0 <= i < |vs| :: vs[i].Yes?
  {
    if vs != [] {
      AllOfYes(vs[1..]);
      assert forall i | 0 < i < |vs| :: vs[i] == vs[1..][i - 1];
    }
  }

  lemma {:induction false} AllOfNotNo(vs: seq<Verdict>)
    requires forall i | 0 <= i < |vs| :: !vs[i].No?
    ensures !AllOf(vs).No?
  {
    if vs != [] { AllOfNotNo(vs[1..]); }
  }

  lemma {:induction false} AllOfEnds(vs: seq<Verdict>)
    requires forall i | 0 <= i < |vs| :: !vs[i].Deep?
    ensures !AllOf(vs).Deep?
  {
    if vs != [] { AllOfEnds(vs[1..]); }
  }

  lemma {:induction false} AllOfRefines(vs: seq<Verdict>, ws: seq<Verdict>)
    requires AllRefine(vs, ws)
    ensures Refines(AllOf(vs), AllOf(ws))
  {
    if vs != [] { AllOfRefines(vs[1..], ws[1..]); }
  }

  lemma {:induction false} AnyOfYes(vs: seq<Verdict>) returns (i: nat)
    requires AnyOf(vs).Yes?
    ensures i < |vs| && vs[i].Yes?
  {
    i := 0;
    if vs[0].No? {
      i := AnyOfYes(vs[1..]);
      i := i + 1;
    }
  }

  lemma {:induction false} AnyOfNotNo(vs: seq<Verdict>, i: nat)
    requires i < |vs| && !vs[i].No?
    ensures !AnyOf(vs).No?
  {
    if i > 0 { AnyOfNotNo(vs[1..], i - 1); }
  }

  lemma {:induction false} AnyOfEnds(vs: seq<Verdict>)
    requires forall i | 0 <= i < |vs| :: !vs[i].Deep?
    ensures !AnyOf(vs).Deep?
  {
    if vs != [] { AnyOfEnds(vs[1..]); }
  }

  lemma {:induction false} AnyOfRefines(vs: seq<Verdict>, ws: seq<Verdict>)
    requires AllRefine(vs, ws)
    ensures Refines(AnyOf(vs), AnyOf(ws))
  {
    if vs != [] { AnyOfRefines(vs[1..], ws[1..]); }
  }

  // ---------- The check ----------

  /** The index of the first field of that name, or |fs|. */
  function First(fs: seq<Field>, name: string): (i: nat)
    ensures i <= |fs| && (i < |fs| ==> fs[i].name == name)
    ensures forall k | 0 <= k < i :: fs[k].name != name
  {
    if fs == [] then 0 else if fs[0].name == name then 0 else 1 + First(fs[1..], name)
  }

  /** Which frames implement which traits, and the fields that were registered for a frame. */
  datatype Registry = Registry(implements: set<(string, string)>, fields: map<string, seq<Field>>)

  /** Where the fields of a structural type or a frame are looked up: in the type, then in the registry. */
  function Offered(reg: Registry, f: Shape): seq<Field>
    requires f.Structural? || f.Frame?
  {
    if f.Structural? then f.fields
    else f.local + if f.name in reg.fields then reg.fields[f.name] else []
  }

  predicate IsList(s: Shape) { s.List? || s.AnyList? }
  predicate IsDict(s: Shape) { s.Dict? || s.AnyDict? }
  predicate IsTuple(s: Shape) { s.Tuple? || s.AnyTuple? }
  predicate IsFunction(s: Shape) { s.Function? || s.AnyFunction? }

  /**
   The call canConvert(from, to), cut off where more than d structural targets are nested in each other. An
   answer other than Deep is the answer of the source; a call that is Deep for every d never ends.
   */
  function CanConvert(reg: Registry, d: nat, from: Type, to: Type): Verdict
    decreases d, Size(from) + Size(to), 1
  {
    var f, t := from.shape, to.shape;
    if from == to || t.Any? then Yes
    else if f.Decimal? || t.Decimal? then FromBool(f.Decimal? && t.Decimal? && f.scale == t.scale)
    else if f.Bool? && t.Bool? then Yes
    else if f.Frame? && t.Trait? && (f.name, t.name) in reg.implements then Yes
    else if f.Frame? && t.Frame? then FromBool(f.name == t.name)
    else if f.Enum? && t.Enum? then FromBool(f.name == t.name)
    else if f.Refined? then CanConvert(reg, d, f.base, to)
    else if t.Refined? then CanConvert(reg, d, from, t.base)
    else if (f.Structural? || f.Frame?) && t.Structural? then
      if d == 0 then Deep else AllOf(FieldsTo(reg, d, from, to))
    else if f.Integer? && t.Integer? then Yes
    else if f.Float? && t.Float? then Yes
    else if IsList(f) && IsList(t) then
      if f.AnyList? || t.AnyList? then Yes else CanConvert(reg, d, f.element, t.element)
    else if IsDict(f) && IsDict(t) then
      if f.AnyDict? || t.AnyDict? then Yes
      else Then(CanConvert(reg, d, f.key, t.key), CanConvert(reg, d, f.value, t.value))
    else if IsTuple(f) && IsTuple(t) then
      if f.AnyTuple? || t.AnyTuple? then Yes
      else if |f.elements| != |t.elements| then No
      else AllOf(ElementsTo(reg, d, from, to))
    else if f.Union? then AllOf(MembersTo(reg, d, from, to))
    else if t.Union? then AnyOf(ToMembers(reg, d, from, to))
    else if f.ErrorUnion? && t.ErrorUnion? then
      Then(CanConvert(reg, d, f.success, t.success), FromBool(ErrorsFit(f, t)))
    else if t.ErrorUnion? then CanConvert(reg, d, from, t.success)
    else if IsFunction(f) && IsFunction(t) then
      if f.AnyFunction? || t.AnyFunction? then Yes
      else if |f.params| != |t.params| then No
      else Then(AllOf(ParamsTo(reg, d, from, to)), CanConvert(reg, d, f.result, t.result))
    else No
  }

  predicate ErrorsFit(f: Shape, t: Shape)
    requires f.ErrorUnion? && t.ErrorUnion?
  {
    t.generic || (!f.generic && forall e | e in f.errors :: e in t.errors)
  }

  /** For each field asked for: whether it is offered, and with a type that converts. */
  function FieldsTo(reg: Registry, d: nat, from: Type, to: Type): (r: seq<Verdict>)
    requires d > 0 && (from.shape.Structural? || from.shape.Frame?) && to.shape.Structural?
    decreases d, Size(from) + Size(to), 0
  {
    var f, t := Offered(reg, from.shape), to.shape.fields;
    seq(|t|, k requires 0 <= k < |t| =>
      var i := First(f, t[k].name);
      if i < |f| then CanConvert(reg, d - 1, f[i].typ, t[k].typ) else No)
  }

  function ElementsTo(reg: Registry, d: nat, from: Type, to: Type): (r: seq<Verdict>)
    requires from.shape.Tuple? && to.shape.Tuple? && |from.shape.elements| == |to.shape.elements|
    decreases d, Size(from) + Size(to), 0
  {
    var f, t := from.shape.elements, to.shape.elements;
    seq(|f|, i requires 0 <= i < |f| =>
      (ElementSmaller(f, i); ElementSmaller(t, i); CanConvert(reg, d, f[i], t[i])))
  }

  function MembersTo(reg: Registry, d: nat, from: Type, to: Type): (r: seq<Verdict>)
    requires from.shape.Union?
    decreases d, Size(from) + Size(to), 0
  {
    var f := from.shape.members;
    seq(|f|, i requires 0 <= i < |f| => (ElementSmaller(f, i); CanConvert(reg, d, f[i], to)))
  }

  function ToMembers(reg: Registry, d: nat, from: Type, to: Type): (r: seq<Verdict>)
    requires to.shape.Union?
    decreases d, Size(from) + Size(to), 0
  {
    var t := to.shape.members;
    seq(|t|, i requires 0 <= i < |t| => (ElementSmaller(t, i); CanConvert(reg, d, from, t[i])))
  }

  /** Parameters go the other way round. */
  function ParamsTo(reg: Registry, d: nat, from: Type, to: Type): (r: seq<Verdict>)
    requires from.shape.Function? && to.shape.Function? && |from.shape.params| == |to.shape.params|
    decreases d, Size(from) + Size(to), 0
  {
    var f, t := from.shape.params, to.shape.params;
    seq(|f|, i requires 0 <= i < |f| =>
      (ElementSmaller(f, i); ElementSmaller(t, i); CanConvert(reg, d, t[i], f[i])))
  }

  // One rule at a time: what a call is once the earlier rules are known not to apply.

  /** None of the rules that answer at once applies. */
  predicate GoesOn(a: Type, b: Type) {
    a != b && !b.shape.Any? && !a.shape.Decimal? && !b.shape.Decimal?
  }

  lemma RefinedRule(reg: Registry, d: nat, a: Type, b: Type)
    requires GoesOn(a, b) && (a.shape.Refined? || b.shape.Refined?)
    ensures CanConvert(reg, d, a, b) ==
            if a.shape.Refined? then CanConvert(reg, d, a.shape.base, b) else CanConvert(reg, d, a, b.shape.base)
  {
  }

  /** Neither side is a refinement, so the rule is chosen by the two shapes. */
  predicate ByShape(a: Type, b: Type) {
    GoesOn(a, b) && !a.shape.Refined? && !b.shape.Refined?
  }

  lemma FromUnionRule(reg: Registry, d: nat, a: Type, b: Type)
    requires ByShape(a, b) && a.shape.Union?
    ensures CanConvert(reg, d, a, b) == AllOf(MembersTo(reg, d, a, b))
  {
  }

  lemma ToUnionRule(reg: Registry, d: nat, a: Type, b: Type)
    requires ByShape(a, b) && b.shape.Union? && !a.shape.Union?
    ensures CanConvert(reg, d, a, b) == AnyOf(ToMembers(reg, d, a, b))
  {
  }

  lemma ToErrorUnionRule(reg: Registry, d: nat, a: Type, b: Type)
    requires ByShape(a, b) && b.shape.ErrorUnion? && !a.shape.Union?
    ensures CanConvert(reg, d, a, b) ==
            if a.shape.ErrorUnion? then
              Then(CanConvert(reg, d, a.shape.success, b.shape.success), FromBool(ErrorsFit(a.shape, b.shape)))
            else CanConvert(reg, d, a, b.shape.success)
  {
  }

  predicate HasFields(s: Shape) { s.Structural? || s.Frame? }

  lemma ToStructuralRule(reg: Registry, d: nat, a: Type, b: Type)
    requires GoesOn(a, b) && HasFields(a.shape) && b.shape.Structural?
    ensures CanConvert(reg, d, a, b) == if d == 0 then Deep else AllOf(FieldsTo(reg, d, a, b))
  {
  }

  lemma TupleRule(reg: Registry, d: nat, a: Type, b: Type)
    requires GoesOn(a, b) && a.shape.Tuple? && b.shape.Tuple?
    ensures CanConvert(reg, d, a, b) ==
            if |a.shape.elements| != |b.shape.elements| then No else AllOf(ElementsTo(reg, d, a, b))
  {
  }

  lemma FunctionRule(reg: Registry, d: nat, a: Type, b: Type)
    requires GoesOn(a, b) && a.shape.Function? && b.shape.Function?
    ensures CanConvert(reg, d, a, b) ==
            if |a.shape.params| != |b.shape.params| then No
            else Then(AllOf(ParamsTo(reg, d, a, b)), CanConvert(reg, d, a.shape.result, b.shape.result))
  {
  }

  /** The kinds of shapes whose rules call for parts. */
  predicate Calls(a: Shape, b: Shape) {
    || a.Refined? || b.Refined? || a.Union? || b.Union? || b.ErrorUnion?
    || (HasFields(a) && b.Structural?) || (a.List? && b.List?) || (a.Dict? && b.Dict?)
    || (a.Tuple? && b.Tuple?) || (a.Function? && b.Function?)
  }

  /** Every other pair is answered at once, whatever the depth. */
  lemma AnsweredAtOnce(reg: Registry, d: nat, e: nat, a: Type, b: Type)
    requires GoesOn(a, b) ==> !Calls(a.shape, b.shape)
    ensures CanConvert(reg, d, a, b) == CanConvert(reg, e, a, b) != Deep
  {
  }

  // ---------- Looking deeper ----------

  /** Contains the parts and the registered fields of everything in it. */
  ghost predicate Closed(reg: Registry, u: set<Type>) {
    && (forall t, i | t in u && 0 <= i < |Parts(t)| :: Parts(t)[i] in u)
    && (forall t, i | t in u && t.shape.Frame? && 0 <= i < |Offered(reg, t.shape)| :: Offered(reg, t.shape)[i].typ in u)
  }

  predicate IsPair(x: Type, y: Type) { HasFields(x.shape) && y.shape.Structural? }

  /** Between types of u, whatever depth d answers about a structural target depth e answers too. */
  ghost predicate PairsRefine(reg: Registry, u: set<Type>, d: nat, e: nat) {
    forall x, y | x in u && y in u && IsPair(x, y) :: Refines(CanConvert(reg, d, x, y), CanConvert(reg, e, x, y))
  }

  /** Why depth e answers at least what depth d answers. */
  ghost predicate Deeper(reg: Registry, u: set<Type>, d: nat, e: nat, a: Type, b: Type) {
    d <= e || (Closed(reg, u) && a in u && b in u && PairsRefine(reg, u, d, e))
  }

  lemma DeeperParts(reg: Registry, u: set<Type>, d: nat, e: nat, a: Type, b: Type)
    requires Deeper(reg, u, d, e, a, b)
    ensures forall i | 0 <= i < |Parts(a)| :: Deeper(reg, u, d, e, Parts(a)[i], b)
    ensures forall i | 0 <= i < |Parts(b)| :: Deeper(reg, u, d, e, a, Parts(b)[i])
    ensures forall i, j | 0 <= i < |Parts(a)| && 0 <= j < |Parts(b)| ::
              Deeper(reg, u, d, e, Parts(a)[i], Parts(b)[j]) && Deeper(reg, u, d, e, Parts(b)[j], Parts(a)[i])
  {
  }

  lemma {:induction false} DeeperRefines(reg: Registry, u: set<Type>, d: nat, e: nat, a: Type, b: Type)
    requires Deeper(reg, u, d, e, a, b)
    ensures Refines(CanConvert(reg, d, a, b), CanConvert(reg, e, a, b))
    decreases d, Size(a) + Size(b), 1
  {
    if !GoesOn(a, b) || !Calls(a.shape, b.shape) {
      AnsweredAtOnce(reg, d, e, a, b);
    } else if a.shape.Refined? || b.shape.Refined? {
      DeeperRefined(reg, u, d, e, a, b);
    } else if a.shape.Union? || b.shape.Union? {
      DeeperUnion(reg, u, d, e, a, b);
    } else if b.shape.ErrorUnion? {
      DeeperErrorUnion(reg, u, d, e, a, b);
    } else if b.shape.Structural? {
      DeeperStructural(reg, u, d, e, a, b);
    } else if b.shape.Tuple? {
      DeeperTuple(reg, u, d, e, a, b);
    } else if b.shape.Function? {
      DeeperFunction(reg, u, d, e, a, b);
    } else {
      DeeperContainer(reg, u, d, e, a, b);
    }
  }

  lemma {:induction false} DeeperRefined(reg: Registry, u: set<Type>, d: nat, e: nat, a: Type, b: Type)
    requires Deeper(reg, u, d, e, a, b) && GoesOn(a, b) && (a.shape.Refined? || b.shape.Refined?)
    ensures Refines(CanConvert(reg, d, a, b), CanConvert(reg, e, a, b))
    decreases d, Size(a) + Size(b), 0
  {
    DeeperParts(reg, u, d, e, a, b);
    RefinedRule(reg, d, a, b);
    RefinedRule(reg, e, a, b);
    if a.shape.Refined? {
      assert Parts(a)[0] == a.shape.base;
      DeeperRefines(reg, u, d, e, a.shape.base, b);
    } else {
      assert Parts(b)[0] == b.shape.base;
      DeeperRefines(reg, u, d, e, a, b.shape.base);
    }
  }

  lemma {:induction false} DeeperUnion(reg: Registry, u: set<Type>, d: nat, e: nat, a: Type, b: Type)
    requires Deeper(reg, u, d, e, a, b) && ByShape(a, b) && (a.shape.Union? || b.shape.Union?)
    ensures Refines(CanConvert(reg, d, a, b), CanConvert(reg, e, a, b))
    decreases d, Size(a) + Size(b), 0
  {
    DeeperParts(reg, u, d, e, a, b);
    if a.shape.Union? {
      var vs, ws := MembersTo(reg, d, a, b), MembersTo(reg, e, a, b);
      forall i | 0 <= i < |vs| ensures Refines(vs[i], ws[i]) {
        PartSmaller(a, i);
        DeeperRefines(reg, u, d, e, Parts(a)[i], b);
      }
      AllOfRefines(vs, ws);
      FromUnionRule(reg, d, a, b);
      FromUnionRule(reg, e, a, b);
    } else {
      var vs, ws := ToMembers(reg, d, a, b), ToMembers(reg, e, a, b);
      forall i | 0 <= i < |vs| ensures Refines(vs[i], ws[i]) {
        PartSmaller(b, i);
        DeeperRefines(reg, u, d, e, a, Parts(b)[i]);
      }
      AnyOfRefines(vs, ws);
      ToUnionRule(reg, d, a, b);
      ToUnionRule(reg, e, a, b);
    }
  }

  lemma {:induction false} DeeperErrorUnion(reg: Registry, u: set<Type>, d: nat, e: nat, a: Type, b: Type)
    requires Deeper(reg, u, d, e, a, b) && ByShape(a, b) && b.shape.ErrorUnion? && !a.shape.Union?
    ensures Refines(CanConvert(reg, d, a, b), CanConvert(reg, e, a, b))
    decreases d, Size(a) + Size(b), 0
  {
    DeeperParts(reg, u, d, e, a, b);
    ToErrorUnionRule(reg, d, a, b);
    ToErrorUnionRule(reg, e, a, b);
    assert Parts(b)[0] == b.shape.success;
    if a.shape.ErrorUnion? {
      assert Parts(a)[0] == a.shape.success;
      DeeperRefines(reg, u, d, e, a.shape.success, b.shape.success);
    } else {
      DeeperRefines(reg, u, d, e, a, b.shape.success);
    }
  }

  lemma {:induction false} DeeperStructural(reg: Registry, u: set<Type>, d: nat, e: nat, a: Type, b: Type)
    requires Deeper(reg, u, d, e, a, b) && GoesOn(a, b) && IsPair(a, b)
    ensures Refines(CanConvert(reg, d, a, b), CanConvert(reg, e, a, b))
    decreases d, Size(a) + Size(b), 0
  {
    ToStructuralRule(reg, d, a, b);
    ToStructuralRule(reg, e, a, b);
    if d > 0 && d <= e {
      var vs, ws := FieldsTo(reg, d, a, b), FieldsTo(reg, e, a, b);
      var f, t := Offered(reg, a.shape), b.shape.fields;
      forall k | 0 <= k < |vs| ensures Refines(vs[k], ws[k]) {
        var i := First(f, t[k].name);
        if i < |f| {
          DeeperRefines(reg, u, d - 1, e - 1, f[i].typ, t[k].typ);
        }
      }
      AllOfRefines(vs, ws);
    }
  }

  lemma {:induction false} DeeperTuple(reg: Registry, u: set<Type>, d: nat, e: nat, a: Type, b: Type)
    requires Deeper(reg, u, d, e, a, b) && GoesOn(a, b) && a.shape.Tuple? && b.shape.Tuple?
    ensures Refines(CanConvert(reg, d, a, b), CanConvert(reg, e, a, b))
    decreases d, Size(a) + Size(b), 0
  {
    DeeperParts(reg, u, d, e, a, b);
    TupleRule(reg, d, a, b);
    TupleRule(reg, e, a, b);
    if |a.shape.elements| == |b.shape.elements| {
      var vs, ws := ElementsTo(reg, d, a, b), ElementsTo(reg, e, a, b);
      forall i | 0 <= i < |vs| ensures Refines(vs[i], ws[i]) {
        PartSmaller(a, i);
        PartSmaller(b, i);
        DeeperRefines(reg, u, d, e, Parts(a)[i], Parts(b)[i]);
      }
      AllOfRefines(vs, ws);
    }
  }

  lemma {:induction false} DeeperFunction(reg: Registry, u: set<Type>, d: nat, e: nat, a: Type, b: Type)
    requires Deeper(reg, u, d, e, a, b) && GoesOn(a, b) && a.shape.Function? && b.shape.Function?
    ensures Refines(CanConvert(reg, d, a, b), CanConvert(reg, e, a, b))
    decreases d, Size(a) + Size(b), 0
  {
    DeeperParts(reg, u, d, e, a, b);
    FunctionRule(reg, d, a, b);
    FunctionRule(reg, e, a, b);
    var n := |a.shape.params|;
    if n == |b.shape.params| {
      var vs, ws := ParamsTo(reg, d, a, b), ParamsTo(reg, e, a, b);
      forall i | 0 <= i < |vs| ensures Refines(vs[i], ws[i]) {
        PartSmaller(a, i);
        PartSmaller(b, i);
        DeeperRefines(reg, u, d, e, Parts(b)[i], Parts(a)[i]);
      }
      AllOfRefines(vs, ws);
      assert Parts(a)[n] == a.shape.result && Parts(b)[n] == b.shape.result;
      DeeperRefines(reg, u, d, e, a.shape.result, b.shape.result);
    }
  }

  lemma {:induction false} DeeperContainer(reg: Registry, u: set<Type>, d: nat, e: nat, a: Type, b: Type)
    requires Deeper(reg, u, d, e, a, b) && GoesOn(a, b)
    requires (a.shape.List? && b.shape.List?) || (a.shape.Dict? && b.shape.Dict?)
    ensures Refines(CanConvert(reg, d, a, b), CanConvert(reg, e, a, b))
    decreases d, Size(a) + Size(b), 0
  {
    DeeperParts(reg, u, d, e, a, b);
    DeeperRefines(reg, u, d, e, Parts(a)[0], Parts(b)[0]);
    if a.shape.Dict? {
      DeeperRefines(reg, u, d, e, Parts(a)[1], Parts(b)[1]);
    }
  }

  /** Cut-off calls never contradict each other. */
  lemma OneAnswer(reg: Registry, d: nat, e: nat, a: Type, b: Type)
    ensures Refines(CanConvert(reg, d, a, b), CanConvert(reg, e, a, b)) || Refines(CanConvert(reg, e, a, b), CanConvert(reg, d, a, b))
    ensures !(CanConvert(reg, d, a, b).Yes? && CanConvert(reg, e, a, b).No?)
  {
    if d <= e {
      DeeperRefines(reg, {}, d, e, a, b);
    } else {
      DeeperRefines(reg, {}, e, d, a, b);
    }
  }

  /** The call ends, with that answer. */
  ghost predicate Answers(reg: Registry, a: Type, b: Type, v: Verdict) {
    v != Deep && exists d: nat :: CanConvert(reg, d, a, b) == v
  }

  ghost predicate Ends(reg: Registry, a: Type, b: Type) {
    Answers(reg, a, b, Yes) || Answers(reg, a, b, No)
  }

  // ---------- Transitivity ----------

  /** Any, or a tag without element types. */
  predicate Untyped(s: Shape) {
    s.Any? || s.AnyList? || s.AnyDict? || s.AnyTuple? || s.AnyFunction?
  }

  /** A decimal under any number of refinements. */
  predicate IsDecimal(t: Type) {
    t.shape.Decimal? || (t.shape.Refined? && IsDecimal(t.shape.base))
  }

  /** A union with a decimal among its members: it converts to nothing but itself and Any. */
  predicate Sealed(t: Type) {
    t.shape.Union? && exists i | 0 <= i < |t.shape.members| :: IsDecimal(t.shape.members[i])
  }

  /** No Any and no untyped container or function inside, except in sealed unions. */
  predicate Plain(t: Type)
    decreases Size(t)
  {
    Sealed(t) ||
    (!Untyped(t.shape) && forall i | 0 <= i < |Parts(t)| :: (PartSmaller(t, i); Plain(Parts(t)[i])))
  }

  /** Frames inside have no fields of their own, only registered ones. */
  predicate Registered(t: Type)
    decreases Size(t)
  {
    && (t.shape.Frame? ==> t.shape.local == [])
    && forall i | 0 <= i < |Parts(t)| :: (PartSmaller(t, i); Registered(Parts(t)[i]))
  }

  ghost predicate AllRegistered(reg: Registry) {
    forall n, k | n in reg.fields && 0 <= k < |reg.fields[n]| :: Registered(reg.fields[n][k].typ)
  }

  lemma PartsOk(t: Type, i: nat)
    requires i < |Parts(t)|
    ensures Size(Parts(t)[i]) < Size(t)
    ensures Plain(t) && !Sealed(t) ==> Plain(Parts(t)[i])
    ensures Registered(t) ==> Registered(Parts(t)[i])
  {
    PartSmaller(t, i);
  }

  lemma FieldOk(t: Type, i: nat)
    requires t.shape.Structural? && i < |t.shape.fields|
    ensures Plain(t) ==> Plain(t.shape.fields[i].typ)
    ensures Registered(t) ==> Registered(t.shape.fields[i].typ)
  {
    PartsOk(t, i);
    assert Parts(t)[i] == t.shape.fields[i].typ;
  }

  lemma OfferedRegistered(reg: Registry, a: Type, i: nat)
    requires AllRegistered(reg) && Registered(a) && HasFields(a.shape) && i < |Offered(reg, a.shape)|
    ensures Registered(Offered(reg, a.shape)[i].typ)
  {
    if a.shape.Structural? {
      PartsOk(a, i);
      assert Parts(a)[i] == Offered(reg, a.shape)[i].typ;
    }
  }

  lemma {:induction false} DecimalGoesNowhere(reg: Registry, d: nat, x: Type, c: Type)
    requires IsDecimal(x) && x != c && !c.shape.Any? && !c.shape.Decimal? && !c.shape.Refined?
    ensures CanConvert(reg, d, x, c).No?
  {
    if x.shape.Refined? { DecimalGoesNowhere(reg, d, x.shape.base, c); }
  }

  /** Beyond itself and Any, under refinements, b converts to nothing. */
  ghost predicate GoesNowhere(reg: Registry, b: Type) {
    forall e: nat, c | c != b && !c.shape.Any? && !c.shape.Decimal? && !c.shape.Refined? :: !CanConvert(reg, e, b, c).Yes?
  }

  lemma SealedGoesNowhere(reg: Registry, b: Type)
    requires Sealed(b)
    ensures GoesNowhere(reg, b)
  {
    forall e: nat, c | c != b && !c.shape.Any? && !c.shape.Decimal? && !c.shape.Refined?
      ensures !CanConvert(reg, e, b, c).Yes?
    {
      var i :| 0 <= i < |b.shape.members| && IsDecimal(b.shape.members[i]);
      FromUnionRule(reg, e, b, c);
      AllOfYes(MembersTo(reg, e, b, c));
      assert MembersTo(reg, e, b, c)[i] == CanConvert(reg, e, b.shape.members[i], c);
      if b.shape.members[i] != c { DecimalGoesNowhere(reg, e, b.shape.members[i], c); }
    }
  }

  /** And that composes. */
  lemma {:induction false} TransitiveNowhere(reg: Registry, d: nat, e: nat, f: nat, a: Type, b: Type, c: Type)
    requires b.shape.Union? && GoesNowhere(reg, b)
    requires CanConvert(reg, d, a, b).Yes? && CanConvert(reg, e, b, c).Yes?
    ensures !CanConvert(reg, f, a, c).No?
    decreases Size(a) + Size(c)
  {
    if a == b {
      OneAnswer(reg, e, f, a, c);
    } else if b == c {
      OneAnswer(reg, d, f, a, c);
    } else if a == c || c.shape.Any? {
    } else if a.shape.Refined? {
      RefinedRule(reg, d, a, b);
      RefinedRule(reg, f, a, c);
      TransitiveNowhere(reg, d, e, f, a.shape.base, b, c);
    } else if c.shape.Refined? {
      RefinedRule(reg, e, b, c);
      RefinedRule(reg, f, a, c);
      TransitiveNowhere(reg, d, e, f, a, b, c.shape.base);
    }
  }

  /**
   If a converts to b and b to c, the call from a to c never says no, wherever the three calls are cut off. Only
   the type in the middle must be plain.
   */
  lemma {:induction false} Transitive(reg: Registry, d: nat, e: nat, f: nat, a: Type, b: Type, c: Type)
    requires AllRegistered(reg) && Registered(a) && Registered(b) && Registered(c) && Plain(b)
    requires CanConvert(reg, d, a, b).Yes? && CanConvert(reg, e, b, c).Yes?
    ensures !CanConvert(reg, f, a, c).No?
    decreases d + e + f, Size(a) + Size(b) + Size(c), 3
  {
    if a == b {
      OneAnswer(reg, e, f, a, c);
    } else if b == c {
      OneAnswer(reg, d, f, a, c);
    } else if a == c || c.shape.Any? {
    } else if Sealed(b) {
      SealedGoesNowhere(reg, b);
      TransitiveNowhere(reg, d, e, f, a, b, c);
    } else if a.shape.Decimal? || b.shape.Decimal? || c.shape.Decimal? {
    } else if a.shape.Refined? || b.shape.Refined? || c.shape.Refined? {
      TransitiveRefined(reg, d, e, f, a, b, c);
    } else if a.shape.Union? || b.shape.Union? || c.shape.Union? {
      TransitiveUnion(reg, d, e, f, a, b, c);
    } else if c.shape.ErrorUnion? {
      TransitiveErrorUnion(reg, d, e, f, a, b, c);
    } else {
      TransitiveSameKind(reg, d, e, f, a, b, c);
    }
  }

  /** Three types none of whose calls is answered by identity, Any or decimals. */
  ghost predicate Chain(reg: Registry, d: nat, e: nat, a: Type, b: Type, c: Type) {
    && AllRegistered(reg) && Registered(a) && Registered(b) && Registered(c) && Plain(b) && !Sealed(b)
    && GoesOn(a, b) && GoesOn(b, c) && GoesOn(a, c)
    && CanConvert(reg, d, a, b).Yes? && CanConvert(reg, e, b, c).Yes?
  }

  lemma {:induction false} TransitiveRefined(reg: Registry, d: nat, e: nat, f: nat, a: Type, b: Type, c: Type)
    requires Chain(reg, d, e, a, b, c) && (a.shape.Refined? || b.shape.Refined? || c.shape.Refined?)
    ensures !CanConvert(reg, f, a, c).No?
    decreases d + e + f, Size(a) + Size(b) + Size(c), 1
  {
    if a.shape.Refined? {
      PartsOk(a, 0);
      RefinedRule(reg, d, a, b);
      RefinedRule(reg, f, a, c);
      Transitive(reg, d, e, f, a.shape.base, b, c);
    } else if b.shape.Refined? {
      PartsOk(b, 0);
      RefinedRule(reg, d, a, b);
      RefinedRule(reg, e, b, c);
      Transitive(reg, d, e, f, a, b.shape.base, c);
    } else {
      PartsOk(c, 0);
      RefinedRule(reg, e, b, c);
      RefinedRule(reg, f, a, c);
      Transitive(reg, d, e, f, a, b, c.shape.base);
    }
  }

  lemma {:induction false} TransitiveUnion(reg: Registry, d: nat, e: nat, f: nat, a: Type, b: Type, c: Type)
    requires Chain(reg, d, e, a, b, c) && !a.shape.Refined? && !b.shape.Refined? && !c.shape.Refined?
    requires a.shape.Union? || b.shape.Union? || c.shape.Union?
    ensures !CanConvert(reg, f, a, c).No?
    decreases d + e + f, Size(a) + Size(b) + Size(c), 1
  {
    if a.shape.Union? {
      FromUnionRule(reg, d, a, b);
      FromUnionRule(reg, f, a, c);
      AllOfYes(MembersTo(reg, d, a, b));
      forall i | 0 <= i < |a.shape.members| ensures !MembersTo(reg, f, a, c)[i].No? {
        PartsOk(a, i);
        assert MembersTo(reg, d, a, b)[i].Yes?;
        Transitive(reg, d, e, f, a.shape.members[i], b, c);
      }
      AllOfNotNo(MembersTo(reg, f, a, c));
    } else if b.shape.Union? {
      ToUnionRule(reg, d, a, b);
      FromUnionRule(reg, e, b, c);
      AllOfYes(MembersTo(reg, e, b, c));
      var i := AnyOfYes(ToMembers(reg, d, a, b));
      assert MembersTo(reg, e, b, c)[i].Yes?;
      PartsOk(b, i);
      Transitive(reg, d, e, f, a, b.shape.members[i], c);
    } else {
      ToUnionRule(reg, e, b, c);
      ToUnionRule(reg, f, a, c);
      var i := AnyOfYes(ToMembers(reg, e, b, c));
      PartsOk(c, i);
      Transitive(reg, d, e, f, a, b, c.shape.members[i]);
      AnyOfNotNo(ToMembers(reg, f, a, c), i);
    }
  }

  lemma {:induction false} TransitiveErrorUnion(reg: Registry, d: nat, e: nat, f: nat, a: Type, b: Type, c: Type)
    requires Chain(reg, d, e, a, b, c) && c.shape.ErrorUnion?
    requires ByShape(a, b) && ByShape(b, c) && !a.shape.Union? && !b.shape.Union?
    ensures !CanConvert(reg, f, a, c).No?
    decreases d + e + f, Size(a) + Size(b) + Size(c), 1
  {
    PartsOk(c, 0);
    ToErrorUnionRule(reg, e, b, c);
    ToErrorUnionRule(reg, f, a, c);
    if b.shape.ErrorUnion? {
      PartsOk(b, 0);
      ToErrorUnionRule(reg, d, a, b);
      if a.shape.ErrorUnion? {
        PartsOk(a, 0);
        Transitive(reg, d, e, f, a.shape.success, b.shape.success, c.shape.success);
      } else {
        Transitive(reg, d, e, f, a, b.shape.success, c.shape.success);
      }
    } else if a.shape.ErrorUnion? {
      SameKind(reg, d, a, b);
    } else {
      Transitive(reg, d, e, f, a, b, c.shape.success);
    }
  }

  /** Only shapes of one kind convert directly, except from a frame to its traits and to structural types. */
  lemma SameKind(reg: Registry, d: nat, a: Type, b: Type)
    requires CanConvert(reg, d, a, b).Yes? && ByShape(a, b) && !a.shape.Union? && !b.shape.Union? && !b.shape.ErrorUnion?
    ensures !a.shape.ErrorUnion?
    ensures b.shape.Structural? ==> HasFields(a.shape)
    ensures b.shape.Frame? ==> a.shape.Frame? && a.shape.name == b.shape.name
    ensures IsList(b.shape) ==> IsList(a.shape)
    ensures IsDict(b.shape) ==> IsDict(a.shape)
    ensures IsTuple(b.shape) ==> IsTuple(a.shape)
    ensures IsFunction(b.shape) ==> IsFunction(a.shape)
  {
  }

  lemma {:induction false} TransitiveSameKind(reg: Registry, d: nat, e: nat, f: nat, a: Type, b: Type, c: Type)
    requires Chain(reg, d, e, a, b, c) && ByShape(a, b) && ByShape(b, c)
    requires !a.shape.Union? && !b.shape.Union? && !c.shape.Union? && !c.shape.ErrorUnion?
    ensures !CanConvert(reg, f, a, c).No?
    decreases d + e + f, Size(a) + Size(b) + Size(c), 2
  {
    SameKind(reg, e, b, c);
    SameKind(reg, d, a, b);
    var g := c.shape;
    if g.Structural? {
      TransitiveStructural(reg, d, e, f, a, b, c);
    } else if g.List? && a.shape.List? {
      PartsOk(a, 0);
      PartsOk(b, 0);
      PartsOk(c, 0);
      Transitive(reg, d, e, f, a.shape.element, b.shape.element, g.element);
    } else if g.Dict? && a.shape.Dict? {
      TransitiveDict(reg, d, e, f, a, b, c);
    } else if g.Tuple? && a.shape.Tuple? {
      TransitiveTuple(reg, d, e, f, a, b, c);
    } else if g.Function? && a.shape.Function? {
      TransitiveFunction(reg, d, e, f, a, b, c);
    }
  }

  lemma {:induction false} TransitiveDict(reg: Registry, d: nat, e: nat, f: nat, a: Type, b: Type, c: Type)
    requires Chain(reg, d, e, a, b, c) && a.shape.Dict? && b.shape.Dict? && c.shape.Dict?
    ensures !CanConvert(reg, f, a, c).No?
    decreases d + e + f, Size(a) + Size(b) + Size(c), 0
  {
    forall i | 0 <= i < 2 ensures !CanConvert(reg, f, Parts(a)[i], Parts(c)[i]).No? {
      PartsOk(a, i);
      PartsOk(b, i);
      PartsOk(c, i);
      assert Parts(a)[0] == a.shape.key && Parts(b)[0] == b.shape.key;
      Transitive(reg, d, e, f, Parts(a)[i], Parts(b)[i], Parts(c)[i]);
    }
    assert Parts(a)[0] == a.shape.key && Parts(a)[1] == a.shape.value;
  }

  lemma FieldVerdict(reg: Registry, d: nat, a: Type, b: Type, k: nat)
    requires d > 0 && HasFields(a.shape) && b.shape.Structural? && k < |b.shape.fields|
    ensures var x, y := Offered(reg, a.shape), b.shape.fields[k];
            FieldsTo(reg, d, a, b)[k] ==
              if First(x, y.name) < |x| then CanConvert(reg, d - 1, x[First(x, y.name)].typ, y.typ) else No
  {
  }

  lemma FieldYes(reg: Registry, d: nat, a: Type, b: Type, k: nat)
    requires d > 0 && HasFields(a.shape) && b.shape.Structural? && k < |b.shape.fields|
    requires FieldsTo(reg, d, a, b)[k].Yes?
    ensures var x, y := Offered(reg, a.shape), b.shape.fields[k];
            First(x, y.name) < |x| && CanConvert(reg, d - 1, x[First(x, y.name)].typ, y.typ).Yes?
  {
    FieldVerdict(reg, d, a, b, k);
  }

  lemma FieldNotNo(reg: Registry, d: nat, a: Type, b: Type, k: nat, i: nat)
    requires d > 0 && HasFields(a.shape) && b.shape.Structural? && k < |b.shape.fields|
    requires i == First(Offered(reg, a.shape), b.shape.fields[k].name) < |Offered(reg, a.shape)|
    requires !CanConvert(reg, d - 1, Offered(reg, a.shape)[i].typ, b.shape.fields[k].typ).No?
    ensures !FieldsTo(reg, d, a, b)[k].No?
  {
    FieldVerdict(reg, d, a, b, k);
  }

  lemma {:induction false} TransitiveField(reg: Registry, d: nat, e: nat, f: nat, a: Type, b: Type, c: Type, k: nat)
    requires AllRegistered(reg) && Registered(a) && Registered(b) && Registered(c) && Plain(b)
    requires d > 0 && e > 0 && f > 0
    requires HasFields(a.shape) && b.shape.Structural? && c.shape.Structural? && k < |c.shape.fields|
    requires forall j | 0 <= j < |b.shape.fields| :: FieldsTo(reg, d, a, b)[j].Yes?
    requires FieldsTo(reg, e, b, c)[k].Yes?
    ensures !FieldsTo(reg, f, a, c)[k].No?
    decreases d + e + f, Size(a) + Size(b) + Size(c), 0
  {
    var x, y, z := Offered(reg, a.shape), b.shape.fields, c.shape.fields;
    var j := First(y, z[k].name);
    FieldYes(reg, e, b, c, k);
    FieldYes(reg, d, a, b, j);
    var i := First(x, z[k].name);
    OfferedRegistered(reg, a, i);
    FieldOk(b, j);
    FieldOk(c, k);
    Transitive(reg, d - 1, e - 1, f - 1, x[i].typ, y[j].typ, z[k].typ);
    FieldNotNo(reg, f, a, c, k, i);
  }

  lemma TransitiveFrame(reg: Registry, e: nat, f: nat, a: Type, b: Type, c: Type)
    requires GoesOn(b, c) && GoesOn(a, c) && a.shape.Frame? && b.shape == a.shape && c.shape.Structural?
    requires CanConvert(reg, e, b, c).Yes?
    ensures !CanConvert(reg, f, a, c).No?
  {
    ToStructuralRule(reg, f, a, c);
    ToStructuralRule(reg, f, b, c);
    OneAnswer(reg, e, f, b, c);
    if f > 0 {
      assert FieldsTo(reg, f, a, c) == FieldsTo(reg, f, b, c);
    }
  }

  /** Width and depth subtyping composes, and so does giving a frame for a structural type. */
  lemma {:induction false} TransitiveStructural(reg: Registry, d: nat, e: nat, f: nat, a: Type, b: Type, c: Type)
    requires Chain(reg, d, e, a, b, c) && c.shape.Structural? && HasFields(a.shape)
    requires b.shape.Structural? || (a.shape.Frame? && b.shape.Frame? && a.shape.name == b.shape.name)
    ensures !CanConvert(reg, f, a, c).No?
    decreases d + e + f, Size(a) + Size(b) + Size(c), 1
  {
    if b.shape.Frame? {
      TransitiveFrame(reg, e, f, a, b, c);
    } else {
      ToStructuralRule(reg, d, a, b);
      ToStructuralRule(reg, e, b, c);
      ToStructuralRule(reg, f, a, c);
      AllOfYes(FieldsTo(reg, d, a, b));
      AllOfYes(FieldsTo(reg, e, b, c));
      if f > 0 {
        forall k | 0 <= k < |c.shape.fields| ensures !FieldsTo(reg, f, a, c)[k].No? {
          TransitiveField(reg, d, e, f, a, b, c, k);
        }
        AllOfNotNo(FieldsTo(reg, f, a, c));
      }
    }
  }

  lemma {:induction false} TransitiveTuple(reg: Registry, d: nat, e: nat, f: nat, a: Type, b: Type, c: Type)
    requires Chain(reg, d, e, a, b, c) && a.shape.Tuple? && b.shape.Tuple? && c.shape.Tuple?
    ensures !CanConvert(reg, f, a, c).No?
    decreases d + e + f, Size(a) + Size(b) + Size(c), 0
  {
    TupleRule(reg, d, a, b);
    TupleRule(reg, e, b, c);
    TupleRule(reg, f, a, c);
    AllOfYes(ElementsTo(reg, d, a, b));
    AllOfYes(ElementsTo(reg, e, b, c));
    forall i | 0 <= i < |a.shape.elements| ensures !ElementsTo(reg, f, a, c)[i].No? {
      PartsOk(a, i);
      PartsOk(b, i);
      PartsOk(c, i);
      assert ElementsTo(reg, d, a, b)[i].Yes? && ElementsTo(reg, e, b, c)[i].Yes?;
      Transitive(reg, d, e, f, a.shape.elements[i], b.shape.elements[i], c.shape.elements[i]);
    }
    AllOfNotNo(ElementsTo(reg, f, a, c));
  }

  /** The function rule composes, with parameters the other way round. */
  lemma {:induction false} TransitiveFunction(reg: Registry, d: nat, e: nat, f: nat, a: Type, b: Type, c: Type)
    requires Chain(reg, d, e, a, b, c) && a.shape.Function? && b.shape.Function? && c.shape.Function?
    ensures !CanConvert(reg, f, a, c).No?
    decreases d + e + f, Size(a) + Size(b) + Size(c), 0
  {
    FunctionRule(reg, d, a, b);
    FunctionRule(reg, e, b, c);
    FunctionRule(reg, f, a, c);
    AllOfYes(ParamsTo(reg, d, a, b));
    AllOfYes(ParamsTo(reg, e, b, c));
    var n := |a.shape.params|;
    forall i | 0 <= i < n ensures !ParamsTo(reg, f, a, c)[i].No? {
      PartsOk(a, i);
      PartsOk(b, i);
      PartsOk(c, i);
      assert ParamsTo(reg, d, a, b)[i].Yes? && ParamsTo(reg, e, b, c)[i].Yes?;
      Transitive(reg, e, d, f, c.shape.params[i], b.shape.params[i], a.shape.params[i]);
    }
    AllOfNotNo(ParamsTo(reg, f, a, c));
    PartsOk(a, n);
    PartsOk(b, n);
    PartsOk(c, n);
    assert Parts(a)[n] == a.shape.result && Parts(b)[n] == b.shape.result && Parts(c)[n] == c.shape.result;
    Transitive(reg, d, e, f, a.shape.result, b.shape.result, c.shape.result);
  }

  /** So if two calls say yes, the call from the first type to the last says yes exactly when it ends. */
  lemma YesComposes(reg: Registry, a: Type, b: Type, c: Type)
    requires AllRegistered(reg) && Registered(a) && Registered(b) && Registered(c) && Plain(b)
    requires Answers(reg, a, b, Yes) && Answers(reg, b, c, Yes)
    ensures Answers(reg, a, c, Yes) <==> Ends(reg, a, c)
  {
    var d: nat :| CanConvert(reg, d, a, b) == Yes;
    var e: nat :| CanConvert(reg, e, b, c) == Yes;
    if Answers(reg, a, c, No) {
      var f: nat :| CanConvert(reg, f, a, c) == No;
      Transitive(reg, d, e, f, a, b, c);
    }
  }

  // ---------- Where transitivity falls short ----------

  /** A decimal converts to Any, and Any to an optional Any, but a decimal does not convert to that. */
  lemma AnyBreaksTransitivity(reg: Registry, d: nat)
    ensures var money, any := Type(1, Decimal(2)), Type(0, Any);
            var optional := Type(2, Union([any]));
            && CanConvert(reg, d, money, any).Yes? && CanConvert(reg, d, any, optional).Yes?
            && CanConvert(reg, d, money, optional).No?
  {
    var any := Type(0, Any);
    var optional := Type(2, Union([any]));
    ToUnionRule(reg, d, any, optional);
    assert ToMembers(reg, d, any, optional)[0].Yes?;
  }

  /** A list without an element type converts both ways with every list. */
  lemma UntypedListBreaksTransitivity(reg: Registry, d: nat, a: Type, b: Type, id: nat)
    requires CanConvert(reg, d, a, b).No?
    ensures var list, from, to := Type(id, AnyList), Type(id, List(a)), Type(id, List(b));
            && CanConvert(reg, d, from, list).Yes? && CanConvert(reg, d, list, to).Yes?
            && CanConvert(reg, d, from, to).No?
  {
  }

  /** And a function type without parameter types with every function. */
  lemma UntypedFunctionBreaksTransitivity(reg: Registry, d: nat, a: Type, b: Type, id: nat)
    requires CanConvert(reg, d, a, b).No?
    ensures var fn, from, to := Type(id, AnyFunction), Type(id, Function([], a)), Type(id, Function([], b));
            && CanConvert(reg, d, from, fn).Yes? && CanConvert(reg, d, fn, to).Yes?
            && CanConvert(reg, d, from, to).No?
  {
  }

  // ---------- Members of unions ----------

  /** A decimal under any number of refinements, or as a member of a union at any depth. */
  predicate HidesDecimal(t: Type) {
    match t.shape
    case Decimal(_) => true
    case Refined(base) => HidesDecimal(base)
    case Union(members) => exists i | 0 <= i < |members| :: HidesDecimal(members[i])
    case _ => false
  }

  lemma {:induction false} DecimalNeverJoinsUnion(reg: Registry, d: nat, t: Type, u: Type)
    requires u.shape.Union? && HidesDecimal(t) && Size(t) < Size(u)
    ensures !CanConvert(reg, d, t, u).Yes?
  {
    match t.shape
    case Decimal(_) =>
    case Refined(base) =>
      DecimalNeverJoinsUnion(reg, d, base, u);
      RefinedRule(reg, d, t, u);
    case Union(members) =>
      var i :| 0 <= i < |members| && HidesDecimal(members[i]);
      PartSmaller(t, i);
      DecimalNeverJoinsUnion(reg, d, members[i], u);
      FromUnionRule(reg, d, t, u);
      AllOfYes(MembersTo(reg, d, t, u));
      assert !MembersTo(reg, d, t, u)[i].Yes?;
  }

  /** x is t, or lies under t's refinements and unions. */
  predicate Within(x: Type, t: Type) {
    x == t ||
    match t.shape
    case Refined(base) => Within(x, base)
    case Union(members) => exists i | 0 <= i < |members| :: Within(x, members[i])
    case _ => false
  }

  lemma {:induction false} WithinStep(x: Type, t: Type, y: Type)
    requires Within(x, t)
    requires (x.shape.Refined? && y == x.shape.base) || (x.shape.Union? && y in x.shape.members)
    ensures Within(y, t) && (!HidesDecimal(t) ==> !HidesDecimal(x) && !HidesDecimal(y))
  {
    if x == t {
      if x.shape.Union? {
        var i :| 0 <= i < |x.shape.members| && x.shape.members[i] == y;
      }
    } else if t.shape.Refined? {
      WithinStep(x, t.shape.base, y);
    } else {
      var i :| 0 <= i < |t.shape.members| && Within(x, t.shape.members[i]);
      WithinStep(x, t.shape.members[i], y);
    }
  }

  lemma {:induction false} WithinHides(x: Type, t: Type)
    requires Within(x, t) && !HidesDecimal(t)
    ensures !HidesDecimal(x)
  {
    if x != t {
      if t.shape.Refined? {
        WithinHides(x, t.shape.base);
      } else {
        var i :| 0 <= i < |t.shape.members| && Within(x, t.shape.members[i]);
        WithinHides(x, t.shape.members[i]);
      }
    }
  }

  lemma {:induction false} WithinConverts(reg: Registry, d: nat, x: Type, t: Type)
    requires Within(x, t) && !HidesDecimal(t)
    ensures !CanConvert(reg, d, x, t).No?
    decreases Size(x) + Size(t)
  {
    if x == t || t.shape.Any? { return; }
    WithinHides(x, t);
    if x.shape.Refined? {
      WithinStep(x, t, x.shape.base);
      WithinConverts(reg, d, x.shape.base, t);
      RefinedRule(reg, d, x, t);
    } else if t.shape.Refined? {
      WithinConverts(reg, d, x, t.shape.base);
      RefinedRule(reg, d, x, t);
    } else if x.shape.Union? {
      forall i | 0 <= i < |x.shape.members| ensures !MembersTo(reg, d, x, t)[i].No? {
        PartSmaller(x, i);
        WithinStep(x, t, x.shape.members[i]);
        WithinConverts(reg, d, x.shape.members[i], t);
      }
      AllOfNotNo(MembersTo(reg, d, x, t));
      FromUnionRule(reg, d, x, t);
    } else {
      var i :| 0 <= i < |t.shape.members| && Within(x, t.shape.members[i]);
      PartSmaller(t, i);
      WithinConverts(reg, d, x, t.shape.members[i]);
      AnyOfNotNo(ToMembers(reg, d, x, t), i);
      ToUnionRule(reg, d, x, t);
    }
  }

  lemma {:induction false} WithinJoins(reg: Registry, d: nat, x: Type, u: Type, k: nat)
    requires u.shape.Union? && k < |u.shape.members| && Size(x) < Size(u)
    requires Within(x, u.shape.members[k]) && !HidesDecimal(u.shape.members[k])
    ensures !CanConvert(reg, d, x, u).No?
    decreases Size(x)
  {
    var t := u.shape.members[k];
    WithinHides(x, t);
    if x.shape.Refined? {
      WithinStep(x, t, x.shape.base);
      WithinJoins(reg, d, x.shape.base, u, k);
      RefinedRule(reg, d, x, u);
    } else if x.shape.Union? {
      forall i | 0 <= i < |x.shape.members| ensures !MembersTo(reg, d, x, u)[i].No? {
        PartSmaller(x, i);
        WithinStep(x, t, x.shape.members[i]);
        WithinJoins(reg, d, x.shape.members[i], u, k);
      }
      AllOfNotNo(MembersTo(reg, d, x, u));
      FromUnionRule(reg, d, x, u);
    } else {
      WithinConverts(reg, d, x, t);
      AnyOfNotNo(ToMembers(reg, d, x, u), k);
      ToUnionRule(reg, d, x, u);
    }
  }

  /**
   A member of a union, such as the T of an optional T?, converts to it exactly when it hides no decimal: the
   call can only say yes if it hides none, and only no if it hides one.
   */
  lemma MemberConvertsExactCondition(reg: Registry, u: Type, k: nat)
    requires u.shape.Union? && k < |u.shape.members|
    ensures var t := u.shape.members[k];
            && (Answers(reg, t, u, Yes) <==> Ends(reg, t, u) && !HidesDecimal(t))
            && (Answers(reg, t, u, No) <==> Ends(reg, t, u) && HidesDecimal(t))
  {
    var t := u.shape.members[k];
    PartSmaller(u, k);
    forall d: nat ensures if HidesDecimal(t) then !CanConvert(reg, d, t, u).Yes? else !CanConvert(reg, d, t, u).No? {
      if HidesDecimal(t) {
        DecimalNeverJoinsUnion(reg, d, t, u);
      } else {
        WithinJoins(reg, d, t, u, k);
      }
    }
  }
}
