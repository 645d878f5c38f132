/** What a yes of the convertibility check means, kind by kind. */
module TypeLaws {
  import opened Types
  import opened MiddleTypes

  // ---------- Error unions ----------

  predicate Raises(t: Shape, e: string)
    requires t.ErrorUnion?
  {
    t.generic || e in t.errors
  }

  /** The success types convert, and every error of the first is one of the second; any error fits only any error. */
  lemma ErrorSetsFit(reg: Registry, d: nat, a: Type, b: Type)
    requires a.shape.ErrorUnion? && b.shape.ErrorUnion? && a != b
    ensures CanConvert(reg, d, a, b).Yes? <==>
              && CanConvert(reg, d, a.shape.success, b.shape.success).Yes?
              && (forall e :: Raises(a.shape, e) ==> Raises(b.shape, e))
              && (a.shape.generic ==> b.shape.generic)
  {
    ToErrorUnionRule(reg, d, a, b);
    assert !a.shape.generic && !b.shape.generic ==>
             ((forall e :: Raises(a.shape, e) ==> Raises(b.shape, e)) <==> forall e | e in a.shape.errors :: Raises(b.shape, e));
  }

  /** A fallible value is no plain one. */
  lemma ErrorsAreNotDropped(reg: Registry, d: nat, a: Type, b: Type)
    requires a.shape.ErrorUnion? && (Atom(b.shape) || (Container(b.shape) && !b.shape.ErrorUnion?))
    ensures CanConvert(reg, d, a, b).No?
  {
  }

  // ---------- Fields ----------

  /** The own fields of a frame come before the registered ones, which an unregistered frame has none of. */
  lemma OwnFieldsFirst(reg: Registry, t: Shape, i: nat)
    requires t.Frame?
    ensures var more := if t.name in reg.fields then reg.fields[t.name] else [];
            && |Offered(reg, t)| == |t.local| + |more|
            && (i < |t.local| ==> Offered(reg, t)[i] == t.local[i])
            && (i < |more| ==> Offered(reg, t)[|t.local| + i] == more[i])
  {
  }

  predicate OffersFirst(reg: Registry, t: Shape, i: nat, name: string)
    requires HasFields(t)
  {
    var f := Offered(reg, t);
    i < |f| && f[i].name == name && forall j | 0 <= j < i :: f[j].name != name
  }

  /** Each field asked for is offered under its name, and the first one offered under that name has a type that converts. */
  lemma FieldsFit(reg: Registry, d: nat, a: Type, b: Type)
    requires HasFields(a.shape) && b.shape.Structural? && a != b
    ensures CanConvert(reg, 0, a, b).Deep?
    ensures CanConvert(reg, d + 1, a, b).Yes? <==>
              forall k | 0 <= k < |b.shape.fields| :: FieldFits(reg, d, a, b, k)
  {
    ToStructuralRule(reg, d + 1, a, b);
    var vs := FieldsTo(reg, d + 1, a, b);
    AllOfYes(vs);
    forall k | 0 <= k < |vs| ensures vs[k].Yes? <==> FieldFits(reg, d, a, b, k) {
      var name := b.shape.fields[k].name;
      FieldVerdict(reg, d + 1, a, b, k);
      OnlyFirst(reg, a.shape, name);
      assert vs[k].Yes? ==> OffersFirst(reg, a.shape, First(Offered(reg, a.shape), name), name);
    }
  }

  ghost predicate FieldFits(reg: Registry, d: nat, a: Type, b: Type, k: nat)
    requires HasFields(a.shape) && b.shape.Structural? && k < |b.shape.fields|
  {
    exists i: nat :: OffersFirst(reg, a.shape, i, b.shape.fields[k].name)
                && CanConvert(reg, d, Offered(reg, a.shape)[i].typ, b.shape.fields[k].typ).Yes?
  }

  lemma OnlyFirst(reg: Registry, t: Shape, name: string)
    requires HasFields(t)
    ensures forall i: nat | OffersFirst(reg, t, i, name) :: i == First(Offered(reg, t), name)
  {
    var f := Offered(reg, t);
    var n := First(f, name);
    forall i: nat | OffersFirst(reg, t, i, name) ensures i == n {
      assert f[i].name == name;
    }
  }

  // ---------- Containers ----------

  /** Lists by their elements, dictionaries by keys and values, tuples place by place. */
  lemma ContainersFit(reg: Registry, d: nat, a: Type, b: Type)
    requires a != b
    ensures a.shape.List? && b.shape.List? ==>
              (CanConvert(reg, d, a, b).Yes? <==> CanConvert(reg, d, a.shape.element, b.shape.element).Yes?)
    ensures a.shape.Dict? && b.shape.Dict? ==>
              (CanConvert(reg, d, a, b).Yes? <==>
                 CanConvert(reg, d, a.shape.key, b.shape.key).Yes? && CanConvert(reg, d, a.shape.value, b.shape.value).Yes?)
    ensures a.shape.Tuple? && b.shape.Tuple? ==>
              (CanConvert(reg, d, a, b).Yes? <==>
                 && |a.shape.elements| == |b.shape.elements|
                 && forall i | 0 <= i < |a.shape.elements| :: CanConvert(reg, d, a.shape.elements[i], b.shape.elements[i]).Yes?)
  {
    if a.shape.Tuple? && b.shape.Tuple? && |a.shape.elements| == |b.shape.elements| {
      TupleRule(reg, d, a, b);
      var vs := ElementsTo(reg, d, a, b);
      AllOfYes(vs);
      assert forall i | 0 <= i < |vs| :: vs[i] == CanConvert(reg, d, a.shape.elements[i], b.shape.elements[i]);
    }
  }

  /** A function stands in for another that it takes every argument of and whose results it gives. */
  lemma FunctionsFit(reg: Registry, d: nat, a: Type, b: Type)
    requires a.shape.Function? && b.shape.Function? && a != b
    ensures CanConvert(reg, d, a, b).Yes? <==>
              && |a.shape.params| == |b.shape.params|
              && (forall i | 0 <= i < |a.shape.params| :: CanConvert(reg, d, b.shape.params[i], a.shape.params[i]).Yes?)
              && CanConvert(reg, d, a.shape.result, b.shape.result).Yes?
  {
    FunctionRule(reg, d, a, b);
    if |a.shape.params| == |b.shape.params| {
      var vs := ParamsTo(reg, d, a, b);
      AllOfYes(vs);
      assert forall i | 0 <= i < |vs| :: vs[i] == CanConvert(reg, d, b.shape.params[i], a.shape.params[i]);
    }
  }

  /** A tag without element types converts both ways with every type of its kind. */
  lemma UntypedFits(reg: Registry, d: nat, a: Type, b: Type)
    requires (Untyped(a.shape) || Untyped(b.shape)) && !a.shape.Any? && !b.shape.Any?
    requires || (IsList(a.shape) && IsList(b.shape)) || (IsDict(a.shape) && IsDict(b.shape))
             || (IsTuple(a.shape) && IsTuple(b.shape)) || (IsFunction(a.shape) && IsFunction(b.shape))
    ensures CanConvert(reg, d, a, b).Yes?
  {
  }

  predicate SameKindOf(s: Shape, t: Shape) {
    || (IsList(s) && IsList(t)) || (IsDict(s) && IsDict(t)) || (IsTuple(s) && IsTuple(t)) || (IsFunction(s) && IsFunction(t))
    || (s.ErrorUnion? && t.ErrorUnion?) || (HasFields(s) && t.Structural?)
  }

  /** Between different kinds nothing converts: not between two containers, nor between a container and an atom. */
  lemma KindsDoNotMix(reg: Registry, d: nat, a: Type, b: Type)
    requires !SameKindOf(a.shape, b.shape) && !b.shape.Any? && !b.shape.ErrorUnion?
    requires Container(a.shape) || Untyped(a.shape) || Atom(a.shape)
    requires Container(b.shape) || Untyped(b.shape) || Atom(b.shape)
    requires !(Atom(a.shape) && Atom(b.shape))
    ensures CanConvert(reg, d, a, b).No?
  {
  }

  // ---------- Unions ----------

  /** A union converts if all its members do; anything else converts to a union with its first member that does not say no. */
  lemma UnionsFit(reg: Registry, d: nat, a: Type, b: Type)
    requires ByShape(a, b) && (a.shape.Union? || b.shape.Union?)
    ensures a.shape.Union? ==>
              (CanConvert(reg, d, a, b).Yes? <==> forall i | 0 <= i < |a.shape.members| :: CanConvert(reg, d, a.shape.members[i], b).Yes?)
    ensures !a.shape.Union? ==>
              (CanConvert(reg, d, a, b).Yes? <==> exists i: nat :: FirstToTake(reg, d, a, b.shape.members, i))
  {
    if a.shape.Union? {
      FromUnionRule(reg, d, a, b);
      var vs := MembersTo(reg, d, a, b);
      AllOfYes(vs);
      assert forall i | 0 <= i < |vs| :: vs[i] == CanConvert(reg, d, a.shape.members[i], b);
    } else {
      ToUnionRule(reg, d, a, b);
      TakenByFirst(ToMembers(reg, d, a, b), 0);
      var vs := ToMembers(reg, d, a, b);
      assert forall i | 0 <= i < |vs| :: vs[i] == CanConvert(reg, d, a, b.shape.members[i]);
      if CanConvert(reg, d, a, b).Yes? {
        var i: nat :| i < |vs| && vs[i].Yes? && forall k | 0 <= k < i :: vs[k].No?;
        assert FirstToTake(reg, d, a, b.shape.members, i);
      }
      if i: nat :| FirstToTake(reg, d, a, b.shape.members, i) {
        assert vs[i].Yes? && forall k | 0 <= k < i :: vs[k].No?;
      }
    }
  }

  predicate FirstToTake(reg: Registry, d: nat, a: Type, members: seq<Type>, i: nat) {
    && i < |members| && CanConvert(reg, d, a, members[i]).Yes?
    && forall k | 0 <= k < i :: CanConvert(reg, d, a, members[k]).No?
  }

  lemma {:induction false} TakenByFirst(vs: seq<Verdict>, from: nat)
    requires from <= |vs|
    ensures AnyOf(vs[from..]).Yes? <==> exists i | from <= i < |vs| :: vs[i].Yes? && forall k | from <= k < i :: vs[k].No?
    ensures from == 0 ==> vs[from..] == vs
    decreases |vs| - from
  {
    if from < |vs| {
      TakenByFirst(vs, from + 1);
      assert vs[from..][0] == vs[from] && vs[from..][1..] == vs[from + 1..];
      if vs[from].Yes? {
        assert exists i | from <= i < |vs| :: vs[i].Yes? && forall k | from <= k < i :: vs[k].No?;
      } else if AnyOf(vs[from..]).Yes? {
        var i :| from + 1 <= i < |vs| && vs[i].Yes? && forall k | from + 1 <= k < i :: vs[k].No?;
        assert forall k | from <= k < i :: vs[k].No?;
      }
    }
  }

  // ---------- Atoms, Any and decimals ----------

  /** Numbers of any width convert to each other, frames by name or to their traits, enumerations by name, nothing else. */
  lemma AtomsFit(reg: Registry, d: nat, a: Type, b: Type)
    requires Atom(a.shape) && Atom(b.shape)
    ensures CanConvert(reg, d, a, b) == FromBool(
              || a == b || (a.shape.Bool? && b.shape.Bool?)
              || (a.shape.Integer? && b.shape.Integer?) || (a.shape.Float? && b.shape.Float?)
              || (a.shape.Frame? && b.shape.Frame? && a.shape.name == b.shape.name)
              || (a.shape.Enum? && b.shape.Enum? && a.shape.name == b.shape.name)
              || (a.shape.Frame? && b.shape.Trait? && (a.shape.name, b.shape.name) in reg.implements))
  {
  }

  /** Everything converts to Any, and Any to no type that says what it is. */
  lemma AnyTakesAll(reg: Registry, d: nat, a: Type, any: Type)
    requires any.shape.Any?
    ensures CanConvert(reg, d, a, any).Yes?
    ensures Atom(a.shape) || a.shape.Decimal? || (Container(a.shape) && !a.shape.ErrorUnion?) ==> CanConvert(reg, d, any, a).No?
  {
  }

  /** A decimal converts to decimals of its scale and to Any, and only decimals convert to it. */
  lemma DecimalsKeepTheirScale(reg: Registry, d: nat, a: Type, b: Type)
    requires a != b && !b.shape.Any? && (a.shape.Decimal? || b.shape.Decimal?)
    ensures CanConvert(reg, d, a, b) == FromBool(a.shape.Decimal? && b.shape.Decimal? && a.shape.scale == b.shape.scale)
  {
  }
}
