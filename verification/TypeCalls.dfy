/** Which calls of the convertibility check end. */
module TypeCalls {
  import opened Types

  // ---------- One side without frames ----------

  /** No frame anywhere inside. */
  predicate FrameFree(t: Type)
    decreases Size(t)
  {
    !t.shape.Frame? && forall i | 0 <= i < |Parts(t)| :: (PartSmaller(t, i); FrameFree(Parts(t)[i]))
  }

  /** One side has no frames, and d is deep enough for it. */
  predicate Shallow(d: nat, a: Type, b: Type) {
    (FrameFree(a) && Size(a) <= d) || (FrameFree(b) && Size(b) <= d)
  }

  lemma ShallowParts(d: nat, a: Type, b: Type)
    requires Shallow(d, a, b)
    ensures forall i | 0 <= i < |Parts(a)| :: Shallow(d, Parts(a)[i], b)
    ensures forall i | 0 <= i < |Parts(b)| :: Shallow(d, a, Parts(b)[i])
    ensures forall i, j | 0 <= i < |Parts(a)| && 0 <= j < |Parts(b)| ::
              Shallow(d, Parts(a)[i], Parts(b)[j]) && Shallow(d, Parts(b)[j], Parts(a)[i])
  {
    forall i | 0 <= i < |Parts(a)| ensures Size(Parts(a)[i]) < Size(a) { PartSmaller(a, i); }
    forall i | 0 <= i < |Parts(b)| ensures Size(Parts(b)[i]) < Size(b) { PartSmaller(b, i); }
  }

  lemma {:induction false} ShallowEnds(reg: Registry, d: nat, a: Type, b: Type)
    requires Shallow(d, a, b)
    ensures !CanConvert(reg, d, a, b).Deep?
    decreases d, Size(a) + Size(b), 1
  {
    ShallowParts(d, a, b);
    if !GoesOn(a, b) || !Calls(a.shape, b.shape) {
      AnsweredAtOnce(reg, d, d, a, b);
    } else if a.shape.Refined? || b.shape.Refined? {
      RefinedRule(reg, d, a, b);
      if a.shape.Refined? {
        assert Parts(a)[0] == a.shape.base;
        ShallowEnds(reg, d, a.shape.base, b);
      } else {
        assert Parts(b)[0] == b.shape.base;
        ShallowEnds(reg, d, a, b.shape.base);
      }
    } else if a.shape.Union? || b.shape.Union? {
      ShallowUnion(reg, d, a, b);
    } else if b.shape.ErrorUnion? {
      ToErrorUnionRule(reg, d, a, b);
      assert Parts(b)[0] == b.shape.success;
      if a.shape.ErrorUnion? {
        assert Parts(a)[0] == a.shape.success;
        ShallowEnds(reg, d, a.shape.success, b.shape.success);
      } else {
        ShallowEnds(reg, d, a, b.shape.success);
      }
    } else if b.shape.Structural? {
      ShallowStructural(reg, d, a, b);
    } else if b.shape.Tuple? {
      ShallowTuple(reg, d, a, b);
    } else if b.shape.Function? {
      ShallowFunction(reg, d, a, b);
    } else {
      ShallowEnds(reg, d, Parts(a)[0], Parts(b)[0]);
      if a.shape.Dict? {
        ShallowEnds(reg, d, Parts(a)[1], Parts(b)[1]);
      }
    }
  }

  lemma {:induction false} ShallowUnion(reg: Registry, d: nat, a: Type, b: Type)
    requires Shallow(d, a, b) && ByShape(a, b) && (a.shape.Union? || b.shape.Union?)
    ensures !CanConvert(reg, d, a, b).Deep?
    decreases d, Size(a) + Size(b), 0
  {
    ShallowParts(d, a, b);
    if a.shape.Union? {
      FromUnionRule(reg, d, a, b);
      forall i | 0 <= i < |a.shape.members| ensures !MembersTo(reg, d, a, b)[i].Deep? {
        PartSmaller(a, i);
        ShallowEnds(reg, d, Parts(a)[i], b);
      }
      AllOfEnds(MembersTo(reg, d, a, b));
    } else {
      ToUnionRule(reg, d, a, b);
      forall i | 0 <= i < |b.shape.members| ensures !ToMembers(reg, d, a, b)[i].Deep? {
        PartSmaller(b, i);
        ShallowEnds(reg, d, a, Parts(b)[i]);
      }
      AnyOfEnds(ToMembers(reg, d, a, b));
    }
  }

  lemma {:induction false} ShallowStructural(reg: Registry, d: nat, a: Type, b: Type)
    requires Shallow(d, a, b) && GoesOn(a, b) && IsPair(a, b)
    ensures !CanConvert(reg, d, a, b).Deep?
    decreases d, Size(a) + Size(b), 0
  {
    ToStructuralRule(reg, d, a, b);
    var f, t := Offered(reg, a.shape), b.shape.fields;
    forall k | 0 <= k < |t| ensures !FieldsTo(reg, d, a, b)[k].Deep? {
      var i := First(f, t[k].name);
      PartSmaller(b, k);
      assert Parts(b)[k] == t[k].typ;
      if i < |f| {
        if a.shape.Structural? {
          PartSmaller(a, i);
          assert Parts(a)[i] == f[i].typ;
        }
        ShallowEnds(reg, d - 1, f[i].typ, t[k].typ);
      }
    }
    AllOfEnds(FieldsTo(reg, d, a, b));
  }

  lemma {:induction false} ShallowTuple(reg: Registry, d: nat, a: Type, b: Type)
    requires Shallow(d, a, b) && GoesOn(a, b) && a.shape.Tuple? && b.shape.Tuple?
    ensures !CanConvert(reg, d, a, b).Deep?
    decreases d, Size(a) + Size(b), 0
  {
    TupleRule(reg, d, a, b);
    ShallowParts(d, a, b);
    if |a.shape.elements| == |b.shape.elements| {
      forall i | 0 <= i < |a.shape.elements| ensures !ElementsTo(reg, d, a, b)[i].Deep? {
        PartSmaller(a, i);
        PartSmaller(b, i);
        ShallowEnds(reg, d, Parts(a)[i], Parts(b)[i]);
      }
      AllOfEnds(ElementsTo(reg, d, a, b));
    }
  }

  lemma {:induction false} ShallowFunction(reg: Registry, d: nat, a: Type, b: Type)
    requires Shallow(d, a, b) && GoesOn(a, b) && a.shape.Function? && b.shape.Function?
    ensures !CanConvert(reg, d, a, b).Deep?
    decreases d, Size(a) + Size(b), 0
  {
    FunctionRule(reg, d, a, b);
    ShallowParts(d, a, b);
    var n := |a.shape.params|;
    if n == |b.shape.params| {
      forall i | 0 <= i < n ensures !ParamsTo(reg, d, a, b)[i].Deep? {
        PartSmaller(a, i);
        PartSmaller(b, i);
        ShallowEnds(reg, d, Parts(b)[i], Parts(a)[i]);
      }
      AllOfEnds(ParamsTo(reg, d, a, b));
      assert Parts(a)[n] == a.shape.result && Parts(b)[n] == b.shape.result;
      ShallowEnds(reg, d, a.shape.result, b.shape.result);
    }
  }

  /** If one of the two types has no frames, the call ends, whatever the registry and the other type. */
  lemma FrameFreeEnds(reg: Registry, a: Type, b: Type)
    requires FrameFree(a) || FrameFree(b)
    ensures Ends(reg, a, b)
  {
    var d := Size(a) + Size(b);
    ShallowEnds(reg, d, a, b);
  }

  // ---------- A call that never ends ----------

  const NOTHING := Type(0, Other(0))
  const FRAME := Type(1, Frame("F", []))
  const WANTS_FRAME := Type(3, Function([FRAME], NOTHING))
  const SHAPE := Type(2, Structural([Field("g", WANTS_FRAME)]))
  const WANTS_SHAPE := Type(4, Function([SHAPE], NOTHING))
  const SELF_REFERENCE := Registry({}, map["F" := [Field("g", WANTS_SHAPE)]])

  lemma MethodsAsk(d: nat)
    ensures CanConvert(SELF_REFERENCE, d, WANTS_SHAPE, WANTS_FRAME) == CanConvert(SELF_REFERENCE, d, FRAME, SHAPE)
  {
    FunctionRule(SELF_REFERENCE, d, WANTS_SHAPE, WANTS_FRAME);
    var vs := ParamsTo(SELF_REFERENCE, d, WANTS_SHAPE, WANTS_FRAME);
    assert |vs| == 1 && vs[0] == CanConvert(SELF_REFERENCE, d, FRAME, SHAPE);
    assert vs[1..] == [] && AllOf(vs) == Then(vs[0], Yes);
  }

  lemma {:induction false} AlwaysDeep(d: nat)
    ensures CanConvert(SELF_REFERENCE, d, FRAME, SHAPE).Deep?
  {
    ToStructuralRule(SELF_REFERENCE, d, FRAME, SHAPE);
    if d > 0 {
      AlwaysDeep(d - 1);
      MethodsAsk(d - 1);
      var f, t := Offered(SELF_REFERENCE, FRAME.shape), SHAPE.shape.fields;
      assert f == [Field("g", WANTS_SHAPE)] && t == [Field("g", WANTS_FRAME)] && First(f, "g") == 0;
      var vs := FieldsTo(SELF_REFERENCE, d, FRAME, SHAPE);
      assert |vs| == 1 && vs[0].Deep?;
    }
  }

  /**
   A frame F whose method g takes a shape, where the shape asks for a g that takes an F: whether F has
   the shape depends on whether F has the shape, and the call does not end.
   */
  lemma SelfReferenceNeverEnds()
    ensures !Ends(SELF_REFERENCE, FRAME, SHAPE)
  {
    forall d: nat ensures CanConvert(SELF_REFERENCE, d, FRAME, SHAPE).Deep? {
      AlwaysDeep(d);
    }
  }

  const BOX := Type(5, Refined(FRAME))
  const SHAPE_OR_FRAME := Type(6, Union([SHAPE, FRAME]))

  /** Yes and yes need not compose to an answer: the union asks about its first member first. */
  lemma YesNeedNotCompose()
    ensures Answers(SELF_REFERENCE, BOX, FRAME, Yes) && Answers(SELF_REFERENCE, FRAME, FRAME, Yes)
    ensures !Ends(SELF_REFERENCE, FRAME, SHAPE_OR_FRAME)
  {
    RefinedRule(SELF_REFERENCE, 0, BOX, FRAME);
    assert CanConvert(SELF_REFERENCE, 0, BOX, FRAME) == Yes && CanConvert(SELF_REFERENCE, 0, FRAME, FRAME) == Yes;
    forall d: nat ensures CanConvert(SELF_REFERENCE, d, FRAME, SHAPE_OR_FRAME).Deep? {
      AlwaysDeep(d);
      ToUnionRule(SELF_REFERENCE, d, FRAME, SHAPE_OR_FRAME);
      assert ToMembers(SELF_REFERENCE, d, FRAME, SHAPE_OR_FRAME)[0].Deep?;
    }
  }

  // ---------- How deep it is enough to look ----------

  lemma SizeOfFieldTypes(fs: seq<Field>)
    ensures SizeAll(FieldTypes(fs)) == SizeFields(fs)
  {
    if fs != [] {
      assert FieldTypes(fs)[1..] == FieldTypes(fs[1..]);
      SizeOfFieldTypes(fs[1..]);
    }
  }

  lemma {:induction false} SizeOfConcat(ts: seq<Type>, us: seq<Type>)
    ensures SizeAll(ts + us) == SizeAll(ts) + SizeAll(us)
  {
    if ts == [] {
      assert ts + us == us;
    } else {
      assert (ts + us)[1..] == ts[1..] + us;
      SizeOfConcat(ts[1..], us);
    }
  }

  lemma SizeOfOne(t: Type)
    ensures SizeAll([t]) == Size(t)
  {
    assert [t][1..] == [] && SizeAll([]) == 0;
  }

  lemma SizeOfTwo(t: Type, u: Type)
    ensures SizeAll([t, u]) == Size(t) + Size(u)
  {
    assert [t, u][1..] == [u];
    SizeOfOne(u);
  }

  lemma SizeOfParts(t: Type)
    ensures SizeAll(Parts(t)) < Size(t)
  {
    match t.shape
    case Refined(base) => SizeOfOne(base);
    case Structural(fields) => SizeOfFieldTypes(fields);
    case Frame(_, local) => SizeOfFieldTypes(local);
    case List(element) => SizeOfOne(element);
    case Dict(key, value) => SizeOfTwo(key, value);
    case ErrorUnion(success, _, _) => SizeOfOne(success);
    case Function(params, result) =>
      SizeOfOne(result);
      SizeOfConcat(params, [result]);
    case _ =>
  }

  /** A type and all it is made of. */
  function Inside(t: Type): set<Type>
    decreases Size(t), 0
  {
    SizeOfParts(t);
    {t} + InsideAll(Parts(t))
  }

  function InsideAll(ts: seq<Type>): set<Type>
    decreases SizeAll(ts), 1
  {
    if ts == [] then {} else Inside(ts[0]) + InsideAll(ts[1..])
  }

  ghost predicate HasParts(u: set<Type>) {
    forall t, i | t in u && 0 <= i < |Parts(t)| :: Parts(t)[i] in u
  }

  lemma {:induction false} InsideHasParts(t: Type)
    ensures t in Inside(t) && HasParts(Inside(t))
    decreases Size(t), 0
  {
    SizeOfParts(t);
    InsideAllHasParts(Parts(t));
  }

  lemma {:induction false} InsideAllHasParts(ts: seq<Type>)
    ensures HasParts(InsideAll(ts)) && forall i | 0 <= i < |ts| :: ts[i] in InsideAll(ts)
    decreases SizeAll(ts), 1
  {
    if ts != [] {
      InsideHasParts(ts[0]);
      InsideAllHasParts(ts[1..]);
    }
  }

  /** Everything a call on a and b can come across. */
  ghost function Universe(reg: Registry, a: Type, b: Type): set<Type> {
    Inside(a) + Inside(b) + set n, k, t | n in reg.fields && 0 <= k < |reg.fields[n]| && t in Inside(reg.fields[n][k].typ) :: t
  }

  lemma UniverseClosed(reg: Registry, a: Type, b: Type)
    ensures Closed(reg, Universe(reg, a, b)) && a in Universe(reg, a, b) && b in Universe(reg, a, b)
  {
    var u := Universe(reg, a, b);
    InsideHasParts(a);
    InsideHasParts(b);
    forall n, k | n in reg.fields && 0 <= k < |reg.fields[n]|
      ensures reg.fields[n][k].typ in u && HasParts(Inside(reg.fields[n][k].typ))
    {
      InsideHasParts(reg.fields[n][k].typ);
    }
    forall t, i | t in u && 0 <= i < |Parts(t)| ensures Parts(t)[i] in u {
      if t !in Inside(a) && t !in Inside(b) {
        var n, k :| n in reg.fields && 0 <= k < |reg.fields[n]| && t in Inside(reg.fields[n][k].typ);
        assert Parts(t)[i] in Inside(reg.fields[n][k].typ);
      }
    }
    forall t, i | t in u && t.shape.Frame? && 0 <= i < |Offered(reg, t.shape)| ensures Offered(reg, t.shape)[i].typ in u {
      if i < |t.shape.local| {
        assert Parts(t)[i] == Offered(reg, t.shape)[i].typ;
      }
    }
  }

  /** The structural targets that can be asked about. */
  ghost function Pairs(u: set<Type>): set<(Type, Type)> {
    set x, y | x in u && y in u && IsPair(x, y) :: (x, y)
  }

  ghost function Ended(reg: Registry, u: set<Type>, d: nat): set<(Type, Type)> {
    set p | p in Pairs(u) && !CanConvert(reg, d, p.0, p.1).Deep?
  }

  lemma EndedGrows(reg: Registry, u: set<Type>, d: nat, e: nat)
    requires d <= e
    ensures Ended(reg, u, d) <= Ended(reg, u, e)
    ensures Ended(reg, u, d) == Ended(reg, u, e) ==> PairsRefine(reg, u, e, d)
  {
    forall x, y | x in u && y in u && IsPair(x, y)
      ensures Refines(CanConvert(reg, d, x, y), CanConvert(reg, e, x, y))
    {
      DeeperRefines(reg, u, d, e, x, y);
    }
    if Ended(reg, u, d) == Ended(reg, u, e) {
      forall x, y | x in u && y in u && IsPair(x, y)
        ensures Refines(CanConvert(reg, e, x, y), CanConvert(reg, d, x, y))
      {
        assert (x, y) in Ended(reg, u, e) ==> (x, y) in Ended(reg, u, d);
        assert (x, y) in Pairs(u);
      }
    }
  }

  /** If one more level tells nothing new, the next one does not either. */
  lemma NothingNewAgain(reg: Registry, u: set<Type>, d: nat)
    requires Closed(reg, u) && Ended(reg, u, d + 1) == Ended(reg, u, d)
    ensures Ended(reg, u, d + 2) == Ended(reg, u, d + 1)
  {
    EndedGrows(reg, u, d, d + 1);
    EndedGrows(reg, u, d + 1, d + 2);
    forall x, y | x in u && y in u && IsPair(x, y)
      ensures Refines(CanConvert(reg, d + 2, x, y), CanConvert(reg, d + 1, x, y))
    {
      if GoesOn(x, y) {
        NothingNewForPair(reg, u, d + 1, d, x, y);
      } else {
        AnsweredAtOnce(reg, d + 2, d + 1, x, y);
      }
    }
    assert Ended(reg, u, d + 2) <= Ended(reg, u, d + 1);
  }

  lemma FieldsInside(reg: Registry, u: set<Type>, t: Type, i: nat)
    requires Closed(reg, u) && t in u && HasFields(t.shape) && i < |Offered(reg, t.shape)|
    ensures Offered(reg, t.shape)[i].typ in u
  {
    assert t.shape.Structural? ==> Parts(t)[i] == Offered(reg, t.shape)[i].typ;
  }

  lemma NothingNewForField(reg: Registry, u: set<Type>, e: nat, d: nat, x: Type, y: Type, k: nat)
    requires Closed(reg, u) && PairsRefine(reg, u, e, d) && x in u && y in u && IsPair(x, y)
    requires k < |y.shape.fields|
    ensures Refines(FieldsTo(reg, e + 1, x, y)[k], FieldsTo(reg, d + 1, x, y)[k])
  {
    var f, t := Offered(reg, x.shape), y.shape.fields;
    var i := First(f, t[k].name);
    if i < |f| {
      FieldsInside(reg, u, x, i);
      FieldsInside(reg, u, y, k);
      DeeperRefines(reg, u, e, d, f[i].typ, t[k].typ);
    }
  }

  lemma NothingNewForFields(reg: Registry, u: set<Type>, e: nat, d: nat, x: Type, y: Type)
    requires Closed(reg, u) && PairsRefine(reg, u, e, d) && x in u && y in u && IsPair(x, y)
    ensures AllRefine(FieldsTo(reg, e + 1, x, y), FieldsTo(reg, d + 1, x, y))
  {
    var vs, ws := FieldsTo(reg, e + 1, x, y), FieldsTo(reg, d + 1, x, y);
    forall k | 0 <= k < |vs| ensures Refines(vs[k], ws[k]) {
      NothingNewForField(reg, u, e, d, x, y, k);
    }
  }

  lemma NothingNewForPair(reg: Registry, u: set<Type>, e: nat, d: nat, x: Type, y: Type)
    requires Closed(reg, u) && PairsRefine(reg, u, e, d) && x in u && y in u && IsPair(x, y) && GoesOn(x, y)
    ensures Refines(CanConvert(reg, e + 1, x, y), CanConvert(reg, d + 1, x, y))
  {
    ToStructuralRule(reg, e + 1, x, y);
    ToStructuralRule(reg, d + 1, x, y);
    NothingNewForFields(reg, u, e, d, x, y);
    AllOfRefines(FieldsTo(reg, e + 1, x, y), FieldsTo(reg, d + 1, x, y));
  }

  lemma {:induction false} NothingNewEver(reg: Registry, u: set<Type>, d: nat, e: nat)
    requires Closed(reg, u) && Ended(reg, u, d + 1) == Ended(reg, u, d) && d <= e
    ensures Ended(reg, u, e) == Ended(reg, u, d) && Ended(reg, u, e + 1) == Ended(reg, u, e)
    decreases e
  {
    if d < e {
      NothingNewEver(reg, u, d, e - 1);
      NothingNewAgain(reg, u, e - 1);
    }
  }

  /** Every level tells something about one more pair, until one tells nothing new. */
  lemma {:induction false} SomethingNew(reg: Registry, u: set<Type>, n: nat) returns (d: nat)
    requires Closed(reg, u)
    ensures d <= n && (Ended(reg, u, d + 1) == Ended(reg, u, d) || (d == n && |Ended(reg, u, n)| >= n))
  {
    if n == 0 {
      return 0;
    }
    d := SomethingNew(reg, u, n - 1);
    if Ended(reg, u, d + 1) != Ended(reg, u, d) {
      EndedGrows(reg, u, n - 1, n);
      SmallerSet(Ended(reg, u, n - 1), Ended(reg, u, n));
      d := n;
    }
  }

  lemma SmallerSet<T>(s: set<T>, t: set<T>)
    requires s < t
    ensures |s| < |t|
  {
    assert t == s + (t - s);
  }

  lemma SubsetSize<T>(s: set<T>, t: set<T>)
    requires s <= t
    ensures |s| <= |t| && (|s| == |t| ==> s == t)
  {
    if s != t { SmallerSet(s, t); }
  }

  /** As deep as there are pairs, nothing new is told any more. */
  lemma PairsAreDeepEnough(reg: Registry, u: set<Type>, e: nat)
    requires Closed(reg, u) && |Pairs(u)| <= e
    ensures PairsRefine(reg, u, e, |Pairs(u)|)
  {
    var n := |Pairs(u)|;
    EndedGrows(reg, u, n, e);
    var d := SomethingNew(reg, u, n);
    if Ended(reg, u, d + 1) == Ended(reg, u, d) {
      NothingNewEver(reg, u, d, n);
      NothingNewEver(reg, u, d, e);
    } else {
      SubsetSize(Ended(reg, u, n), Pairs(u));
      SubsetSize(Ended(reg, u, e), Pairs(u));
    }
  }

  /**
   A call ends exactly when it ends within as many nested structural targets as there are pairs of a frame or
   structural type with a structural type among the types it can come across; so a bounded look decides.
   */
  lemma EndsExactCondition(reg: Registry, a: Type, b: Type)
    ensures Ends(reg, a, b) <==> !CanConvert(reg, |Pairs(Universe(reg, a, b))|, a, b).Deep?
  {
    var u := Universe(reg, a, b);
    var n := |Pairs(u)|;
    UniverseClosed(reg, a, b);
    if Ends(reg, a, b) {
      var d: nat :| !CanConvert(reg, d, a, b).Deep?;
      var e := if d < n then n else d;
      DeeperRefines(reg, u, d, e, a, b);
      PairsAreDeepEnough(reg, u, e);
      DeeperRefines(reg, u, e, n, a, b);
    }
  }
}
