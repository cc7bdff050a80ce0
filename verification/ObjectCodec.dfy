/**
 The JS objects, arrays and tagged objects that `#[napi]` structs and structured enums are
 written to and read from: the decisions of the generator as data, and what the generated
 code does with them.
 */
module ObjectCodec {
  import opened Wrappers

  // A JS value. A leaf stands for any value that is neither null nor undefined; an array
  // element never set reads as undefined.
  datatype Js =
    | Undefined
    | Null
    | Leaf(v: int)
    | Str(s: string)
    | Obj(props: map<string, Js>)
    | Arr(elems: seq<Js>)

  // A Rust type as the generator sees it.
  datatype Ty =
    | LeafTy
    | OptTy(inner: Ty)
    | ObjTy(fields: seq<Field>, useNullable: bool)
    | ArrTy(elems: seq<Ty>, useNullable: bool)
    | EnumTy(discriminant: string, variants: seq<Variant>, useNullable: bool)

  datatype Field = Field(name: string, ty: Ty)

  datatype Variant = Variant(tag: string, fields: seq<Field>)

  // A Rust value.
  datatype Val =
    | LeafV(v: int)
    | NoneV
    | SomeV(val: Val)
    | ObjV(vals: seq<Val>)
    | ArrV(vals: seq<Val>)
    | EnumV(variant: nat, vals: seq<Val>)

  datatype Error = Missing(name: string) | UnknownVariant(tag: string) | WrongType

  predicate Typed(ty: Ty, v: Val) {
    match (ty, v)
    case (LeafTy, LeafV(_)) => true
    case (OptTy(_), NoneV) => true
    case (OptTy(inner), SomeV(x)) => Typed(inner, x)
    case (ObjTy(fields, _), ObjV(vals)) => |vals| == |fields| && forall i | 0 <= i < |vals| :: Typed(fields[i].ty, vals[i])
    case (ArrTy(elems, _), ArrV(vals)) => |vals| == |elems| && forall i | 0 <= i < |vals| :: Typed(elems[i], vals[i])
    case (EnumTy(_, variants, _), EnumV(k, vals)) =>
      k < |variants| && |vals| == |variants[k].fields|
      && forall i | 0 <= i < |vals| :: Typed(variants[k].fields[i].ty, vals[i])
    case _ => false
  }

  predicate TypedFields(fields: seq<Field>, vals: seq<Val>) {
    |vals| == |fields| && forall i | 0 <= i < |vals| :: Typed(fields[i].ty, vals[i])
  }

  predicate DistinctNames(fields: seq<Field>) {
    forall i, j | 0 <= i < j < |fields| :: fields[i].name != fields[j].name
  }

  predicate DistinctTags(variants: seq<Variant>) {
    forall i, j | 0 <= i < j < |variants| :: variants[i].tag != variants[j].tag
  }

  // The parser's check of the discriminant against the field names.
  predicate NoConflict(discriminant: string, fields: seq<Field>) {
    forall i | 0 <= i < |fields| :: fields[i].name != discriminant
  }

  // Names and tags distinct, and no discriminant conflict.
  predicate WellFormed(ty: Ty) {
    match ty
    case LeafTy => true
    case OptTy(inner) => WellFormed(inner)
    case ObjTy(fields, _) => DistinctNames(fields) && forall i | 0 <= i < |fields| :: WellFormed(fields[i].ty)
    case ArrTy(elems, _) => forall i | 0 <= i < |elems| :: WellFormed(elems[i])
    case EnumTy(discriminant, variants, _) =>
      && DistinctTags(variants)
      && forall k | 0 <= k < |variants| ::
           && DistinctNames(variants[k].fields) && NoConflict(discriminant, variants[k].fields)
           && forall i | 0 <= i < |variants[k].fields| :: WellFormed(variants[k].fields[i].ty)
  }

  // ----- the generator's decisions for the fields of an object

  // Which fields go into the property batch, which are set only when present, and which
  // may be absent when read.
  datatype Plan = Plan(always: seq<nat>, conditional: seq<nat>, lenient: seq<bool>)

  predicate AlwaysSet(field: Field, useNullable: bool) {
    !field.ty.OptTy? || useNullable
  }

  function PlanOf(fields: seq<Field>, useNullable: bool): Plan {
    if fields == [] then Plan([], [], [])
    else
      var n := |fields| - 1;
      var p := PlanOf(fields[..n], useNullable);
      if AlwaysSet(fields[n], useNullable) then Plan(p.always + [n], p.conditional, p.lenient + [false])
      else Plan(p.always, p.conditional + [n], p.lenient + [true])
  }

  // The per-field loop of the object and structured-enum generators.
  method GenPlan(fields: seq<Field>, useNullable: bool) returns (plan: Plan)
    ensures plan == PlanOf(fields, useNullable)
  {
    var always: seq<nat>, conditional: seq<nat>, lenient := [], [], [];
    for i := 0 to |fields|
      invariant Plan(always, conditional, lenient) == PlanOf(fields[..i], useNullable)
    {
      assert fields[..i + 1][..i] == fields[..i];
      var isOptional := fields[i].ty.OptTy?;
      var isAlwaysSet := !isOptional || useNullable;
      if isAlwaysSet {
        always := always + [i];
      } else {
        conditional := conditional + [i];
      }
      lenient := lenient + [isOptional && !useNullable];
    }
    assert fields[..|fields|] == fields;
    plan := Plan(always, conditional, lenient);
  }

  // ----- the generated writer

  predicate Below(indices: seq<nat>, n: nat) {
    forall j | 0 <= j < |indices| :: indices[j] < n
  }

  // The property batch.
  function Batch(base: map<string, Js>, fields: seq<Field>, js: seq<Js>, always: seq<nat>): map<string, Js>
    requires |js| == |fields| && Below(always, |fields|)
  {
    if always == [] then base
    else
      var i := always[|always| - 1];
      Batch(base, fields, js, always[..|always| - 1])[fields[i].name := js[i]]
  }

  // The conditional setters.
  function SetPresent(base: map<string, Js>, fields: seq<Field>, js: seq<Js>, vals: seq<Val>, conditional: seq<nat>): map<string, Js>
    requires |vals| == |js| == |fields| && Below(conditional, |fields|)
  {
    if conditional == [] then base
    else
      var i := conditional[|conditional| - 1];
      var m := SetPresent(base, fields, js, vals, conditional[..|conditional| - 1]);
      if vals[i].SomeV? then m[fields[i].name := js[i]] else m
  }

  lemma {:induction false} PlanIndices(fields: seq<Field>, useNullable: bool)
    ensures var p := PlanOf(fields, useNullable);
      && Below(p.always, |fields|) && Below(p.conditional, |fields|) && |p.lenient| == |fields|
      && (forall i :: i in p.always <==> 0 <= i < |fields| && AlwaysSet(fields[i], useNullable))
      && (forall i :: i in p.conditional <==> 0 <= i < |fields| && !AlwaysSet(fields[i], useNullable))
      && (forall i | 0 <= i < |fields| :: p.lenient[i] == !AlwaysSet(fields[i], useNullable))
  {
    if fields != [] {
      PlanIndices(fields[..|fields| - 1], useNullable);
    }
  }

  function WriteFields(base: map<string, Js>, fields: seq<Field>, useNullable: bool, js: seq<Js>, vals: seq<Val>): map<string, Js>
    requires |vals| == |js| == |fields|
  {
    PlanIndices(fields, useNullable);
    var plan := PlanOf(fields, useNullable);
    SetPresent(Batch(base, fields, js, plan.always), fields, js, vals, plan.conditional)
  }

  function ToJs(ty: Ty, v: Val): Js
    requires Typed(ty, v)
    decreases ty, 1
  {
    match (ty, v)
    case (LeafTy, LeafV(x)) => Leaf(x)
    case (OptTy(_), NoneV) => Null
    case (OptTy(inner), SomeV(x)) => ToJs(inner, x)
    case (ObjTy(fields, useNullable), ObjV(vals)) =>
      Obj(WriteFields(map[], fields, useNullable, FieldsToJs(ty, 0, vals), vals))
    case (ArrTy(elems, useNullable), ArrV(vals)) =>
      Arr(seq(|elems|, i requires 0 <= i < |elems| =>
        // with `use_nullable` off, an absent element is not set
        if elems[i].OptTy? && !useNullable && vals[i].NoneV? then Undefined else ToJs(elems[i], vals[i])))
    case (EnumTy(discriminant, variants, useNullable), EnumV(k, vals)) =>
      var base := map[discriminant := Str(variants[k].tag)];
      Obj(WriteFields(base, variants[k].fields, useNullable, FieldsToJs(ty, k, vals), vals))
  }

  // The fields of an object type, or of the k-th variant.
  function FieldsOf(ty: Ty, k: nat): seq<Field> {
    match ty
    case ObjTy(fields, _) => fields
    case EnumTy(_, variants, _) => if k < |variants| then variants[k].fields else []
    case _ => []
  }

  function FieldsToJs(ty: Ty, k: nat, vals: seq<Val>): (js: seq<Js>)
    requires TypedFields(FieldsOf(ty, k), vals)
    ensures |js| == |vals|
    decreases ty, 0
  {
    var fields := FieldsOf(ty, k);
    seq(|fields|, i requires 0 <= i < |fields| => ToJs(fields[i].ty, vals[i]))
  }

  // ----- the generated reader

  // `Object::get` without the conversion: undefined and absent are `None`, null is not.
  function Get(js: Js, name: string): Result<Option<Js>, Error> {
    match js
    case Undefined => Err(WrongType)
    case Null => Err(WrongType)
    case Obj(props) => Ok(if name in props && props[name] != Undefined then Some(props[name]) else None)
    case _ => Ok(None)
  }

  function Map<T, U>(r: Result<T, Error>, f: T -> U): Result<U, Error> {
    match r
    case Ok(x) => Ok(f(x))
    case Err(e) => Err(e)
  }

  // The getters run in order, and the first error ends them.
  function Sequence(rs: seq<Result<Val, Error>>): Result<seq<Val>, Error> {
    if rs == [] then Ok([])
    else
      match Sequence(rs[..|rs| - 1])
      case Err(e) => Err(e)
      case Ok(vs) => Map(rs[|rs| - 1], (v: Val) => vs + [v])
  }

  function Converted(r: Result<Val, Error>): Result<Val, Error> {
    Map(r, (v: Val) => SomeV(v))
  }

  function FromJs(ty: Ty, js: Js): Result<Val, Error>
    decreases ty, 1
  {
    match ty
    case LeafTy => if js.Leaf? then Ok(LeafV(js.v)) else Err(WrongType)
    case OptTy(inner) => if js.Undefined? || js.Null? then Ok(NoneV) else Converted(FromJs(inner, js))
    case ObjTy(_, _) => Map(Sequence(ReadFields(ty, 0, js)), (vs: seq<Val>) => ObjV(vs))
    case ArrTy(_, _) =>
      if js.Arr? then Map(Sequence(ReadElems(ty, js.elems)), (vs: seq<Val>) => ArrV(vs)) else Err(WrongType)
    case EnumTy(discriminant, variants, _) =>
      match Get(js, discriminant)
      case Err(e) => Err(e)
      case Ok(None) => Err(Missing(discriminant))
      case Ok(Some(Str(tag))) =>
        var k := FindTag(variants, tag);
        if k == |variants| then Err(UnknownVariant(tag))
        else Map(Sequence(ReadFields(ty, k, js)), (vs: seq<Val>) => EnumV(k, vs))
      case _ => Err(WrongType)
  }

  predicate IsNullable(ty: Ty) {
    !ty.LeafTy? && !ty.OptTy? && ty.useNullable
  }

  // What the getter of a field makes of its property.
  function FieldResult(field: Field, useNullable: bool, got: Result<Option<Js>, Error>): Result<Val, Error>
    decreases field.ty, 2
  {
    match got
    case Err(e) => Err(e)
    case Ok(None) => if AlwaysSet(field, useNullable) then Err(Missing(field.name)) else Ok(NoneV)
    case Ok(Some(x)) =>
      if AlwaysSet(field, useNullable) then FromJs(field.ty, x) else Converted(FromJs(field.ty.inner, x))
  }

  // The getters of an object, or of the k-th variant.
  function ReadFields(ty: Ty, k: nat, js: Js): seq<Result<Val, Error>>
    decreases ty, 0
  {
    var fields := FieldsOf(ty, k);
    seq(|fields|, i requires 0 <= i < |fields| =>
      FieldResult(fields[i], IsNullable(ty), Get(js, fields[i].name)))
  }

  // The getters of an array. `Array::get` gives `None` past the end only; an element that
  // was never set is there, and its undefined is converted like any other value.
  function ReadElems(ty: Ty, js: seq<Js>): seq<Result<Val, Error>>
    requires ty.ArrTy?
    decreases ty, 0
  {
    seq(|ty.elems|, i requires 0 <= i < |ty.elems| =>
      var elem := ty.elems[i];
      if elem.OptTy? && !ty.useNullable then
        if i < |js| then Converted(FromJs(elem.inner, js[i])) else Ok(NoneV)
      else
        if i < |js| then FromJs(elem, js[i]) else Err(Missing("")))
  }

  // The first arm of the generated match on the tag.
  function FindTag(variants: seq<Variant>, tag: string): (k: nat)
    ensures k <= |variants|
    ensures k < |variants| ==> variants[k].tag == tag
    ensures forall j | 0 <= j < k :: variants[j].tag != tag
  {
    if variants == [] then 0
    else if variants[0].tag == tag then 0
    else 1 + FindTag(variants[1..], tag)
  }

  // ----- the reader undoes the writer

  // Written as null: absent, or present and itself written as null.
  predicate IsNull(v: Val) {
    v.NoneV? || (v.SomeV? && IsNull(v.val))
  }

  // What survives being written and read: no array struct without `use_nullable` holds an
  // absent element, and no present option is written as null, except where its presence is
  // told by the property or element alone.
  predicate Survives(ty: Ty, v: Val)
    requires Typed(ty, v)
    decreases v, 1
  {
    match (ty, v)
    case (OptTy(inner), SomeV(x)) => !IsNull(x) && Survives(inner, x)
    case (ObjTy(fields, useNullable), ObjV(vals)) =>
      forall i | 0 <= i < |vals| :: FieldSurvives(fields[i], useNullable, vals[i])
    case (ArrTy(elems, useNullable), ArrV(vals)) =>
      forall i | 0 <= i < |vals| ::
        (useNullable || !vals[i].NoneV?) && FieldSurvives(Field("", elems[i]), useNullable, vals[i])
    case (EnumTy(_, variants, useNullable), EnumV(k, vals)) =>
      forall i | 0 <= i < |vals| :: FieldSurvives(variants[k].fields[i], useNullable, vals[i])
    case _ => true
  }

  predicate FieldSurvives(field: Field, useNullable: bool, v: Val)
    requires Typed(field.ty, v)
    decreases v, 2
  {
    if AlwaysSet(field, useNullable) then Survives(field.ty, v)
    else v.SomeV? ==> Survives(field.ty.inner, v.val)
  }

  lemma {:induction false} OnlyNullIsNull(ty: Ty, v: Val)
    requires Typed(ty, v)
    ensures !ToJs(ty, v).Undefined?
    ensures ToJs(ty, v).Null? <==> IsNull(v)
  {
    if v.SomeV? {
      OnlyNullIsNull(ty.inner, v.val);
    }
  }

  lemma {:induction false} BatchLookup(base: map<string, Js>, fields: seq<Field>, js: seq<Js>, always: seq<nat>, name: string)
    requires |js| == |fields| && Below(always, |fields|) && DistinctNames(fields)
    ensures var m := Batch(base, fields, js, always);
      && (forall i | i in always && fields[i].name == name :: name in m && m[name] == js[i])
      && ((forall i | i in always :: fields[i].name != name) ==>
            (name in m <==> name in base) && (name in base ==> m[name] == base[name]))
  {
    if always != [] {
      BatchLookup(base, fields, js, always[..|always| - 1], name);
    }
  }

  lemma {:induction false} SetPresentLookup(base: map<string, Js>, fields: seq<Field>, js: seq<Js>, vals: seq<Val>, conditional: seq<nat>, name: string)
    requires |vals| == |js| == |fields| && Below(conditional, |fields|) && DistinctNames(fields)
    ensures var m := SetPresent(base, fields, js, vals, conditional);
      && (forall i | i in conditional && fields[i].name == name && vals[i].SomeV? :: name in m && m[name] == js[i])
      && ((forall i | i in conditional && vals[i].SomeV? :: fields[i].name != name) ==>
            (name in m <==> name in base) && (name in base ==> m[name] == base[name]))
  {
    if conditional != [] {
      SetPresentLookup(base, fields, js, vals, conditional[..|conditional| - 1], name);
    }
  }

  // What each field's property holds after writing.
  lemma FieldWritten(base: map<string, Js>, fields: seq<Field>, useNullable: bool, js: seq<Js>, vals: seq<Val>, i: nat)
    requires |vals| == |js| == |fields| && DistinctNames(fields) && i < |fields| && fields[i].name !in base
    ensures var m, name := WriteFields(base, fields, useNullable, js, vals), fields[i].name;
      && (name in m <==> AlwaysSet(fields[i], useNullable) || vals[i].SomeV?)
      && (name in m ==> m[name] == js[i])
  {
    PlanIndices(fields, useNullable);
    var plan, name := PlanOf(fields, useNullable), fields[i].name;
    assert forall j | 0 <= j < |fields| && fields[j].name == name :: j == i;
    BatchLookup(base, fields, js, plan.always, name);
    SetPresentLookup(Batch(base, fields, js, plan.always), fields, js, vals, plan.conditional, name);
  }

  lemma OtherKeyKept(base: map<string, Js>, fields: seq<Field>, useNullable: bool, js: seq<Js>, vals: seq<Val>, key: string)
    requires |vals| == |js| == |fields| && DistinctNames(fields) && NoConflict(key, fields)
    ensures var m := WriteFields(base, fields, useNullable, js, vals);
      (key in m <==> key in base) && (key in base ==> m[key] == base[key])
  {
    PlanIndices(fields, useNullable);
    var plan := PlanOf(fields, useNullable);
    BatchLookup(base, fields, js, plan.always, key);
    SetPresentLookup(Batch(base, fields, js, plan.always), fields, js, vals, plan.conditional, key);
  }

  lemma {:induction false} SequenceIsOk(rs: seq<Result<Val, Error>>, vs: seq<Val>)
    ensures Sequence(rs) == Ok(vs) <==> |rs| == |vs| && forall i | 0 <= i < |rs| :: rs[i] == Ok(vs[i])
  {
    if rs != [] {
      var n := |rs| - 1;
      if vs != [] {
        SequenceIsOk(rs[..n], vs[..|vs| - 1]);
        assert vs == vs[..|vs| - 1] + [vs[|vs| - 1]];
      }
      if Sequence(rs[..n]).Ok? {
        SequenceIsOk(rs[..n], Sequence(rs[..n]).value);
      }
    }
  }

  // Writing a well-formed type's value and reading it back gives the value, whatever the
  // nesting and in both nullable modes, if and only if it survives.
  lemma {:induction false} RoundTripExactly(ty: Ty, v: Val)
    requires WellFormed(ty) && Typed(ty, v)
    ensures FromJs(ty, ToJs(ty, v)) == Ok(v) <==> Survives(ty, v)
    decreases ty, 2
  {
    match ty {
      case LeafTy =>
      case OptTy(inner) =>
        if v.SomeV? {
          OnlyNullIsNull(inner, v.val);
          RoundTripExactly(inner, v.val);
        }
      case ObjTy(_, _) => ObjectRoundTrips(ty, v);
      case ArrTy(_, _) => ArrayRoundTrips(ty, v);
      case EnumTy(_, _, _) => EnumRoundTrips(ty, v);
    }
  }

  lemma {:induction false} ObjectRoundTrips(ty: Ty, v: Val)
    requires ty.ObjTy? && WellFormed(ty) && Typed(ty, v)
    ensures FromJs(ty, ToJs(ty, v)) == Ok(v) <==> Survives(ty, v)
    decreases ty, 1
  {
    FieldsRoundTrip(ty, 0, v.vals, map[]);
    SequenceIsOk(ReadFields(ty, 0, ToJs(ty, v)), v.vals);
  }

  lemma {:induction false} ArrayRoundTrips(ty: Ty, v: Val)
    requires ty.ArrTy? && WellFormed(ty) && Typed(ty, v)
    ensures FromJs(ty, ToJs(ty, v)) == Ok(v) <==> Survives(ty, v)
    decreases ty, 1
  {
    ElemsRoundTrip(ty, v.vals);
    SequenceIsOk(ReadElems(ty, ToJs(ty, v).elems), v.vals);
  }

  lemma {:induction false} EnumRoundTrips(ty: Ty, v: Val)
    requires ty.EnumTy? && WellFormed(ty) && Typed(ty, v)
    ensures FromJs(ty, ToJs(ty, v)) == Ok(v) <==> Survives(ty, v)
    decreases ty, 1
  {
    var k, vals := v.variant, v.vals;
    var base := map[ty.discriminant := Str(ty.variants[k].tag)];
    VariantIsFound(ty, v);
    FieldsRoundTrip(ty, k, vals, base);
    SequenceIsOk(ReadFields(ty, k, ToJs(ty, v)), vals);
  }

  // The tag that was written selects the variant it was written for.
  lemma VariantIsFound(ty: Ty, v: Val)
    requires ty.EnumTy? && WellFormed(ty) && Typed(ty, v)
    ensures var js, tag := ToJs(ty, v), ty.variants[v.variant].tag;
      && Get(js, ty.discriminant) == Ok(Some(Str(tag)))
      && FindTag(ty.variants, tag) == v.variant
      && FromJs(ty, js) == Map(Sequence(ReadFields(ty, v.variant, js)), (vs: seq<Val>) => EnumV(v.variant, vs))
  {
    var k := v.variant;
    var base := map[ty.discriminant := Str(ty.variants[k].tag)];
    OtherKeyKept(base, ty.variants[k].fields, ty.useNullable, FieldsToJs(ty, k, v.vals), v.vals, ty.discriminant);
  }

  // What a property holds for the reader after writing.
  lemma GetWritten(base: map<string, Js>, fields: seq<Field>, useNullable: bool, js: seq<Js>, vals: seq<Val>, i: nat)
    requires |vals| == |js| == |fields| && DistinctNames(fields) && i < |fields| && fields[i].name !in base
    requires js[i] != Undefined
    ensures Get(Obj(WriteFields(base, fields, useNullable, js, vals)), fields[i].name)
      == Ok(if AlwaysSet(fields[i], useNullable) || vals[i].SomeV? then Some(js[i]) else None)
  {
    FieldWritten(base, fields, useNullable, js, vals, i);
  }

  lemma ReadFieldsAt(ty: Ty, k: nat, js: Js, i: nat)
    requires (ty.ObjTy? || ty.EnumTy?) && i < |FieldsOf(ty, k)|
    ensures var field := FieldsOf(ty, k)[i];
      |ReadFields(ty, k, js)| == |FieldsOf(ty, k)|
      && ReadFields(ty, k, js)[i] == FieldResult(field, ty.useNullable, Get(js, field.name))
  {
  }

  // What is read for a field from what was written for it.
  lemma FieldRead(ty: Ty, k: nat, vals: seq<Val>, base: map<string, Js>, i: nat)
    requires (ty.ObjTy? || ty.EnumTy?) && WellFormed(ty) && TypedFields(FieldsOf(ty, k), vals)
    requires ty.EnumTy? ==> k < |ty.variants|
    requires i < |vals| && FieldsOf(ty, k)[i].name !in base
    ensures var field := FieldsOf(ty, k)[i];
      var js := Obj(WriteFields(base, FieldsOf(ty, k), ty.useNullable, FieldsToJs(ty, k, vals), vals));
      && |ReadFields(ty, k, js)| == |vals|
      && ReadFields(ty, k, js)[i] ==
           if AlwaysSet(field, ty.useNullable) then FromJs(field.ty, ToJs(field.ty, vals[i]))
           else if vals[i].NoneV? then Ok(NoneV)
           else Converted(FromJs(field.ty.inner, ToJs(field.ty.inner, vals[i].val)))
  {
    var fields, js := FieldsOf(ty, k), FieldsToJs(ty, k, vals);
    OnlyNullIsNull(fields[i].ty, vals[i]);
    assert js[i] == ToJs(fields[i].ty, vals[i]);
    GetWritten(base, fields, ty.useNullable, js, vals, i);
    ReadFieldsAt(ty, k, Obj(WriteFields(base, fields, ty.useNullable, js, vals)), i);
  }

  lemma {:induction false} FieldsRoundTrip(ty: Ty, k: nat, vals: seq<Val>, base: map<string, Js>)
    requires (ty.ObjTy? || ty.EnumTy?) && WellFormed(ty) && TypedFields(FieldsOf(ty, k), vals)
    requires ty.EnumTy? ==> k < |ty.variants|
    requires forall i | 0 <= i < |vals| :: FieldsOf(ty, k)[i].name !in base
    ensures var fields := FieldsOf(ty, k);
      var rs := ReadFields(ty, k, Obj(WriteFields(base, fields, ty.useNullable, FieldsToJs(ty, k, vals), vals)));
      && |rs| == |vals|
      && forall i | 0 <= i < |vals| :: rs[i] == Ok(vals[i]) <==> FieldSurvives(fields[i], ty.useNullable, vals[i])
    decreases ty, 0
  {
    var fields := FieldsOf(ty, k);
    var rs := ReadFields(ty, k, Obj(WriteFields(base, fields, ty.useNullable, FieldsToJs(ty, k, vals), vals)));
    forall i | 0 <= i < |vals| ensures rs[i] == Ok(vals[i]) <==> FieldSurvives(fields[i], ty.useNullable, vals[i]) {
      FieldRead(ty, k, vals, base, i);
      if AlwaysSet(fields[i], ty.useNullable) {
        RoundTripExactly(fields[i].ty, vals[i]);
      } else if vals[i].SomeV? {
        RoundTripExactly(fields[i].ty.inner, vals[i].val);
      }
    }
  }

  lemma {:induction false} ElemsRoundTrip(ty: Ty, vals: seq<Val>)
    requires ty.ArrTy? && WellFormed(ty) && Typed(ty, ArrV(vals))
    ensures var rs := ReadElems(ty, ToJs(ty, ArrV(vals)).elems);
      && |rs| == |vals|
      && forall i | 0 <= i < |vals| ::
           rs[i] == Ok(vals[i]) <==> (ty.useNullable || !vals[i].NoneV?) && FieldSurvives(Field("", ty.elems[i]), ty.useNullable, vals[i])
    decreases ty, 0
  {
    var rs := ReadElems(ty, ToJs(ty, ArrV(vals)).elems);
    forall i | 0 <= i < |vals|
      ensures rs[i] == Ok(vals[i]) <==> (ty.useNullable || !vals[i].NoneV?) && FieldSurvives(Field("", ty.elems[i]), ty.useNullable, vals[i])
    {
      OnlyNullIsNull(ty.elems[i], vals[i]);
      if AlwaysSet(Field("", ty.elems[i]), ty.useNullable) {
        RoundTripExactly(ty.elems[i], vals[i]);
      } else if vals[i].SomeV? {
        RoundTripExactly(ty.elems[i].inner, vals[i].val);
      }
    }
  }

  // The failing case at its smallest: an array struct with one absent element, written
  // without `use_nullable`, is not read back.
  lemma AbsentElementIsNotReadBack()
    ensures var ty := ArrTy([OptTy(LeafTy)], false);
      && WellFormed(ty) && Typed(ty, ArrV([NoneV]))
      && FromJs(ty, ToJs(ty, ArrV([NoneV]))) == Err(WrongType)
  {
    var ty := ArrTy([OptTy(LeafTy)], false);
    var js := ToJs(ty, ArrV([NoneV]));
    assert js == Arr([Undefined]);
    var rs := ReadElems(ty, [Undefined]);
    assert rs == [Err(WrongType)];
    assert rs[..0] == [];
  }

  // ----- what the reader makes of any value, written or not

  // The property is there and not undefined.
  predicate Has(js: Js, name: string) {
    js.Obj? && name in js.props && js.props[name] != Undefined
  }

  // A field reads as `v`: from its property, or as absent where it may be. Null is no
  // absence here: it is converted like any other value.
  ghost predicate FieldReadsAs(field: Field, useNullable: bool, js: Js, v: Val) {
    if !Has(js, field.name) then
      !js.Undefined? && !js.Null? && field.ty.OptTy? && !useNullable && v == NoneV
    else if field.ty.OptTy? && !useNullable then
      v.SomeV? && FromJs(field.ty.inner, js.props[field.name]) == Ok(v.val)
    else
      FromJs(field.ty, js.props[field.name]) == Ok(v)
  }

  ghost predicate FieldsReadAs(fields: seq<Field>, useNullable: bool, js: Js, vs: seq<Val>) {
    |vs| == |fields| && forall i | 0 <= i < |vs| :: FieldReadsAs(fields[i], useNullable, js, vs[i])
  }

  lemma FieldsReadExactly(ty: Ty, k: nat, js: Js, vs: seq<Val>)
    requires ty.ObjTy? || ty.EnumTy?
    ensures Sequence(ReadFields(ty, k, js)) == Ok(vs) <==> FieldsReadAs(FieldsOf(ty, k), ty.useNullable, js, vs)
  {
    SequenceIsOk(ReadFields(ty, k, js), vs);
    forall i | 0 <= i < |FieldsOf(ty, k)| && i < |vs|
      ensures ReadFields(ty, k, js)[i] == Ok(vs[i]) <==> FieldReadsAs(FieldsOf(ty, k)[i], ty.useNullable, js, vs[i])
    {
      ReadFieldsAt(ty, k, js, i);
    }
  }

  // An object type reads any value as `vs` if and only if each field does: one that is
  // always set needs a property that is neither absent nor undefined.
  lemma ObjectReadExactly(ty: Ty, js: Js, v: Val)
    requires ty.ObjTy?
    ensures FromJs(ty, js) == Ok(v) <==> v.ObjV? && FieldsReadAs(ty.fields, ty.useNullable, js, v.vals)
  {
    if v.ObjV? {
      FieldsReadExactly(ty, 0, js, v.vals);
    }
  }

  // An enum reads any value as the k-th variant if and only if its tag is there and is that
  // variant's, no variant before it has the same, and the fields read.
  lemma EnumReadExactly(ty: Ty, js: Js, v: Val)
    requires ty.EnumTy?
    ensures FromJs(ty, js) == Ok(v) <==>
      && v.EnumV? && v.variant < |ty.variants|
      && Has(js, ty.discriminant) && js.props[ty.discriminant] == Str(ty.variants[v.variant].tag)
      && (forall j | 0 <= j < v.variant :: ty.variants[j].tag != ty.variants[v.variant].tag)
      && FieldsReadAs(ty.variants[v.variant].fields, ty.useNullable, js, v.vals)
  {
    if Has(js, ty.discriminant) && js.props[ty.discriminant].Str? {
      var k := FindTag(ty.variants, js.props[ty.discriminant].s);
      if v.EnumV? && k < |ty.variants| {
        FieldsReadExactly(ty, k, js, v.vals);
      }
    }
  }

  // The refusals of an enum: no tag, one that is no string, or one that names no variant.
  lemma EnumRefusals(ty: Ty, js: Js)
    requires ty.EnumTy?
    ensures js.Undefined? || js.Null? ==> FromJs(ty, js) == Err(WrongType)
    ensures !js.Undefined? && !js.Null? && !Has(js, ty.discriminant) ==> FromJs(ty, js) == Err(Missing(ty.discriminant))
    ensures Has(js, ty.discriminant) ==>
      match js.props[ty.discriminant]
      case Str(tag) =>
        (forall k | 0 <= k < |ty.variants| :: ty.variants[k].tag != tag) ==> FromJs(ty, js) == Err(UnknownVariant(tag))
      case _ => FromJs(ty, js) == Err(WrongType)
  {
  }

  // The first field that is always set and not there, with all before it read, is named.
  lemma MissingFieldIsNamed(ty: Ty, js: Js, vs: seq<Val>)
    requires ty.ObjTy? && js.Obj? && |vs| < |ty.fields|
    requires FieldsReadAs(ty.fields[..|vs|], ty.useNullable, js, vs)
    requires AlwaysSet(ty.fields[|vs|], ty.useNullable) && !Has(js, ty.fields[|vs|].name)
    ensures FromJs(ty, js) == Err(Missing(ty.fields[|vs|].name))
  {
    var rs, i := ReadFields(ty, 0, js), |vs|;
    var front := ObjTy(ty.fields[..i], ty.useNullable);
    FieldsReadExactly(front, 0, js, vs);
    assert ReadFields(front, 0, js) == rs[..i];
    ReadFieldsAt(ty, 0, js, i);
    FirstErrorEnds(rs, i);
  }

  lemma {:induction false} FirstErrorEnds(rs: seq<Result<Val, Error>>, i: nat)
    requires i < |rs| && rs[i].Err? && Sequence(rs[..i]).Ok?
    ensures Sequence(rs) == Err(rs[i].error)
  {
    if i < |rs| - 1 {
      var init := rs[..|rs| - 1];
      assert init[..i] == rs[..i];
      FirstErrorEnds(init, i);
    }
  }

  ghost predicate ElemReadsAs(elem: Ty, useNullable: bool, js: seq<Js>, i: nat, v: Val) {
    if elem.OptTy? && !useNullable then
      if i < |js| then v.SomeV? && FromJs(elem.inner, js[i]) == Ok(v.val) else v == NoneV
    else
      i < |js| && FromJs(elem, js[i]) == Ok(v)
  }

  // An array struct reads an array, element by element, and misses only past its end.
  lemma ArrayReadExactly(ty: Ty, js: Js, v: Val)
    requires ty.ArrTy?
    ensures FromJs(ty, js) == Ok(v) <==>
      && js.Arr? && v.ArrV? && |v.vals| == |ty.elems|
      && forall i | 0 <= i < |v.vals| :: ElemReadsAs(ty.elems[i], ty.useNullable, js.elems, i, v.vals[i])
  {
    if js.Arr? && v.ArrV? {
      SequenceIsOk(ReadElems(ty, js.elems), v.vals);
    }
  }

  // Each element of the written array holds its value, or was never set.
  lemma ElementWritten(ty: Ty, v: Val, i: nat)
    requires ty.ArrTy? && Typed(ty, v) && i < |ty.elems|
    ensures var js := ToJs(ty, v);
      && |js.elems| == |ty.elems|
      && (js.elems[i] == Undefined <==> ty.elems[i].OptTy? && !ty.useNullable && v.vals[i] == NoneV)
      && (js.elems[i] != Undefined ==> js.elems[i] == ToJs(ty.elems[i], v.vals[i]))
  {
    OnlyNullIsNull(ty.elems[i], v.vals[i]);
  }

  // Whatever is read, from any value at all, is a value of its type.
  lemma {:induction false} ReadIsTyped(ty: Ty, js: Js)
    ensures FromJs(ty, js).Ok? ==> Typed(ty, FromJs(ty, js).value)
    decreases ty, 1
  {
    if FromJs(ty, js).Ok? {
      var v := FromJs(ty, js).value;
      match ty {
        case LeafTy =>
        case OptTy(inner) =>
          ReadIsTyped(inner, js);
        case ObjTy(fields, _) =>
          ObjectReadExactly(ty, js, v);
          FieldsAreTyped(ty, 0, js, v.vals);
        case ArrTy(_, _) =>
          ArrayReadExactly(ty, js, v);
          ElemsAreTyped(ty, js.elems, v.vals);
        case EnumTy(_, _, _) =>
          EnumReadExactly(ty, js, v);
          FieldsAreTyped(ty, v.variant, js, v.vals);
      }
    }
  }

  lemma {:induction false} FieldsAreTyped(ty: Ty, k: nat, js: Js, vs: seq<Val>)
    requires (ty.ObjTy? || ty.EnumTy?) && FieldsReadAs(FieldsOf(ty, k), ty.useNullable, js, vs)
    ensures TypedFields(FieldsOf(ty, k), vs)
    decreases ty, 0
  {
    var fields := FieldsOf(ty, k);
    forall i | 0 <= i < |vs|
      ensures Typed(fields[i].ty, vs[i])
    {
      assert FieldReadsAs(fields[i], ty.useNullable, js, vs[i]);
      if Has(js, fields[i].name) {
        if fields[i].ty.OptTy? && !ty.useNullable {
          ReadIsTyped(fields[i].ty.inner, js.props[fields[i].name]);
        } else {
          ReadIsTyped(fields[i].ty, js.props[fields[i].name]);
        }
      }
    }
  }

  lemma {:induction false} ElemsAreTyped(ty: Ty, js: seq<Js>, vs: seq<Val>)
    requires ty.ArrTy? && |vs| == |ty.elems|
    requires forall i | 0 <= i < |vs| :: ElemReadsAs(ty.elems[i], ty.useNullable, js, i, vs[i])
    ensures Typed(ty, ArrV(vs))
    decreases ty, 0
  {
    forall i | 0 <= i < |vs|
      ensures Typed(ty.elems[i], vs[i])
    {
      assert ElemReadsAs(ty.elems[i], ty.useNullable, js, i, vs[i]);
      if i < |js| {
        if ty.elems[i].OptTy? && !ty.useNullable {
          ReadIsTyped(ty.elems[i].inner, js[i]);
        } else {
          ReadIsTyped(ty.elems[i], js[i]);
        }
      }
    }
  }

  // What was read from any value, written and read again, is the same if and only if it
  // survives.
  lemma RereadExactly(ty: Ty, js: Js)
    requires WellFormed(ty) && FromJs(ty, js).Ok?
    ensures var v := FromJs(ty, js).value;
      Typed(ty, v) && (FromJs(ty, ToJs(ty, v)) == Ok(v) <==> Survives(ty, v))
  {
    ReadIsTyped(ty, js);
    RoundTripExactly(ty, FromJs(ty, js).value);
  }

  const NESTED := Field("a", OptTy(OptTy(LeafTy)))

  lemma NestedSurvives(useNullable: bool)
    ensures FieldSurvives(NESTED, useNullable, SomeV(NoneV)) <==> !useNullable
  {
    assert IsNull(NoneV);
  }

  // An option of an option that holds an absent one: a field tells it from an absent field
  // by the property alone, so it is read back if and only if the property is conditional.
  lemma NestedAbsenceExactly(useNullable: bool)
    ensures var ty, v := ObjTy([NESTED], useNullable), ObjV([SomeV(NoneV)]);
      && WellFormed(ty) && Typed(ty, v)
      && (FromJs(ty, ToJs(ty, v)) == Ok(v) <==> !useNullable)
  {
    var ty, v := ObjTy([NESTED], useNullable), ObjV([SomeV(NoneV)]);
    NestedSurvives(useNullable);
    RoundTripExactly(ty, v);
    assert Survives(ty, v) <==> FieldSurvives(ty.fields[0], useNullable, v.vals[0]);
  }
}
