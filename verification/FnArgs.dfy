/**
 The two back ends of `#[napi]` that walk a function's parameter list on their own: code
 generation, which decides what each Rust parameter is converted from, and type
 generation, which decides what the TypeScript signature lists.
 */
module FnArgs {
  import opened Wrappers

  // ----- the syntax both look at

  // The identifiers either back end compares with; `TypedArrayElem` are the primitive
  // types with a typed array slice.
  datatype Ident =
    | Env | Reference | WeakReference | This | LowerThis | Vec | Opt | FnArgsTy
    | Str
    | TypedArrayElem(name: string)
    | OtherPrimitive(name: string)
    | Other(name: string)

  predicate IsPrimitive(id: Ident) {
    id.Str? || id.TypedArrayElem? || id.OtherPrimitive?
  }

  datatype Ty =
    | Path(colons: bool, qself: bool, segments: seq<Segment>) // leading colons; a qualified self
    | Ref(mutable: bool, elem: Ty)
    | Slice(elem: Ty)
    | Wrapped(elem: Ty)                        // array, group or parentheses
    | OtherTy

  datatype Segment = Segment(id: Ident, args: PathArgs)

  datatype PathArgs = NoArgs | Angle(args: seq<GenericArg>) | Parens

  datatype GenericArg = TypeArg(ty: Ty) | BoolArg | OtherArg // a lifetime, say

  // `name` is the parameter name as type generation prints it, in camel case.
  datatype Param = PatType(name: string, ty: Ty) | Callback(name: string)

  datatype Kind = Normal | Constructor | Factory | Getter | Setter

  datatype Fn = Fn(params: seq<Param>, parent: Option<Ident>, borrowsSelf: bool, kind: Kind)

  function LastSegment(ty: Ty): Option<Segment> {
    if ty.Path? && ty.segments != [] then Some(ty.segments[|ty.segments| - 1]) else None
  }

  function FirstIdent(ty: Ty): Option<Ident> {
    if ty.Path? && ty.segments != [] then Some(ty.segments[0].id) else None
  }

  predicate LastIs(ty: Ty, id: Ident) {
    LastSegment(ty).Some? && LastSegment(ty).value.id == id
  }

  // The first generic argument of the last segment, when it is a type.
  function FirstTypeArg(ty: Ty): Option<Ty> {
    match LastSegment(ty)
    case Some(Segment(_, Angle(args))) => if args != [] && args[0].TypeArg? then Some(args[0].ty) else None
    case _ => None
  }

  // `ty.to_token_stream().to_string() == "Env"`
  predicate PrintsAsEnv(ty: Ty) {
    ty == Path(false, false, [Segment(Env, NoArgs)])
  }

  // The first generic argument is a path that starts with the class.
  predicate OfParent(fn: Fn, ty: Ty) {
    match FirstTypeArg(ty)
    case Some(arg) => fn.parent.Some? && FirstIdent(arg) == fn.parent
    case None => false
  }

  // ----- code generation

  datatype Error = ReferenceOutsideClass | PrimitiveThis | StrByReference

  // What a Rust parameter is made from.
  datatype Source = WrappedEnv | BorrowedEnv | ParentReference | CbThis | GetArg(index: nat)

  // A reference kept alive for an async call.
  datatype Kept = KeptThis | KeptArg(index: nat)

  datatype ArgType = ByRef | ByMutRef | ByValue | EnvArg

  // `gen_ty_arg_conversion`, as far as it classifies the type.
  function ArgTypeOf(ty: Ty): Result<ArgType, Error> {
    match ty
    case Ref(true, _) => Ok(ByMutRef)
    case Ref(false, elem) =>
      if elem.Slice? && FirstIdent(elem.elem).Some? && FirstIdent(elem.elem).value.TypedArrayElem? then Ok(ByRef)
      else if LastIs(elem, Env) then Ok(EnvArg)
      else if LastIs(elem, Str) then Err(StrByReference)
      else Ok(ByRef)
    case Path(_, _, segments) =>
      if segments != [] && segments[0].id == Vec && HasRefArg(segments[0].args) then Ok(ByRef) else Ok(ByValue)
    case _ => Ok(ByValue)
  }

  predicate HasRefArg(args: PathArgs) {
    args.Angle? && args.args != [] && args.args[0].TypeArg? && args.args[0].ty.Ref?
  }

  // How one parameter is converted, apart from its index.
  datatype Role = FromEnv(borrowed: bool) | FromParent | FromThis(kept: bool) | Positional(kept: bool)

  function RoleOf(fn: Fn, param: Param): Result<Role, Error> {
    match param
    case Callback(_) => Ok(Positional(false))
    case PatType(_, ty) =>
      if PrintsAsEnv(ty) then Ok(FromEnv(false))
      else if LastIs(ty, Reference) && fn.parent.None? then Err(ReferenceOutsideClass)
      else if LastIs(ty, Reference) && OfParent(fn, ty) then Ok(FromParent)
      else if LastIs(ty, This) then ThisRole(ty)
      else
        match ArgTypeOf(ty)
        case Err(e) => Err(e)
        case Ok(EnvArg) => Ok(FromEnv(true))
        case Ok(argType) => Ok(Positional(argType != ByValue))
  }

  function ThisRole(ty: Ty): Result<Role, Error> {
    match FirstTypeArg(ty)
    case Some(arg) =>
      if arg.Path? && FirstIdent(arg).Some? then
        if IsPrimitive(FirstIdent(arg).value) then Err(PrimitiveThis) else Ok(FromThis(false))
      else Ok(FromThis(true))
    case None => Ok(FromThis(true))
  }

  predicate Accepted(fn: Fn) {
    forall p | 0 <= p < |fn.params| :: RoleOf(fn, fn.params[p]).Ok?
  }

  predicate IsPositional(fn: Fn, param: Param) {
    RoleOf(fn, param).Ok? && RoleOf(fn, param).value.Positional?
  }

  // The parameters taken from JS arguments, in order.
  function Positionals(fn: Fn, params: seq<Param>): seq<Param> {
    if params == [] then []
    else
      var last := params[|params| - 1];
      Positionals(fn, params[..|params| - 1]) + if IsPositional(fn, last) then [last] else []
  }

  function SourceOf(role: Role, index: nat): Source {
    match role
    case FromEnv(false) => WrappedEnv
    case FromEnv(true) => BorrowedEnv
    case FromParent => ParentReference
    case FromThis(_) => CbThis
    case Positional(_) => GetArg(index)
  }

  function KeptBy(role: Role, index: nat): seq<Kept> {
    match role
    case FromThis(true) => [KeptThis]
    case Positional(true) => [KeptArg(index)]
    case _ => []
  }

  predicate Converted(fn: Fn, args: seq<Source>) {
    && |args| <= |fn.params|
    && forall p | 0 <= p < |args| :: ConvertedAt(fn, p, args[p])
  }

  predicate ConvertedAt(fn: Fn, p: nat, source: Source)
    requires p < |fn.params|
  {
    var role := RoleOf(fn, fn.params[p]);
    role.Ok? && source == SourceOf(role.value, |Positionals(fn, fn.params[..p])|)
  }

  datatype ArgConversions = ArgConversions(args: seq<Source>, refs: seq<Kept>)

  // The references an async call keeps, in the order they are made.
  function AllKept(fn: Fn, params: seq<Param>): seq<Kept> {
    if params == [] then
      if fn.parent.Some? && fn.borrowsSelf then [KeptThis] else []
    else
      var init, role := params[..|params| - 1], RoleOf(fn, params[|params| - 1]);
      AllKept(fn, init) + if role.Ok? then KeptBy(role.value, |Positionals(fn, init)|) else []
  }

  // One more parameter that is accepted: what it adds to each list.
  lemma OneMoreParam(fn: Fn, i: nat, args: seq<Source>)
    requires i < |fn.params| && |args| == i && Converted(fn, args) && RoleOf(fn, fn.params[i]).Ok?
    ensures var role, index := RoleOf(fn, fn.params[i]).value, |Positionals(fn, fn.params[..i])|;
      && Converted(fn, args + [SourceOf(role, index)])
      && AllKept(fn, fn.params[..i + 1]) == AllKept(fn, fn.params[..i]) + KeptBy(role, index)
      && |Positionals(fn, fn.params[..i + 1])| == index + if role.Positional? then 1 else 0
  {
    var role, index := RoleOf(fn, fn.params[i]).value, |Positionals(fn, fn.params[..i])|;
    assert fn.params[..i + 1][..i] == fn.params[..i];
    var more := args + [SourceOf(role, index)];
    forall p | 0 <= p < |more|
      ensures ConvertedAt(fn, p, more[p])
    {
      assert p < i ==> ConvertedAt(fn, p, args[p]);
    }
  }

  // `gen_arg_conversions`: the index handed to `get_arg` is the position less the
  // parameters skipped so far.
  method GenArgConversions(fn: Fn) returns (r: Result<ArgConversions, Error>)
    ensures r.Ok? <==> Accepted(fn)
    ensures r.Ok? ==> |r.value.args| == |fn.params| && Converted(fn, r.value.args)
    ensures r.Ok? ==> r.value.refs == AllKept(fn, fn.params)
  {
    var args, refs := [], [];
    if fn.parent.Some? && fn.borrowsSelf {
      refs := refs + [KeptThis];
    }
    var skipped := 0;
    for i := 0 to |fn.params|
      invariant |args| == i && 0 <= skipped <= i
      invariant i - skipped == |Positionals(fn, fn.params[..i])|
      invariant Converted(fn, args)
      invariant refs == AllKept(fn, fn.params[..i])
    {
      var index := i - skipped;
      match RoleOf(fn, fn.params[i]) {
        case Err(e) =>
          assert !Accepted(fn);
          return Err(e);
        case Ok(role) =>
          OneMoreParam(fn, i, args);
          args := args + [SourceOf(role, index)];
          refs := refs + KeptBy(role, index);
          if !role.Positional? {
            skipped := skipped + 1;
          }
      }
    }
    forall p | 0 <= p < |fn.params| ensures RoleOf(fn, fn.params[p]).Ok? {
      assert ConvertedAt(fn, p, args[p]);
    }
    assert fn.params[..|fn.params|] == fn.params;
    r := Ok(ArgConversions(args, refs));
  }

  predicate KeptParam(fn: Fn, params: seq<Param>, p: nat, k: nat) {
    p < |params| && RoleOf(fn, params[p]) == Ok(Positional(true)) && |Positionals(fn, params[..p])| == k
  }

  // A borrowed receiver, or a `This` that asks for one.
  predicate KeepsThis(fn: Fn, params: seq<Param>) {
    || (fn.parent.Some? && fn.borrowsSelf)
    || exists p :: 0 <= p < |params| && RoleOf(fn, params[p]) == Ok(FromThis(true))
  }

  lemma KeptOfMore(fn: Fn, init: seq<Param>, last: Param, k: nat)
    ensures (exists p: nat :: KeptParam(fn, init + [last], p, k))
      <==> (exists p: nat :: KeptParam(fn, init, p, k)) || KeptParam(fn, init + [last], |init|, k)
    ensures KeepsThis(fn, init + [last]) <==> KeepsThis(fn, init) || RoleOf(fn, last) == Ok(FromThis(true))
  {
    var params := init + [last];
    forall p: nat | p < |init|
      ensures KeptParam(fn, init, p, k) <==> KeptParam(fn, params, p, k)
    {
      assert init[..p] == params[..p];
    }
    assert forall p | 0 <= p < |init| :: params[p] == init[p];
    assert params[|init|] == last;
  }

  // What is kept, by the roles of the parameters.
  lemma {:induction false} KeptRoles(fn: Fn, params: seq<Param>, k: nat)
    ensures KeptArg(k) in AllKept(fn, params) <==> exists p: nat :: KeptParam(fn, params, p, k)
    ensures KeptThis in AllKept(fn, params) <==> KeepsThis(fn, params)
  {
    if params != [] {
      var init, last := params[..|params| - 1], params[|params| - 1];
      KeptRoles(fn, init, k);
      assert params == init + [last];
      KeptOfMore(fn, init, last, k);
      KeptByLast(fn, params, k);
    }
  }

  lemma KeptByLast(fn: Fn, params: seq<Param>, k: nat)
    requires params != []
    ensures var n := |params| - 1;
      var role := RoleOf(fn, params[n]);
      && (KeptParam(fn, params, n, k)
          <==> role.Ok? && KeptArg(k) in KeptBy(role.value, |Positionals(fn, params[..n])|))
      && (role == Ok(FromThis(true))
          <==> role.Ok? && KeptThis in KeptBy(role.value, |Positionals(fn, params[..n])|))
  {
  }

  // ----- the same, read off the types

  predicate BorrowsEnv(ty: Ty) {
    ty.Ref? && !ty.mutable && LastIs(ty.elem, Env)
  }

  // A `Reference` to the class itself.
  predicate OwnHandle(fn: Fn, ty: Ty) {
    LastIs(ty, Reference) && OfParent(fn, ty)
  }

  // `This<T>` where T is a path that begins with this identifier.
  predicate ThisOf(ty: Ty, id: Ident) {
    LastIs(ty, This) && FirstTypeArg(ty).Some? && FirstIdent(FirstTypeArg(ty).value) == Some(id)
  }

  // The types that stop code generation: a `Reference` outside a class, `This` of a
  // primitive, a borrowed string.
  ghost predicate Refused(fn: Fn, ty: Ty) {
    || (LastIs(ty, Reference) && fn.parent.None?)
    || (exists id :: IsPrimitive(id) && ThisOf(ty, id))
    || (ty.Ref? && !ty.mutable && LastIs(ty.elem, Str))
  }

  // Taken from a JS argument: every type but those of the environment, of the class's own
  // handle and of the receiver.
  ghost predicate ByPosition(fn: Fn, param: Param) {
    param.PatType? ==>
      var ty := param.ty;
      !Refused(fn, ty) && !PrintsAsEnv(ty) && !BorrowsEnv(ty) && !OwnHandle(fn, ty) && !LastIs(ty, This)
  }

  // A reference, mutable or not, or a vector of them.
  predicate ByReference(ty: Ty) {
    || ty.Ref?
    || (ty.Path? && ty.segments != [] && ty.segments[0].id == Vec && HasRefArg(ty.segments[0].args))
  }

  // `This` keeps the receiver unless it is made of a path.
  ghost predicate KeepsReceiver(fn: Fn, ty: Ty) {
    LastIs(ty, This) && forall id :: !ThisOf(ty, id)
  }

  lemma RoleByType(fn: Fn, name: string, ty: Ty)
    ensures var role := RoleOf(fn, PatType(name, ty));
      && (role.Err? <==> Refused(fn, ty))
      && (role == Ok(FromEnv(false)) <==> PrintsAsEnv(ty))
      && (role == Ok(FromEnv(true)) <==> BorrowsEnv(ty))
      && (role == Ok(FromParent) <==> OwnHandle(fn, ty) && fn.parent.Some?)
      && (role == Ok(FromThis(true)) <==> KeepsReceiver(fn, ty))
      && (role == Ok(FromThis(false)) <==> LastIs(ty, This) && !KeepsReceiver(fn, ty) && !Refused(fn, ty))
      && (role == Ok(Positional(true)) <==> ByPosition(fn, PatType(name, ty)) && ByReference(ty))
      && (role == Ok(Positional(false)) <==> ByPosition(fn, PatType(name, ty)) && !ByReference(ty))
  {
    if LastIs(ty, This) && FirstTypeArg(ty).Some? && FirstIdent(FirstTypeArg(ty).value).Some? {
      assert ThisOf(ty, FirstIdent(FirstTypeArg(ty).value).value);
    }
  }

  // How many of these parameters are taken from JS arguments.
  ghost function Place(fn: Fn, params: seq<Param>): nat {
    if params == [] then 0
    else Place(fn, params[..|params| - 1]) + if ByPosition(fn, params[|params| - 1]) then 1 else 0
  }

  lemma {:induction false} PlaceIsIndex(fn: Fn, params: seq<Param>)
    ensures |Positionals(fn, params)| == Place(fn, params)
  {
    if params != [] {
      var last := params[|params| - 1];
      PlaceIsIndex(fn, params[..|params| - 1]);
      if last.PatType? {
        RoleByType(fn, last.name, last.ty);
      }
    }
  }

  // Code generation accepts a function if and only if no type in it is one of the refused.
  lemma AcceptedExactly(fn: Fn)
    ensures Accepted(fn)
      <==> forall p | 0 <= p < |fn.params| && fn.params[p].PatType? :: !Refused(fn, fn.params[p].ty)
  {
    forall p | 0 <= p < |fn.params| && fn.params[p].PatType?
      ensures RoleOf(fn, fn.params[p]).Ok? <==> !Refused(fn, fn.params[p].ty)
    {
      RoleByType(fn, fn.params[p].name, fn.params[p].ty);
    }
  }

  // What each parameter is made from, by its type; the index given to `get_arg` is the
  // number of JS arguments taken before.
  lemma SourcesExactly(fn: Fn, args: seq<Source>, p: nat, name: string, ty: Ty)
    requires Converted(fn, args) && p < |args| && fn.params[p] == PatType(name, ty)
    ensures args[p] == WrappedEnv <==> PrintsAsEnv(ty)
    ensures args[p] == BorrowedEnv <==> BorrowsEnv(ty)
    ensures args[p] == ParentReference <==> OwnHandle(fn, ty)
    ensures args[p] == CbThis <==> LastIs(ty, This)
    ensures forall k: nat :: args[p] == GetArg(k) <==> ByPosition(fn, PatType(name, ty)) && k == Place(fn, fn.params[..p])
  {
    assert ConvertedAt(fn, p, args[p]);
    RoleByType(fn, name, ty);
    PlaceIsIndex(fn, fn.params[..p]);
  }

  // The value of a JS argument is kept if and only if its parameter's type is a reference
  // or a vector of references; the receiver, if it is borrowed or some `This` is not made
  // of a path.
  lemma KeptExactly(fn: Fn, params: seq<Param>, k: nat)
    ensures KeptArg(k) in AllKept(fn, params) <==> exists p: nat :: p < |params| && HoldsArg(fn, params, p, k)
    ensures KeptThis in AllKept(fn, params) <==>
      || (fn.parent.Some? && fn.borrowsSelf)
      || exists p: nat :: p < |params| && params[p].PatType? && KeepsReceiver(fn, params[p].ty)
  {
    KeptRoles(fn, params, k);
    forall p: nat | p < |params|
      ensures KeptParam(fn, params, p, k) <==> HoldsArg(fn, params, p, k)
      ensures RoleOf(fn, params[p]) == Ok(FromThis(true)) <==> params[p].PatType? && KeepsReceiver(fn, params[p].ty)
    {
      PlaceIsIndex(fn, params[..p]);
      if params[p].PatType? {
        RoleByType(fn, params[p].name, params[p].ty);
      }
    }
  }

  predicate InOrder(refs: seq<Kept>, bound: nat) {
    && (forall i | 0 <= i < |refs| && refs[i].KeptArg? :: refs[i].index < bound)
    && forall i, j | 0 <= i < j < |refs| && refs[i].KeptArg? && refs[j].KeptArg? :: refs[i].index < refs[j].index
  }

  // Arguments are kept in order, each once.
  lemma {:induction false} KeptInOrder(fn: Fn, params: seq<Param>)
    ensures InOrder(AllKept(fn, params), Place(fn, params))
  {
    if params != [] {
      var init, last := params[..|params| - 1], params[|params| - 1];
      KeptInOrder(fn, init);
      PlaceIsIndex(fn, init);
      if last.PatType? {
        RoleByType(fn, last.name, last.ty);
      }
    }
  }

  ghost predicate HoldsArg(fn: Fn, params: seq<Param>, p: nat, k: nat)
    requires p < |params|
  {
    params[p].PatType? && ByReference(params[p].ty) && ByPosition(fn, params[p]) && Place(fn, params[..p]) == k
  }

  // ----- type generation

  // One argument of the signature: its printed name, and the parameter it comes from.
  datatype FnArg = FnArg(name: string, optional: bool, param: Param)

  const THIS := "this"

  // The `is_optional` part of `ty_to_ts_type`.
  predicate OptionalTy(ty: Ty) {
    match ty
    case Ref(_, elem) => OptionalTy(elem)
    case Wrapped(elem) => OptionalTy(elem)
    case Path(_, qself, segments) =>
      !qself && segments != [] &&
      (match segments[|segments| - 1]
       case Segment(Opt, Angle(args)) => FirstKept(args) < |args|
       case Segment(FnArgsTy, Angle(args)) =>
         var i := FirstKept(args);
         i < |args| && args[i].TypeArg? && OptionalTy(args[i].ty)
       case _ => false)
    case _ => false
  }

  // The first generic argument that is a type or a boolean.
  function FirstKept(args: seq<GenericArg>): (i: nat)
    ensures i <= |args|
  {
    if args == [] || !args[0].OtherArg? then 0 else 1 + FirstKept(args[1..])
  }

  // What is behind references, parentheses and `FnArgs`.
  function Core(ty: Ty): Ty {
    match ty
    case Ref(_, elem) => Core(elem)
    case Wrapped(elem) => Core(elem)
    case Path(_, false, segments) =>
      if segments != [] && segments[|segments| - 1].id == FnArgsTy then
        match segments[|segments| - 1].args
        case Angle(args) =>
          var i := FirstKept(args);
          if i < |args| && args[i].TypeArg? then Core(args[i].ty) else ty
        case _ => ty
      else ty
    case _ => ty
  }

  // `Option` of a type; a lifetime is not enough.
  predicate IsOption(ty: Ty) {
    && ty.Path? && !ty.qself && LastIs(ty, Opt)
    && match LastSegment(ty).value.args
       case Angle(args) => exists i :: 0 <= i < |args| && !args[i].OtherArg?
       case _ => false
  }

  lemma {:induction false} KeptIsThere(args: seq<GenericArg>)
    ensures FirstKept(args) < |args| <==> exists i :: 0 <= i < |args| && !args[i].OtherArg?
  {
    if args != [] && args[0].OtherArg? {
      KeptIsThere(args[1..]);
      if i :| 0 <= i < |args| && !args[i].OtherArg? {
        assert !args[1..][i - 1].OtherArg?;
      }
    }
  }

  // A type is optional if and only if it comes down to an `Option`.
  lemma {:induction false} OptionalExactly(ty: Ty)
    ensures OptionalTy(ty) <==> IsOption(Core(ty))
  {
    match ty {
      case Ref(_, elem) => OptionalExactly(elem);
      case Wrapped(elem) => OptionalExactly(elem);
      case Path(_, false, segments) =>
        if segments != [] && segments[|segments| - 1].args.Angle? {
          var args := segments[|segments| - 1].args.args;
          KeptIsThere(args);
          var i := FirstKept(args);
          if segments[|segments| - 1].id == FnArgsTy && i < |args| && args[i].TypeArg? {
            OptionalExactly(args[i].ty);
          }
        }
      case _ =>
    }
  }

  // The closure of `gen_ts_func_args`: what a parameter contributes, if anything.
  function TsArg(fn: Fn, param: Param): Option<FnArg> {
    match param
    case Callback(name) => Some(FnArg(name, false, param))
    case PatType(name, ty) =>
      if PrintsAsEnv(ty) || (ty.Ref? && LastIs(ty.elem, Env)) then None
      else if (LastIs(ty, Reference) || LastIs(ty, WeakReference)) && OfParent(fn, ty) then None
      else if LastIs(ty, This) || LastIs(ty, LowerThis) then
        if fn.kind != Normal then None
        else if LastSegment(ty).value.args.Angle? && FirstTypeArg(ty).None? then None
        else Some(FnArg(THIS, false, param))
      else Some(FnArg(name, OptionalTy(ty), param))
  }

  // `FnArgList`
  datatype FnArgList = FnArgList(receiver: Option<FnArg>, args: seq<FnArg>, lastRequired: Option<nat>)

  function TsArgs(fn: Fn, params: seq<Param>): seq<FnArg> {
    if params == [] then []
    else
      var last := TsArg(fn, params[|params| - 1]);
      TsArgs(fn, params[..|params| - 1]) + if last.Some? then [last.value] else []
  }

  // The arguments in position: all but those named `this`.
  function Placed(args: seq<FnArg>): seq<FnArg> {
    if args == [] then []
    else
      var last := args[|args| - 1];
      Placed(args[..|args| - 1]) + if last.name != THIS then [last] else []
  }

  predicate AllOptionalFrom(args: seq<FnArg>, k: int) {
    forall j | 0 <= k <= j < |args| :: args[j].optional
  }

  method GenTsFuncArgs(fn: Fn) returns (args: seq<FnArg>)
    ensures args == TsArgs(fn, fn.params)
  {
    args := [];
    for i := 0 to |fn.params|
      invariant args == TsArgs(fn, fn.params[..i])
    {
      assert fn.params[..i + 1][..i] == fn.params[..i];
      var arg := TsArg(fn, fn.params[i]);
      assert args + [] == args;
      if arg.Some? {
        args := args + [arg.value];
      }
    }
    assert fn.params[..|fn.params|] == fn.params;
  }

  // `FnArgList::from_iter`
  method Collect(iter: seq<FnArg>) returns (list: FnArgList)
    ensures list.args == Placed(iter)
    ensures list.receiver.Some? <==> exists i | 0 <= i < |iter| :: iter[i].name == THIS
    ensures forall k | 0 <= k < |list.args| ::
      AllOptionalFrom(list.args, k) <==> list.lastRequired.None? || k > list.lastRequired.value
  {
    var args, receiver := [], None;
    for i := 0 to |iter|
      invariant args == Placed(iter[..i])
      invariant receiver.Some? <==> exists j | 0 <= j < i :: iter[j].name == THIS
    {
      assert iter[..i + 1][..i] == iter[..i];
      assert args + [] == args;
      if iter[i].name != THIS {
        args := args + [iter[i]];
      } else {
        receiver := Some(iter[i]);
      }
    }
    assert iter[..|iter|] == iter;
    var k := |args|;
    while k > 0 && args[k - 1].optional
      invariant 0 <= k <= |args| && AllOptionalFrom(args, k)
    {
      k := k - 1;
    }
    list := FnArgList(receiver, args, if k == 0 then None else Some(k - 1));
    assert k > 0 ==> !args[k - 1].optional;
  }

  // One printed argument.
  datatype Printed = Printed(arg: FnArg, mark: bool)

  // `Display for FnArgList`, without the receiver: which arguments get a `?`. They are
  // the ones of the longest optional suffix, and none in a setter.
  method Print(list: FnArgList, isSetter: bool) returns (out: seq<Printed>)
    requires forall k | 0 <= k < |list.args| ::
      AllOptionalFrom(list.args, k) <==> list.lastRequired.None? || k > list.lastRequired.value
    ensures |out| == |list.args|
    ensures forall k | 0 <= k < |out| :: out[k] == Printed(list.args[k], !isSetter && AllOptionalFrom(list.args, k))
  {
    out := [];
    for i := 0 to |list.args|
      invariant |out| == i
      invariant forall k | 0 <= k < i :: out[k] == Printed(list.args[k], !isSetter && AllOptionalFrom(list.args, k))
    {
      var mark := !isSetter && list.args[i].optional && (list.lastRequired.None? || i > list.lastRequired.value);
      out := out + [Printed(list.args[i], mark)];
    }
  }

  // ----- agreement

  // The parameters on which the two disagree: JS passes them by position, and the
  // signature does not list them.
  predicate Unlisted(fn: Fn, param: Param) {
    IsPositional(fn, param) &&
    match param
    case Callback(name) => name == THIS
    case PatType(name, ty) =>
      || name == THIS
      || (ty.Ref? && ty.mutable && LastIs(ty.elem, Env))
      || (LastIs(ty, WeakReference) && OfParent(fn, ty))
      || LastIs(ty, LowerThis)
  }

  predicate Listed(fn: Fn, param: Param) {
    TsArg(fn, param).Some? && TsArg(fn, param).value.name != THIS
  }

  // Parameter by parameter, the signature lists what JS passes, with exactly these
  // exceptions.
  lemma ListedExactly(fn: Fn, param: Param)
    requires RoleOf(fn, param).Ok?
    ensures Listed(fn, param) <==> IsPositional(fn, param) && !Unlisted(fn, param)
  {
  }

  lemma CallbackIsListed(fn: Fn, name: string)
    ensures var arg := TsArg(fn, Callback(name));
      arg.Some? && arg.value.name == name && !arg.value.optional && IsPositional(fn, Callback(name))
  {
  }

  // A listed parameter has its own name, and is optional if and only if its type comes down
  // to an `Option`; a `This` is printed in a plain function alone, unless its arguments
  // hold no type in front.
  lemma ListedAs(fn: Fn, name: string, ty: Ty)
    ensures var arg, receiver := TsArg(fn, PatType(name, ty)), LastIs(ty, This) || LastIs(ty, LowerThis);
      && (arg.Some? ==> arg.value.name == if receiver then THIS else name)
      && (arg.Some? ==> (arg.value.optional <==> !receiver && IsOption(Core(ty))))
      && (receiver ==>
            (arg.Some? <==> (fn.kind == Normal && (FirstTypeArg(ty).Some? || !LastSegment(ty).value.args.Angle?))))
  {
    OptionalExactly(ty);
  }

  function ParamsOf(args: seq<FnArg>): seq<Param> {
    seq(|args|, i requires 0 <= i < |args| => args[i].param)
  }

  function Count(fn: Fn, params: seq<Param>): nat {
    if params == [] then 0
    else Count(fn, params[..|params| - 1]) + if Unlisted(fn, params[|params| - 1]) then 1 else 0
  }

  lemma {:induction false} ListsMatch(fn: Fn, params: seq<Param>)
    requires forall p | 0 <= p < |params| :: RoleOf(fn, params[p]).Ok?
    ensures |Placed(TsArgs(fn, params))| + Count(fn, params) == |Positionals(fn, params)|
    ensures Count(fn, params) == 0 ==> ParamsOf(Placed(TsArgs(fn, params))) == Positionals(fn, params)
  {
    if params != [] {
      var init, last := params[..|params| - 1], params[|params| - 1];
      ListsMatch(fn, init);
      ListedExactly(fn, last);
      ListedParam(fn, last);
      OneMore(fn, params);
    }
  }

  lemma ListedParam(fn: Fn, param: Param)
    ensures TsArg(fn, param).Some? ==> TsArg(fn, param).value.param == param
  {
  }

  lemma OneMore(fn: Fn, params: seq<Param>)
    requires params != []
    ensures var init, last := params[..|params| - 1], params[|params| - 1];
      && Placed(TsArgs(fn, params)) == Placed(TsArgs(fn, init)) + (if Listed(fn, last) then [TsArg(fn, last).value] else [])
      && Positionals(fn, params) == Positionals(fn, init) + (if IsPositional(fn, last) then [last] else [])
  {
    PlacedOfMore(TsArgs(fn, params[..|params| - 1]), TsArg(fn, params[|params| - 1]));
  }

  lemma PlacedOfMore(args: seq<FnArg>, more: Option<FnArg>)
    ensures Placed(args + if more.Some? then [more.value] else [])
         == Placed(args) + if more.Some? && more.value.name != THIS then [more.value] else []
  {
    if more.Some? {
      assert (args + [more.value])[..|args|] == args;
    } else {
      assert args + [] == args;
    }
  }

  // For every function both back ends accept: the signature and the calls of `get_arg`
  // agree, position by position, if and only if no parameter is one of the exceptions.
  lemma BackEndsAgreeExactly(fn: Fn)
    requires Accepted(fn)
    ensures ParamsOf(Placed(TsArgs(fn, fn.params))) == Positionals(fn, fn.params)
      <==> forall p | 0 <= p < |fn.params| :: !Unlisted(fn, fn.params[p])
  {
    ListsMatch(fn, fn.params);
    CountIsZero(fn, fn.params);
  }

  lemma {:induction false} CountIsZero(fn: Fn, params: seq<Param>)
    ensures Count(fn, params) == 0 <==> forall p | 0 <= p < |params| :: !Unlisted(fn, params[p])
  {
    if params != [] {
      var init := params[..|params| - 1];
      CountIsZero(fn, init);
      assert forall p | 0 <= p < |init| :: init[p] == params[p];
    }
  }

  lemma {:induction false} NoMorePositionals(fn: Fn, params: seq<Param>)
    ensures |Positionals(fn, params)| <= |params|
  {
    if params != [] {
      NoMorePositionals(fn, params[..|params| - 1]);
    }
  }

  // The index used for a positional parameter is its place among them: the indices are
  // 0, 1, .. without gaps, and all below the number of parameters.
  lemma {:induction false} IndexIsPlace(fn: Fn, params: seq<Param>, p: nat)
    requires p < |params|
    ensures |Positionals(fn, params[..p])| <= p
    ensures IsPositional(fn, params[p]) ==>
      && |Positionals(fn, params[..p])| < |Positionals(fn, params)| <= |params|
      && Positionals(fn, params)[|Positionals(fn, params[..p])|] == params[p]
  {
    var init, last := params[..|params| - 1], params[|params| - 1];
    NoMorePositionals(fn, params);
    NoMorePositionals(fn, params[..p]);
    var more := if IsPositional(fn, last) then [last] else [];
    assert Positionals(fn, params) == Positionals(fn, init) + more;
    if p < |init| {
      IndexIsPlace(fn, init, p);
      assert init[..p] == params[..p] && init[p] == params[p];
    }
  }

  // The contract between JS callers and generated code: the k-th parameter of the
  // signature is the one Rust takes from the k-th argument.
  lemma SignatureMatchesCode(fn: Fn, p: nat)
    requires Accepted(fn) && p < |fn.params| && IsPositional(fn, fn.params[p])
    requires forall q | 0 <= q < |fn.params| :: !Unlisted(fn, fn.params[q])
    ensures var k := |Positionals(fn, fn.params[..p])|;
      && SourceOf(RoleOf(fn, fn.params[p]).value, k) == GetArg(k)
      && k < |Placed(TsArgs(fn, fn.params))| <= |fn.params|
      && Placed(TsArgs(fn, fn.params))[k].param == fn.params[p]
  {
    ListsMatch(fn, fn.params);
    CountIsZero(fn, fn.params);
    IndexIsPlace(fn, fn.params, p);
    var k := |Positionals(fn, fn.params[..p])|;
    assert ParamsOf(Placed(TsArgs(fn, fn.params)))[k] == fn.params[p];
  }

  // What type generation makes of a whole function: the arguments in position, and a `?`
  // on those of the longest optional suffix.
  method GenSignature(fn: Fn) returns (out: seq<Printed>)
    ensures var args := Placed(TsArgs(fn, fn.params));
      && |out| == |args|
      && forall k | 0 <= k < |out| :: out[k] == Printed(args[k], fn.kind != Setter && AllOptionalFrom(args, k))
  {
    var iter := GenTsFuncArgs(fn);
    var list := Collect(iter);
    out := Print(list, fn.kind == Setter);
  }

  // One of the exceptions: `env: &mut Env`, and a parameter after it.
  const MUT_ENV := PatType("env", Ref(true, Path(false, false, [Segment(Env, NoArgs)])))
  const FLAG := PatType("flag", Path(false, false, [Segment(OtherPrimitive("bool"), NoArgs)]))
  const SHIFTED := Fn([MUT_ENV, FLAG], None, false, Normal)

  lemma ShiftedRoles()
    ensures RoleOf(SHIFTED, MUT_ENV) == Ok(Positional(true)) && RoleOf(SHIFTED, FLAG) == Ok(Positional(false))
  {
  }

  lemma ShiftedArgs()
    ensures TsArg(SHIFTED, MUT_ENV) == None && TsArg(SHIFTED, FLAG) == Some(FnArg("flag", false, FLAG))
  {
  }

  lemma ShiftedPrefix()
    ensures Positionals(SHIFTED, [MUT_ENV]) == [MUT_ENV] && Placed(TsArgs(SHIFTED, [MUT_ENV])) == []
  {
    ShiftedRoles();
    ShiftedArgs();
    assert [MUT_ENV][..0] == [];
    OneMore(SHIFTED, [MUT_ENV]);
  }

  // The exception at work: after a `&mut Env` the signature is one argument short of what
  // the code takes, so its first argument is not the first JS argument.
  lemma MutableEnvShiftsArguments()
    ensures Accepted(SHIFTED)
    ensures Positionals(SHIFTED, SHIFTED.params) == [MUT_ENV, FLAG]
    ensures ParamsOf(Placed(TsArgs(SHIFTED, SHIFTED.params))) == [FLAG]
  {
    ShiftedRoles();
    ShiftedArgs();
    ShiftedPrefix();
    assert [MUT_ENV, FLAG][..1] == [MUT_ENV];
    OneMore(SHIFTED, [MUT_ENV, FLAG]);
    assert Placed(TsArgs(SHIFTED, [MUT_ENV, FLAG])) == [FnArg("flag", false, FLAG)];
  }
}
