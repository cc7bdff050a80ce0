/**
 `napi_register_module_v1`: putting every registered function and class on the exports
 object, grouped by namespace, in whatever order the hash maps are walked.
 */
module ExportRegistration {
  import opened Sequences
  import opened Wrappers

  type Mod = Option<string>

  // MODULE_REGISTER_CALLBACK
  datatype Registration = Registration(jsMod: Mod, name: string, cb: nat)

  datatype Property = Property(name: string, cb: nat, isCtor: bool)

  datatype ClassRegistration = ClassRegistration(jsName: string, props: seq<Property>, implementIterator: bool)

  type ClassTable = map<nat, map<Mod, ClassRegistration>>

  // A JavaScript object: the exports, the k-th namespace made, the function a callback
  // makes, or the class last defined for a namespace with this description.
  datatype Object =
    | Exports
    | Space(k: nat)
    | Function(cb: nat)
    | Class(jsMod: Mod, name: string, ctor: Option<nat>, members: seq<Property>, iterable: bool)

  type Heap = map<Object, map<string, Object>>

  // ----- registering classes

  function Members(props: seq<Property>): seq<Property> {
    if props == [] then []
    else (if props[0].isCtor then [] else [props[0]]) + Members(props[1..])
  }

  function FirstCtor(props: seq<Property>): Option<nat> {
    if props == [] then None
    else if props[0].isCtor then Some(props[0].cb)
    else FirstCtor(props[1..])
  }

  function Defined(m: Mod, c: ClassRegistration): Object {
    Class(m, c.jsName, FirstCtor(c.props), Members(c.props), c.implementIterator)
  }

  datatype ClassCall = ClassCall(rustType: nat, jsMod: Mod, jsName: string, props: seq<Property>, implementIterator: bool)

  function ClassIn(table: ClassTable, rustType: nat, jsMod: Mod): Option<ClassRegistration> {
    if rustType in table && jsMod in table[rustType] then Some(table[rustType][jsMod]) else None
  }

  // The calls a class of a type in a namespace is made of.
  function CallsFor(calls: seq<ClassCall>, rustType: nat, jsMod: Mod): seq<ClassCall> {
    if calls == [] then []
    else
      var last := calls[|calls| - 1];
      CallsFor(calls[..|calls| - 1], rustType, jsMod)
      + if last.rustType == rustType && last.jsMod == jsMod then [last] else []
  }

  function AllProps(calls: seq<ClassCall>): seq<Property> {
    if calls == [] then [] else AllProps(calls[..|calls| - 1]) + calls[|calls| - 1].props
  }

  lemma {:induction false} PropsInOrder(a: seq<ClassCall>, b: seq<ClassCall>)
    ensures AllProps(a + b) == AllProps(a) + AllProps(b)
  {
    if b == [] {
      assert a + b == a && AllProps(a) + [] == AllProps(a);
    } else {
      assert (a + b)[..|a + b| - 1] == a + b[..|b| - 1];
      PropsInOrder(a, b[..|b| - 1]);
      Regroup(AllProps(a), AllProps(b[..|b| - 1]), b[|b| - 1].props);
    }
  }

  // The properties of one call, among those of all of them: after those of the calls before
  // it, and before those of the calls after it.
  lemma PropsOfCall(before: seq<ClassCall>, c: ClassCall, after: seq<ClassCall>)
    ensures AllProps(before + [c] + after) == AllProps(before) + c.props + AllProps(after)
  {
    PropsInOrder(before + [c], after);
    assert (before + [c])[..|before|] == before;
  }

  // One entry of the table is what its calls come to.
  ghost predicate EntryIs(entry: Option<ClassRegistration>, cs: seq<ClassCall>) {
    match entry
    case None => cs == []
    case Some(c) =>
      && cs != []
      && c.jsName == cs[|cs| - 1].jsName
      && c.props == AllProps(cs)
      && (c.implementIterator <==> exists i | 0 <= i < |cs| :: cs[i].implementIterator)
  }

  ghost predicate TableIs(table: ClassTable, calls: seq<ClassCall>) {
    forall t: nat, m: Mod :: EntryIs(ClassIn(table, t, m), CallsFor(calls, t, m))
  }

  // A class registration with one more piece.
  function Joined(entry: Option<ClassRegistration>, c: ClassCall): ClassRegistration {
    match entry
    case None => ClassRegistration(c.jsName, c.props, c.implementIterator)
    case Some(e) => ClassRegistration(c.jsName, e.props + c.props, e.implementIterator || c.implementIterator)
  }

  lemma EntryJoins(entry: Option<ClassRegistration>, cs: seq<ClassCall>, c: ClassCall)
    requires EntryIs(entry, cs)
    ensures EntryIs(Some(Joined(entry, c)), cs + [c])
  {
    var more := cs + [c];
    assert more[..|more| - 1] == cs && more[|cs|] == c;
    if i :| 0 <= i < |cs| && cs[i].implementIterator {
      assert more[i].implementIterator;
    }
    if c.implementIterator {
      assert more[|cs|].implementIterator;
    }
    assert [] + c.props == c.props;
  }

  class Registry {
    var callbacks: seq<Registration>
    var classes: ClassTable

    method RegisterModuleExport(jsMod: Mod, name: string, cb: nat)
      modifies this`callbacks
      ensures callbacks == old(callbacks) + [Registration(jsMod, name, cb)]
    {
      callbacks := callbacks + [Registration(jsMod, name, cb)];
    }

    // Pieces of one class may be registered apart: their properties are put together in
    // order, the last name wins, and one iterator is enough.
    method RegisterClass(c: ClassCall, ghost calls: seq<ClassCall>)
      requires TableIs(classes, calls)
      modifies this`classes
      ensures TableIs(classes, calls + [c])
    {
      ghost var before := classes;
      var val := if c.rustType in classes then classes[c.rustType] else map[];
      var entry :=
        if c.jsMod in val then val[c.jsMod] else ClassRegistration(c.jsName, [], c.implementIterator);
      entry := entry.(
        jsName := c.jsName,
        implementIterator := entry.implementIterator || c.implementIterator,
        props := entry.props + c.props);
      classes := classes[c.rustType := val[c.jsMod := entry]];
      assert [] + c.props == c.props;
      assert entry == Joined(ClassIn(before, c.rustType, c.jsMod), c);
      TableJoins(before, classes, calls, c);
    }
  }

  lemma TableJoins(before: ClassTable, after: ClassTable, calls: seq<ClassCall>, c: ClassCall)
    requires TableIs(before, calls)
    requires var val := if c.rustType in before then before[c.rustType] else map[];
      after == before[c.rustType := val[c.jsMod := Joined(ClassIn(before, c.rustType, c.jsMod), c)]]
    ensures TableIs(after, calls + [c])
  {
    forall t: nat, m: Mod
      ensures EntryIs(ClassIn(after, t, m), CallsFor(calls + [c], t, m))
    {
      OneMoreCall(calls, c, t, m);
      assert EntryIs(ClassIn(before, t, m), CallsFor(calls, t, m));
      if c.rustType == t && c.jsMod == m {
        EntryJoins(ClassIn(before, t, m), CallsFor(calls, t, m), c);
        assert ClassIn(after, t, m) == Some(Joined(ClassIn(before, t, m), c));
      } else {
        assert ClassIn(after, t, m) == ClassIn(before, t, m);
      }
    }
  }

  lemma OneMoreCall(calls: seq<ClassCall>, c: ClassCall, t: nat, m: Mod)
    ensures CallsFor(calls + [c], t, m)
      == if c.rustType == t && c.jsMod == m then CallsFor(calls, t, m) + [c] else CallsFor(calls, t, m)
  {
    assert (calls + [c])[..|calls|] == calls;
    assert CallsFor(calls, t, m) + [] == CallsFor(calls, t, m);
  }

  // ----- what a class is defined with

  lemma {:induction false} MembersOfSum(a: seq<Property>, b: seq<Property>)
    ensures Members(a + b) == Members(a) + Members(b)
  {
    if a == [] {
      assert a + b == b && [] + Members(b) == Members(b);
    } else {
      assert (a + b)[1..] == a[1..] + b;
      MembersOfSum(a[1..], b);
    }
  }

  // The i-th property, if it is no constructor, is the member after all those before it.
  lemma MemberHasItsPlace(props: seq<Property>, i: nat)
    requires i < |props| && !props[i].isCtor
    ensures var k := |Members(props[..i])|;
      k < |Members(props)| && Members(props)[k] == props[i]
  {
    assert props == props[..i] + ([props[i]] + props[i + 1..]);
    MembersOfSum(props[..i], [props[i]] + props[i + 1..]);
    MembersOfSum([props[i]], props[i + 1..]);
    assert [props[i]][1..] == [];
  }

  lemma {:induction false} NoCtorIsAMember(props: seq<Property>)
    ensures forall p | p in Members(props) :: p in props && !p.isCtor
  {
    if props != [] {
      NoCtorIsAMember(props[1..]);
    }
  }

  predicate IsFirstCtor(props: seq<Property>, i: nat)
    requires i < |props|
  {
    props[i].isCtor && forall j | 0 <= j < i :: !props[j].isCtor
  }

  // A class is defined with the first constructor among its properties, or none, and with
  // all the others as its members.
  lemma {:induction false} CtorIsTheFirst(props: seq<Property>)
    ensures FirstCtor(props).None? <==> forall i | 0 <= i < |props| :: !props[i].isCtor
    ensures FirstCtor(props).Some? ==>
      exists i :: 0 <= i < |props| && IsFirstCtor(props, i) && FirstCtor(props).value == props[i].cb
  {
    if props != [] && !props[0].isCtor {
      var rest := props[1..];
      CtorIsTheFirst(rest);
      assert forall i | 0 <= i < |rest| :: rest[i] == props[i + 1];
      if i :| 0 <= i < |rest| && IsFirstCtor(rest, i) && FirstCtor(rest).value == rest[i].cb {
        assert IsFirstCtor(props, i + 1);
      }
    }
  }

  // ----- the engine's objects

  function Props(h: Heap, o: Object): map<string, Object> {
    if o in h then h[o] else map[]
  }

  function Put(h: Heap, o: Object, name: string, v: Object): Heap {
    h[o := Props(h, o)[name := v]]
  }

  // The heap, how many namespaces were made, and `exports_objects`.
  datatype State = State(heap: Heap, made: nat, names: set<string>)

  predicate Known(s: State) {
    forall m | m in s.names :: m in Props(s.heap, Exports)
  }

  const START := State(map[], 0, {})

  // The object the exports of a namespace go to, made if it was not there.
  function Target(s: State, m: Mod): (r: (State, Object))
    requires Known(s)
    ensures Known(r.0)
  {
    match m
    case None => (s, Exports)
    case Some(n) =>
      if n in s.names then (s, Props(s.heap, Exports)[n])
      else
        var o := Space(s.made);
        (State(Put(s.heap, Exports, n, o), s.made + 1, s.names + {n}), o)
  }

  function AfterItems(h: Heap, o: Object, items: seq<(string, nat)>): (r: Heap)
    ensures forall p, n | n in Props(h, p) :: n in Props(r, p)
  {
    if items == [] then h
    else
      var last := items[|items| - 1];
      Put(AfterItems(h, o, items[..|items| - 1]), o, last.0, Function(last.1))
  }

  function AfterGroup(s: State, m: Mod, items: seq<(string, nat)>): (r: State)
    requires Known(s)
    ensures Known(r)
  {
    var (t, o) := Target(s, m);
    t.(heap := AfterItems(t.heap, o, items))
  }

  type Groups = map<Mod, seq<(string, nat)>>

  function AfterGroups(s: State, order: seq<Mod>, groups: Groups): (r: State)
    requires Known(s) && forall i | 0 <= i < |order| :: order[i] in groups
    ensures Known(r)
  {
    if order == [] then s
    else
      var m := order[|order| - 1];
      AfterGroup(AfterGroups(s, order[..|order| - 1], groups), m, groups[m])
  }

  function AfterClass(s: State, m: Mod, c: ClassRegistration): (r: State)
    requires Known(s)
    ensures Known(r)
  {
    var (t, o) := Target(s, m);
    // a new object: what one of this description was given before is not on it
    t.(heap := Put(t.heap - {Defined(m, c)}, o, c.jsName, Defined(m, c)))
  }

  predicate ListsClasses(order: seq<(nat, Mod)>, table: ClassTable) {
    forall i | 0 <= i < |order| :: ClassIn(table, order[i].0, order[i].1).Some?
  }

  function AfterClasses(s: State, order: seq<(nat, Mod)>, table: ClassTable): (r: State)
    requires Known(s) && ListsClasses(order, table)
    ensures Known(r)
  {
    if order == [] then s
    else
      var (t, m) := order[|order| - 1];
      assert ClassIn(table, order[|order| - 1].0, order[|order| - 1].1).Some?;
      AfterClass(AfterClasses(s, order[..|order| - 1], table), m, ClassIn(table, t, m).value)
  }

  // REGISTERED_CLASSES after the class pass: one constructor for each class name.
  function Registered(order: seq<(nat, Mod)>, table: ClassTable): map<string, Object>
    requires ListsClasses(order, table)
  {
    if order == [] then map[]
    else
      var (t, m) := order[|order| - 1];
      assert ClassIn(table, order[|order| - 1].0, order[|order| - 1].1).Some?;
      var c := ClassIn(table, t, m).value;
      Registered(order[..|order| - 1], table)[c.jsName := Defined(m, c)]
  }

  // The registrations of one namespace, in order.
  function Of(regs: seq<Registration>, m: Mod): seq<(string, nat)> {
    if regs == [] then []
    else
      var last := regs[|regs| - 1];
      Of(regs[..|regs| - 1], m) + if last.jsMod == m then [(last.name, last.cb)] else []
  }

  function Mods(regs: seq<Registration>): set<Mod> {
    set r | r in regs :: r.jsMod
  }

  function Grouped(regs: seq<Registration>): Groups {
    map m | m in Mods(regs) :: Of(regs, m)
  }

  lemma {:induction false} OfAbsent(regs: seq<Registration>, m: Mod)
    ensures m !in Mods(regs) ==> Of(regs, m) == []
  {
    if regs != [] {
      var rest := regs[..|regs| - 1];
      OfAbsent(rest, m);
      assert regs[|regs| - 1].jsMod in Mods(regs);
      assert Mods(rest) <= Mods(regs);
    }
  }

  lemma OneMoreGrouped(regs: seq<Registration>, r: Registration)
    ensures var g := Grouped(regs);
      Grouped(regs + [r])
      == g[r.jsMod := (if r.jsMod in g then g[r.jsMod] else []) + [(r.name, r.cb)]]
  {
    var more := regs + [r];
    assert more[..|regs|] == regs;
    assert forall q :: q in more <==> q in regs || q == r;
    assert Mods(more) == Mods(regs) + {r.jsMod};
    OfAbsent(regs, r.jsMod);
    assert forall m :: Of(regs, m) + [] == Of(regs, m);
  }

  method GroupCallbacks(regs: seq<Registration>) returns (acc: Groups)
    ensures acc == Grouped(regs)
  {
    acc := map[];
    for i := 0 to |regs|
      invariant acc == Grouped(regs[..i])
    {
      OneMoreGrouped(regs[..i], regs[i]);
      assert regs[..i + 1] == regs[..i] + [regs[i]];
      var jsMod, item := regs[i].jsMod, (regs[i].name, regs[i].cb);
      assert [] + [item] == [item];
      if jsMod in acc {
        acc := acc[jsMod := acc[jsMod] + [item]];
      } else {
        acc := acc[jsMod := [item]];
      }
      assert acc == Grouped(regs[..i] + [regs[i]]);
    }
    assert regs[..|regs|] == regs;
  }

  class Engine {
    var heap: Heap
    var made: nat

    constructor ()
      ensures heap == START.heap && made == START.made
    {
      heap, made := map[], 0;
    }

    method CreateObject() returns (o: Object)
      modifies this`made
      ensures o == Space(old(made)) && made == old(made) + 1
    {
      o := Space(made);
      made := made + 1;
    }

    method SetNamedProperty(o: Object, name: string, v: Object)
      modifies this`heap
      ensures heap == Put(old(heap), o, name, v)
    {
      heap := heap[o := Props(heap, o)[name := v]];
    }

    // `napi_define_class`
    method DefineClass(m: Mod, c: ClassRegistration) returns (o: Object)
      modifies this`heap
      ensures o == Defined(m, c) && heap == old(heap) - {o}
    {
      o := Defined(m, c);
      heap := heap - {o};
    }

    // The fold's groups, in the order the hash map is walked.
    method ExportFunctions(groups: Groups, order: seq<Mod>) returns (exportsObjects: set<string>)
      requires forall i | 0 <= i < |order| :: order[i] in groups
      modifies this
      ensures State(heap, made, exportsObjects) == AfterGroups(State(old(heap), old(made), {}), order, groups)
    {
      exportsObjects := {};
      ghost var start := State(heap, made, {});
      for i := 0 to |order|
        invariant State(heap, made, exportsObjects) == AfterGroups(start, order[..i], groups)
      {
        var jsMod, items := order[i], groups[order[i]];
        ghost var s := State(heap, made, exportsObjects);
        var target := Exports;
        if jsMod.Some? {
          if jsMod.value in exportsObjects {
            target := Props(heap, Exports)[jsMod.value];
          } else {
            target := CreateObject();
            SetNamedProperty(Exports, jsMod.value, target);
            exportsObjects := exportsObjects + {jsMod.value};
          }
        }
        ghost var h := heap;
        assert Target(s, jsMod) == (State(heap, made, exportsObjects), target);
        for j := 0 to |items|
          invariant made == AfterGroup(s, jsMod, items).made
          invariant heap == AfterItems(h, target, items[..j])
        {
          SetNamedProperty(target, items[j].0, Function(items[j].1));
          assert items[..j + 1][..j] == items[..j];
        }
        assert items[..|items|] == items;
        assert order[..i + 1][..i] == order[..i];
      }
      assert order[..|order|] == order;
    }

    // The class pass; `classOrder` is the order the two nested hash maps are walked in.
    method ExportClasses(table: ClassTable, classOrder: seq<(nat, Mod)>, exported: set<string>)
      returns (exportsObjects: set<string>, registered: map<string, Object>)
      requires Known(State(heap, made, exported)) && ListsClasses(classOrder, table)
      modifies this
      ensures State(heap, made, exportsObjects)
        == AfterClasses(State(old(heap), old(made), exported), classOrder, table)
      ensures registered == Registered(classOrder, table)
    {
      exportsObjects, registered := exported, map[];
      ghost var start := State(heap, made, exported);
      for i := 0 to |classOrder|
        invariant State(heap, made, exportsObjects) == AfterClasses(start, classOrder[..i], table)
        invariant registered == Registered(classOrder[..i], table)
      {
        var (rustType, jsMod) := classOrder[i];
        assert ClassIn(table, classOrder[i].0, classOrder[i].1).Some?;
        var registration := table[rustType][jsMod];
        ghost var s := State(heap, made, exportsObjects);
        var target := Exports;
        if jsMod.Some? {
          if jsMod.value in exportsObjects {
            target := Props(heap, Exports)[jsMod.value];
          } else {
            target := CreateObject();
            SetNamedProperty(Exports, jsMod.value, target);
            exportsObjects := exportsObjects + {jsMod.value};
          }
        }
        assert Target(s, jsMod) == (State(heap, made, exportsObjects), target);
        var classObject := DefineClass(jsMod, registration);
        registered := registered[registration.jsName := classObject];
        SetNamedProperty(target, registration.jsName, classObject);
        assert State(heap, made, exportsObjects) == AfterClass(s, jsMod, registration);
        assert classOrder[..i + 1][..i] == classOrder[..i];
      }
      assert classOrder[..|classOrder|] == classOrder;
    }

    // Both passes over what was registered, for one environment.
    method Register(registry: Registry, order: seq<Mod>, classOrder: seq<(nat, Mod)>)
      returns (exportsObjects: set<string>, registered: map<string, Object>)
      requires heap == START.heap && made == START.made
      requires Walks(order, registry.callbacks) && WalksClasses(classOrder, registry.classes)
      modifies this
      ensures State(heap, made, exportsObjects)
        == Exported(registry.callbacks, order, registry.classes, classOrder)
      ensures registered == Registered(classOrder, registry.classes)
    {
      var groups := GroupCallbacks(registry.callbacks);
      WalkIsGrouped(order, registry.callbacks);
      exportsObjects := ExportFunctions(groups, order);
      exportsObjects, registered := ExportClasses(registry.classes, classOrder, exportsObjects);
    }
  }

  // ----- the naive registration: one entry after the other

  type Tree = map<(Mod, string), Object>

  function Naive(regs: seq<Registration>): Tree {
    if regs == [] then map[]
    else
      var last := regs[|regs| - 1];
      Naive(regs[..|regs| - 1])[(last.jsMod, last.name) := Function(last.cb)]
  }

  predicate Names(r: Registration, m: Mod, n: string) {
    r.jsMod == m && r.name == n
  }

  predicate LastNamed(regs: seq<Registration>, i: nat, m: Mod, n: string)
    requires i < |regs|
  {
    Names(regs[i], m, n) && forall j | i < j < |regs| :: !Names(regs[j], m, n)
  }

  // The naive registration holds, under each name, the last function registered for it.
  lemma {:induction false} LastFunctionWins(regs: seq<Registration>, m: Mod, n: string)
    ensures (m, n) !in Naive(regs) <==> forall i | 0 <= i < |regs| :: !Names(regs[i], m, n)
    ensures (m, n) in Naive(regs) ==>
      exists i :: 0 <= i < |regs| && LastNamed(regs, i, m, n) && Naive(regs)[(m, n)] == Function(regs[i].cb)
  {
    if regs != [] {
      var k := |regs| - 1;
      var init := regs[..k];
      LastFunctionWins(init, m, n);
      assert forall i | 0 <= i < k :: init[i] == regs[i];
      if Names(regs[k], m, n) {
        assert LastNamed(regs, k, m, n);
      } else if (m, n) in Naive(regs) {
        var i :| 0 <= i < |init| && LastNamed(init, i, m, n) && Naive(init)[(m, n)] == Function(init[i].cb);
        assert LastNamed(regs, i, m, n);
      }
    }
  }

  function NaiveClasses(order: seq<(nat, Mod)>, table: ClassTable): Tree
    requires ListsClasses(order, table)
  {
    if order == [] then map[]
    else
      var (t, m) := order[|order| - 1];
      assert ClassIn(table, order[|order| - 1].0, order[|order| - 1].1).Some?;
      var c := ClassIn(table, t, m).value;
      NaiveClasses(order[..|order| - 1], table)[(m, c.jsName) := Defined(m, c)]
  }

  function Look<K, V>(t: map<K, V>, k: K): Option<V> {
    if k in t then Some(t[k]) else None
  }

  // What the exports look like, but for the top-level names in `hid`.
  ghost predicate TopShows(s: State, tree: Tree, hid: set<string>) {
    forall n: string | n !in hid ::
      if n in s.names then (None, n) !in tree
      else Look(Props(s.heap, Exports), n) == Look(tree, (None, n))
  }

  function SpaceOf(s: State, m: string): Object
    requires Known(s) && m in s.names
  {
    Props(s.heap, Exports)[m]
  }

  // The object of a namespace that is there.
  function ObjectOf(s: State, m: Mod): Object
    requires Known(s) && (m.Some? ==> m.value in s.names)
  {
    match m
    case None => Exports
    case Some(a) => SpaceOf(s, a)
  }

  // A namespace that is not hidden is a made object of its own, and no other object carries
  // anything.
  ghost predicate SpacesAreApart(s: State, hid: set<string>)
    requires Known(s)
  {
    && |s.names| == s.made
    && (forall m | m in s.names && m !in hid :: SpaceOf(s, m).Space?)
    && (forall m | m in s.names && SpaceOf(s, m).Space? :: SpaceOf(s, m).k < s.made)
    && (forall m, n | m in s.names && n in s.names && m != n && SpaceOf(s, m).Space? :: SpaceOf(s, m) != SpaceOf(s, n))
    && (forall o | o in s.heap :: o == Exports || (o.Space? && o.k < s.made))
  }

  ghost predicate SpacesShow(s: State, tree: Tree, hid: set<string>)
    requires Known(s)
  {
    forall m: string, n: string | m !in hid ::
      Look(tree, (Some(m), n)) == if m in s.names then Look(Props(s.heap, SpaceOf(s, m)), n) else None
  }

  // The exports look like `tree`, each namespace being an object of its own, but for what
  // is hidden.
  ghost predicate Shows(s: State, tree: Tree, hid: set<string>) {
    Known(s) && TopShows(s, tree, hid) && SpacesAreApart(s, hid) && SpacesShow(s, tree, hid)
  }

  // The tree without these names at the top.
  function WithoutTop(tree: Tree, names: set<string>): Tree {
    map k | k in tree && (k.0.Some? || k.1 !in names) :: tree[k]
  }

  function SpaceNamed(m: Mod): set<string> {
    if m.Some? then {m.value} else {}
  }

  lemma TargetShows(s: State, m: Mod, tree: Tree, hid: set<string>)
    requires Shows(s, tree, hid)
    requires m.Some? && m.value in hid ==> m.value !in s.names
    ensures var (t, o) := Target(s, m);
      && Shows(t, WithoutTop(tree, SpaceNamed(m)), hid)
      && t.names == s.names + SpaceNamed(m)
      && o == ObjectOf(t, m) && (m.Some? ==> o.Space?)
  {
    var (t, o) := Target(s, m);
    var less := WithoutTop(tree, SpaceNamed(m));
    if m.None? || m.value in s.names {
      assert less == tree;
    } else {
      assert Props(s.heap, o) == map[];
      NewSpaceShows(s, m.value, tree, hid);
    }
  }

  lemma NewSpaceShows(s: State, m: string, tree: Tree, hid: set<string>)
    requires Shows(s, tree, hid) && m !in s.names
    ensures Shows(Target(s, Some(m)).0, WithoutTop(tree, {m}), hid)
  {
    var (t, o) := Target(s, Some(m));
    var less := WithoutTop(tree, {m});
    assert Props(s.heap, o) == map[];
    forall a: string, n: string | a !in hid
      ensures Look(less, (Some(a), n)) == if a in t.names then Look(Props(t.heap, SpaceOf(t, a)), n) else None
    {
      assert Look(tree, (Some(a), n)) == if a in s.names then Look(Props(s.heap, SpaceOf(s, a)), n) else None;
      assert a in s.names ==> SpaceOf(t, a) == SpaceOf(s, a);
      assert a in s.names ==> Props(t.heap, SpaceOf(t, a)) == Props(s.heap, SpaceOf(s, a));
    }
    assert forall a | a in s.names :: SpaceOf(t, a) == SpaceOf(s, a);
  }

  // Where a put may go: into a namespace, or on the exports under no name of one.
  predicate MayPut(s: State, m: Mod, n: string, hid: set<string>)
    requires Known(s)
  {
    if m.Some? then m.value in s.names && SpaceOf(s, m.value).Space? else n !in s.names || n in hid
  }

  lemma PutShowsInside(s: State, m: Mod, n: string, v: Object, tree: Tree, hid: set<string>)
    requires Shows(s, tree, hid) && MayPut(s, m, n, hid)
    ensures var t := s.(heap := Put(s.heap, ObjectOf(s, m), n, v));
      Known(t) && SpacesShow(t, tree[(m, n) := v], hid)
    ensures var t := s.(heap := Put(s.heap, ObjectOf(s, m), n, v));
      forall a | a in s.names && (m.Some? || a != n) :: SpaceOf(t, a) == SpaceOf(s, a)
  {
    var t := s.(heap := Put(s.heap, ObjectOf(s, m), n, v));
    assert forall a | a in s.names && (m.Some? || a != n) :: SpaceOf(t, a) == SpaceOf(s, a);
    forall a: string, b: string | a !in hid
      ensures Look(tree[(m, n) := v], (Some(a), b))
        == if a in t.names then Look(Props(t.heap, SpaceOf(t, a)), b) else None
    {
      assert Look(tree, (Some(a), b)) == if a in s.names then Look(Props(s.heap, SpaceOf(s, a)), b) else None;
      if a in s.names && m != Some(a) {
        assert Props(t.heap, SpaceOf(t, a)) == Props(s.heap, SpaceOf(s, a));
      }
    }
  }

  lemma PutShows(s: State, m: Mod, n: string, v: Object, tree: Tree, hid: set<string>)
    requires Shows(s, tree, hid) && (v.Function? || v.Class?) && MayPut(s, m, n, hid)
    ensures Shows(s.(heap := Put(s.heap, ObjectOf(s, m), n, v)), tree[(m, n) := v], hid)
    ensures var t := s.(heap := Put(s.heap, ObjectOf(s, m), n, v));
      m.Some? ==> forall a | a in s.names :: SpaceOf(t, a) == SpaceOf(s, a)
  {
    PutShowsInside(s, m, n, v, tree, hid);
  }

  function Tagged(m: Mod, items: seq<(string, nat)>): Tree {
    if items == [] then map[]
    else
      var last := items[|items| - 1];
      Tagged(m, items[..|items| - 1])[(m, last.0) := Function(last.1)]
  }

  lemma PutAfterMerge<K, V>(a: map<K, V>, b: map<K, V>, k: K, v: V)
    ensures a + b[k := v] == (a + b)[k := v]
  {
  }

  predicate NoneNamed(items: seq<(string, nat)>, names: set<string>) {
    forall i | 0 <= i < |items| :: items[i].0 !in names
  }

  lemma {:induction false} ItemsShow(s: State, m: Mod, items: seq<(string, nat)>, tree: Tree, hid: set<string>)
    requires Shows(s, tree, hid)
    requires if m.Some? then m.value in s.names && SpaceOf(s, m.value).Space? else NoneNamed(items, s.names - hid)
    ensures var t := s.(heap := AfterItems(s.heap, ObjectOf(s, m), items));
      && Shows(t, tree + Tagged(m, items), hid)
      && (m.Some? ==> forall a | a in s.names :: SpaceOf(t, a) == SpaceOf(s, a))
  {
    if items == [] {
      assert tree + map[] == tree;
    } else {
      var rest, last := items[..|items| - 1], items[|items| - 1];
      ItemsShow(s, m, rest, tree, hid);
      var t := s.(heap := AfterItems(s.heap, ObjectOf(s, m), rest));
      PutShows(t, m, last.0, Function(last.1), tree + Tagged(m, rest), hid);
      PutAfterMerge(tree, Tagged(m, rest), (m, last.0), Function(last.1));
    }
  }

  function Restrict(tree: Tree, mods: set<Mod>): Tree {
    map k | k in tree && k.0 in mods :: tree[k]
  }

  lemma RestrictPut(tree: Tree, k: (Mod, string), v: Object, mods: set<Mod>)
    ensures Restrict(tree[k := v], mods)
      == if k.0 in mods then Restrict(tree, mods)[k := v] else Restrict(tree, mods)
  {
  }

  lemma {:induction false} GroupIsRestriction(regs: seq<Registration>, m: Mod)
    ensures Tagged(m, Of(regs, m)) == Restrict(Naive(regs), {m})
  {
    if regs == [] {
      assert Restrict(Naive(regs), {m}) == map[];
    } else {
      var rest, last := regs[..|regs| - 1], regs[|regs| - 1];
      GroupIsRestriction(rest, m);
      RestrictPut(Naive(rest), (last.jsMod, last.name), Function(last.cb), {m});
      if last.jsMod == m {
        TagOneMore(m, Of(rest, m), (last.name, last.cb));
      } else {
        assert Of(rest, m) + [] == Of(rest, m);
      }
    }
  }

  lemma TagOneMore(m: Mod, items: seq<(string, nat)>, item: (string, nat))
    ensures Tagged(m, items + [item]) == Tagged(m, items)[(m, item.0) := Function(item.1)]
  {
    assert (items + [item])[..|items|] == items;
  }

  lemma {:induction false} InNaive(regs: seq<Registration>, m: Mod, n: string)
    ensures (m, n) in Naive(regs) <==> exists r :: r in regs && r.jsMod == m && r.name == n
  {
    if regs != [] {
      var rest, last := regs[..|regs| - 1], regs[|regs| - 1];
      assert regs == rest + [last];
      InNaive(rest, m, n);
      if r :| r in regs && r.jsMod == m && r.name == n && r != last {
        assert r in rest;
      }
    }
  }

  lemma {:induction false} InGroup(regs: seq<Registration>, m: Mod, i: nat)
    requires i < |Of(regs, m)|
    ensures exists r :: r in regs && r.jsMod == m && r.name == Of(regs, m)[i].0
  {
    var rest, last := regs[..|regs| - 1], regs[|regs| - 1];
    assert regs == rest + [last];
    if i < |Of(rest, m)| {
      InGroup(rest, m, i);
      var r :| r in rest && r.jsMod == m && r.name == Of(rest, m)[i].0;
      assert r in regs;
    } else {
      assert last in regs;
    }
  }

  // No function is exported at the top under the name of a namespace, but for the names
  // in `hid`.
  predicate NoClash(regs: seq<Registration>, hid: set<string>) {
    forall r, q | r in regs && q in regs && r.jsMod == None && q.jsMod.Some? ::
      q.jsMod.value == r.name ==> r.name in hid
  }

  function SpaceNames(mods: set<Mod>): set<string> {
    set m | m in mods && m.Some? :: m.value
  }

  lemma {:induction false} GroupsShow(regs: seq<Registration>, order: seq<Mod>, hid: set<string>)
    requires NoClash(regs, hid) && Distinct(order) && Elements(order) <= Mods(regs)
    ensures InGroups(order, Grouped(regs))
    ensures var s := AfterGroups(START, order, Grouped(regs));
      Shows(s, Restrict(Naive(regs), Elements(order)), hid) && s.names == SpaceNames(Elements(order))
  {
    forall i | 0 <= i < |order|
      ensures order[i] in Grouped(regs)
    {
      assert order[i] in Elements(order);
    }
    if order == [] {
      assert Restrict(Naive(regs), {}) == map[];
      assert Elements(order) == {} && SpaceNames({}) == {};
    } else {
      var rest, m := order[..|order| - 1], order[|order| - 1];
      assert Elements(order) == Elements(rest) + {m} by {
        assert order == rest + [m];
      }
      GroupsShow(regs, rest, hid);
      assert m !in rest;
      OneGroupShows(regs, AfterGroups(START, rest, Grouped(regs)), Elements(rest), m, hid);
    }
  }

  // A name that is hidden may be in the tree or not.
  lemma HiddenTop(s: State, tree: Tree, a: string, hid: set<string>)
    requires a in hid && Shows(s, WithoutTop(tree, {a}), hid)
    ensures Shows(s, tree, hid)
  {
    forall k: (Mod, string) | k != (None, a)
      ensures Look(tree, k) == Look(WithoutTop(tree, {a}), k)
    {
    }
  }

  lemma GroupShows(s: State, m: Mod, items: seq<(string, nat)>, tree: Tree, hid: set<string>)
    requires Shows(s, tree, hid)
    requires if m.Some? then (if m.value in hid then m.value !in s.names else (None, m.value) !in tree)
      else NoneNamed(items, s.names - hid)
    ensures Shows(AfterGroup(s, m, items), tree + Tagged(m, items), hid)
    ensures AfterGroup(s, m, items).names == s.names + SpaceNamed(m)
  {
    TargetShows(s, m, tree, hid);
    var t := Target(s, m).0;
    if m.Some? && m.value in hid {
      HiddenTop(t, tree, m.value, hid);
    } else {
      assert WithoutTop(tree, SpaceNamed(m)) == tree;
    }
    ItemsShow(t, m, items, tree, hid);
  }

  lemma OneGroupShows(regs: seq<Registration>, s: State, mods: set<Mod>, m: Mod, hid: set<string>)
    requires NoClash(regs, hid) && mods <= Mods(regs) && m in Mods(regs) && m !in mods
    requires Shows(s, Restrict(Naive(regs), mods), hid) && s.names == SpaceNames(mods)
    ensures var t := AfterGroup(s, m, Of(regs, m));
      Shows(t, Restrict(Naive(regs), mods + {m}), hid) && t.names == SpaceNames(mods + {m})
  {
    var tree, items := Restrict(Naive(regs), mods), Of(regs, m);
    MayCome(regs, mods, m, hid);
    GroupShows(s, m, items, tree, hid);
    assert Restrict(Naive(regs), mods + {m}) == tree + Tagged(m, items) by {
      GroupIsRestriction(regs, m);
      RestrictTwice(Naive(regs), mods, m);
    }
    NamesOneMore(mods, m);
  }

  lemma NamesOneMore(mods: set<Mod>, m: Mod)
    ensures SpaceNames(mods + {m}) == SpaceNames(mods) + if m.Some? then {m.value} else {}
  {
  }

  lemma MayCome(regs: seq<Registration>, mods: set<Mod>, m: Mod, hid: set<string>)
    requires NoClash(regs, hid) && mods <= Mods(regs) && m in Mods(regs) && m !in mods
    ensures if m.None? then NoneNamed(Of(regs, m), SpaceNames(mods) - hid)
      else m.value !in SpaceNames(mods) && (m.value in hid || (None, m.value) !in Restrict(Naive(regs), mods))
  {
    if m.Some? {
      assert m == Some(m.value);
      if m.value !in hid {
        SpaceIsNotATop(regs, m.value, hid);
      }
    } else {
      TopIsNotASpace(regs, mods, hid);
    }
  }

  lemma SpaceIsNotATop(regs: seq<Registration>, a: string, hid: set<string>)
    requires NoClash(regs, hid) && a !in hid && Some(a) in Mods(regs)
    ensures (None, a) !in Naive(regs)
  {
    InNaive(regs, None, a);
    var q :| q in regs && q.jsMod == Some(a);
  }

  lemma RestrictTwice(tree: Tree, mods: set<Mod>, m: Mod)
    ensures Restrict(tree, mods) + Restrict(tree, {m}) == Restrict(tree, mods + {m})
  {
  }

  lemma TopIsNotASpace(regs: seq<Registration>, mods: set<Mod>, hid: set<string>)
    requires NoClash(regs, hid) && mods <= Mods(regs)
    ensures NoneNamed(Of(regs, None), SpaceNames(mods) - hid)
  {
    forall i | 0 <= i < |Of(regs, None)|
      ensures Of(regs, None)[i].0 !in SpaceNames(mods) - hid
    {
      InGroup(regs, None, i);
      var r :| r in regs && r.jsMod == None && r.name == Of(regs, None)[i].0;
      assert r.name !in hid ==> forall q | q in regs :: q.jsMod != Some(r.name);
    }
  }

  // ----- the class pass

  // Classes of one name in one namespace are one class.
  ghost predicate ClassesAlike(table: ClassTable) {
    forall t: nat, u: nat, m: Mod ::
      ClassIn(table, t, m).Some? && ClassIn(table, u, m).Some?
      && ClassIn(table, t, m).value.jsName == ClassIn(table, u, m).value.jsName
      ==> Defined(m, ClassIn(table, t, m).value) == Defined(m, ClassIn(table, u, m).value)
  }

  function TopClasses(table: ClassTable): set<string> {
    set t | t in table && None in table[t] :: table[t][None].jsName
  }

  function ClassSpaces(table: ClassTable): set<string> {
    set t, m | t in table && m in table[t] && m.Some? :: m.value
  }

  // No top-level name, of a function or of a class, is the name of a namespace.
  ghost predicate TopAndSpacesApart(regs: seq<Registration>, table: ClassTable) {
    var names := SpaceNames(Mods(regs)) + ClassSpaces(table);
    TopClasses(table) !! names && forall r | r in regs && r.jsMod == None :: r.name !in names
  }

  function SpacesWalked(order: seq<(nat, Mod)>): set<string> {
    set c | c in order && c.1.Some? :: c.1.value
  }

  lemma WalkedAreListed(order: seq<(nat, Mod)>, table: ClassTable)
    requires ListsClasses(order, table)
    ensures SpacesWalked(order) <= ClassSpaces(table)
  {
    forall n | n in SpacesWalked(order)
      ensures n in ClassSpaces(table)
    {
      var i :| 0 <= i < |order| && order[i].1 == Some(n);
      assert ClassIn(table, order[i].0, order[i].1).Some?;
    }
  }

  // What lets the class pass start: no namespace of a class is hidden, and a top-level class
  // is, or has a name that is and will be no namespace.
  ghost predicate ClassesFit(table: ClassTable, names: set<string>, hid: set<string>) {
    && ClassSpaces(table) !! hid
    && forall n | n in TopClasses(table) :: n in hid || (n !in names && n !in ClassSpaces(table))
  }

  lemma ClassMayCome(order: seq<(nat, Mod)>, table: ClassTable, names: set<string>, hid: set<string>)
    requires order != [] && ListsClasses(order, table) && ClassesFit(table, names, hid)
    ensures var (rest, last) := (order[..|order| - 1], order[|order| - 1]);
      && ListsClasses(rest, table)
      && ClassIn(table, last.0, last.1).Some?
      && if last.1.Some? then last.1.value !in hid && (None, last.1.value) !in NaiveClasses(rest, table)
         else
           var n := ClassIn(table, last.0, last.1).value.jsName;
           n in hid || n !in names + SpacesWalked(rest)
  {
    var rest, last := order[..|order| - 1], order[|order| - 1];
    assert order == rest + [last];
    assert ClassIn(table, order[|rest|].0, order[|rest|].1).Some?;
    WalkedAreListed(rest, table);
    if last.1.Some? {
      assert last.1.value in ClassSpaces(table);
      InTopClasses(rest, table, last.1.value);
    } else {
      assert table[last.0][None].jsName in TopClasses(table);
    }
  }

  lemma InTopClasses(order: seq<(nat, Mod)>, table: ClassTable, n: string)
    requires ListsClasses(order, table)
    ensures (None, n) in NaiveClasses(order, table) ==> n in TopClasses(table)
  {
    InNaiveClasses(order, table, None, n);
    if (None, n) in NaiveClasses(order, table) {
      var i :| 0 <= i < |order| && order[i].1 == None
        && ClassIn(table, order[i].0, None).Some? && ClassIn(table, order[i].0, None).value.jsName == n;
      assert table[order[i].0][None].jsName in TopClasses(table);
    }
  }

  // The tree after some classes: their namespaces take the place of what had their name.
  function WithClasses(tree: Tree, order: seq<(nat, Mod)>, table: ClassTable): Tree
    requires ListsClasses(order, table)
  {
    WithoutTop(tree, SpacesWalked(order)) + NaiveClasses(order, table)
  }

  lemma ClassStep(s: State, order: seq<(nat, Mod)>, table: ClassTable, tree: Tree)
    requires order != [] && Known(s) && ListsClasses(order, table)
    requires var last := order[|order| - 1];
      last.1.Some? ==> (None, last.1.value) !in NaiveClasses(order[..|order| - 1], table)
    ensures var (rest, last) := (order[..|order| - 1], order[|order| - 1]);
      && ListsClasses(rest, table)
      && ClassIn(table, last.0, last.1).Some?
      && var c := ClassIn(table, last.0, last.1).value;
      && AfterClasses(s, order, table) == AfterClass(AfterClasses(s, rest, table), last.1, c)
      && WithClasses(tree, order, table)
         == WithoutTop(WithClasses(tree, rest, table), SpaceNamed(last.1))[(last.1, c.jsName) := Defined(last.1, c)]
  {
    var rest, last := order[..|order| - 1], order[|order| - 1];
    assert ClassIn(table, order[|rest|].0, order[|rest|].1).Some?;
    var c := ClassIn(table, last.0, last.1).value;
    assert order == rest + [last];
    WalkedOneMore(rest, last);
    TopTwice(tree, SpacesWalked(rest), NaiveClasses(rest, table), last.1);
    PutAfterMerge(WithoutTop(tree, SpacesWalked(order)), NaiveClasses(rest, table), (last.1, c.jsName), Defined(last.1, c));
  }

  lemma TopTwice(tree: Tree, names: set<string>, more: Tree, m: Mod)
    requires m.Some? ==> (None, m.value) !in more
    ensures WithoutTop(WithoutTop(tree, names) + more, SpaceNamed(m)) == WithoutTop(tree, names + SpaceNamed(m)) + more
  {
  }

  lemma {:induction false} NamesAfterClasses(s: State, order: seq<(nat, Mod)>, table: ClassTable)
    requires Known(s) && ListsClasses(order, table)
    ensures AfterClasses(s, order, table).names == s.names + SpacesWalked(order)
  {
    if order != [] {
      var rest, last := order[..|order| - 1], order[|order| - 1];
      assert order == rest + [last];
      NamesAfterClasses(s, rest, table);
      WalkedOneMore(rest, last);
    }
  }

  lemma {:induction false} ClassesShow(s: State, order: seq<(nat, Mod)>, table: ClassTable, tree: Tree, hid: set<string>)
    requires Shows(s, tree, hid) && ListsClasses(order, table) && ClassesFit(table, s.names, hid)
    ensures Shows(AfterClasses(s, order, table), WithClasses(tree, order, table), hid)
  {
    if order == [] {
      assert SpacesWalked(order) == {} && WithoutTop(tree, {}) + map[] == tree;
    } else {
      var rest, last := order[..|order| - 1], order[|order| - 1];
      ClassMayCome(order, table, s.names, hid);
      ClassesShow(s, rest, table, tree, hid);
      NamesAfterClasses(s, rest, table);
      ClassStep(s, order, table, tree);
      OneClassShows(AfterClasses(s, rest, table), AfterClasses(s, order, table), last.1,
                    ClassIn(table, last.0, last.1).value,
                    WithClasses(tree, rest, table), WithClasses(tree, order, table), hid);
    }
  }

  lemma WalkedOneMore(rest: seq<(nat, Mod)>, last: (nat, Mod))
    ensures SpacesWalked(rest + [last]) == SpacesWalked(rest) + SpaceNamed(last.1)
  {
    assert forall c :: c in rest + [last] <==> c in rest || c == last;
  }

  lemma OneClassShows(s: State, t: State, m: Mod, c: ClassRegistration, tree: Tree, more: Tree, hid: set<string>)
    requires Shows(s, tree, hid)
    requires if m.Some? then m.value !in hid else c.jsName !in s.names || c.jsName in hid
    requires t == AfterClass(s, m, c) && more == WithoutTop(tree, SpaceNamed(m))[(m, c.jsName) := Defined(m, c)]
    ensures Shows(t, more, hid)
  {
    TargetShows(s, m, tree, hid);
    var u := Target(s, m).0;
    assert u.heap - {Defined(m, c)} == u.heap;
    PutShows(u, m, c.jsName, Defined(m, c), WithoutTop(tree, SpaceNamed(m)), hid);
  }

  lemma {:induction false} InNaiveClasses(order: seq<(nat, Mod)>, table: ClassTable, m: Mod, n: string)
    requires ListsClasses(order, table)
    ensures var r := Look(NaiveClasses(order, table), (m, n));
      && (r.Some? <==> exists i :: 0 <= i < |order| && order[i].1 == m
                        && ClassIn(table, order[i].0, m).Some? && ClassIn(table, order[i].0, m).value.jsName == n)
      && (r.Some? ==> exists i :: 0 <= i < |order| && order[i].1 == m && ClassIn(table, order[i].0, m).Some?
                        && ClassIn(table, order[i].0, m).value.jsName == n
                        && r.value == Defined(m, ClassIn(table, order[i].0, m).value))
  {
    if order != [] {
      var k := |order| - 1;
      assert ClassIn(table, order[k].0, order[k].1).Some?;
      InNaiveClasses(order[..k], table, m, n);
      if order[k].1 != m || ClassIn(table, order[k].0, m).value.jsName != n {
        assert forall i | 0 <= i < k :: order[i] == order[..k][i];
      }
    }
  }

  predicate NamesClass(k: (nat, Mod), table: ClassTable, m: Mod, n: string) {
    k.1 == m && ClassIn(table, k.0, m).Some? && ClassIn(table, k.0, m).value.jsName == n
  }

  predicate LastClassNamed(order: seq<(nat, Mod)>, table: ClassTable, i: nat, m: Mod, n: string)
    requires i < |order|
  {
    NamesClass(order[i], table, m, n) && forall j | i < j < |order| :: !NamesClass(order[j], table, m, n)
  }

  predicate IsClass(o: Object, m: Mod, n: string, c: ClassRegistration) {
    o == Class(m, n, FirstCtor(c.props), Members(c.props), c.implementIterator)
  }

  // After a walk each name holds the last class walked that has it, with its own members,
  // constructor and iterator.
  lemma {:induction false} LastClassWins(order: seq<(nat, Mod)>, table: ClassTable, m: Mod, n: string)
    requires ListsClasses(order, table) && (m, n) in NaiveClasses(order, table)
    ensures exists i :: (0 <= i < |order| && LastClassNamed(order, table, i, m, n)
      && IsClass(NaiveClasses(order, table)[(m, n)], m, n, ClassIn(table, order[i].0, m).value))
  {
    var k := |order| - 1;
    assert ClassIn(table, order[k].0, order[k].1).Some?;
    if NamesClass(order[k], table, m, n) {
      assert LastClassNamed(order, table, k, m, n);
    } else {
      var init := order[..k];
      LastClassWins(init, table, m, n);
      assert forall j | 0 <= j < k :: init[j] == order[j];
      var i :| 0 <= i < |init| && LastClassNamed(init, table, i, m, n)
        && IsClass(NaiveClasses(init, table)[(m, n)], m, n, ClassIn(table, init[i].0, m).value);
      assert LastClassNamed(order, table, i, m, n);
    }
  }

  ghost predicate WalksClasses(order: seq<(nat, Mod)>, table: ClassTable) {
    && ListsClasses(order, table)
    && (forall t: nat, m: Mod | ClassIn(table, t, m).Some? :: (t, m) in order)
    && Distinct(order) && Nested(order)
  }

  // The outer map is walked by types, each with all of its namespaces at once.
  predicate Nested(order: seq<(nat, Mod)>) {
    forall i, j, k | 0 <= i < j < k < |order| && order[i].0 == order[k].0 :: order[j].0 == order[i].0
  }

  lemma ClassOrderDoesNotMatter(o: seq<(nat, Mod)>, p: seq<(nat, Mod)>, table: ClassTable)
    requires ClassesAlike(table) && WalksClasses(o, table) && WalksClasses(p, table)
    ensures NaiveClasses(o, table) == NaiveClasses(p, table)
  {
    var a, b := NaiveClasses(o, table), NaiveClasses(p, table);
    forall k: (Mod, string)
      ensures Look(a, k) == Look(b, k)
    {
      SameLook(o, p, table, k.0, k.1);
      SameLook(p, o, table, k.0, k.1);
    }
    assert a.Keys == b.Keys by {
      forall k: (Mod, string)
        ensures k in a.Keys <==> k in b.Keys
      {
        assert Look(a, k) == Look(b, k);
      }
    }
    forall k | k in a
      ensures a[k] == b[k]
    {
      assert Look(a, k) == Look(b, k);
    }
  }

  lemma SameLook(o: seq<(nat, Mod)>, p: seq<(nat, Mod)>, table: ClassTable, m: Mod, n: string)
    requires ClassesAlike(table) && ListsClasses(o, table) && WalksClasses(p, table)
    ensures Look(NaiveClasses(o, table), (m, n)).Some?
      ==> Look(NaiveClasses(p, table), (m, n)) == Look(NaiveClasses(o, table), (m, n))
  {
    InNaiveClasses(o, table, m, n);
    if Look(NaiveClasses(o, table), (m, n)).Some? {
      var i :| 0 <= i < |o| && o[i].1 == m && ClassIn(table, o[i].0, m).Some?
        && ClassIn(table, o[i].0, m).value.jsName == n
        && Look(NaiveClasses(o, table), (m, n)).value == Defined(m, ClassIn(table, o[i].0, m).value);
      LookOf(p, table, o[i].0, m);
    }
  }

  // A walk leaves every class under its name.
  lemma LookOf(p: seq<(nat, Mod)>, table: ClassTable, t: nat, m: Mod)
    requires ClassesAlike(table) && WalksClasses(p, table) && ClassIn(table, t, m).Some?
    ensures var c := ClassIn(table, t, m).value;
      Look(NaiveClasses(p, table), (m, c.jsName)) == Some(Defined(m, c))
  {
    InNaiveClasses(p, table, m, ClassIn(table, t, m).value.jsName);
    assert (t, m) in p;
    var j :| 0 <= j < |p| && p[j] == (t, m);
    assert p[j].1 == m && ClassIn(table, p[j].0, m).Some?;
  }

  predicate Walks(order: seq<Mod>, regs: seq<Registration>) {
    Distinct(order) && Elements(order) == Mods(regs)
  }

  lemma WalkIsGrouped(order: seq<Mod>, regs: seq<Registration>)
    requires Walks(order, regs)
    ensures forall i | 0 <= i < |order| :: order[i] in Grouped(regs)
  {
    forall i | 0 <= i < |order|
      ensures order[i] in Grouped(regs)
    {
      assert order[i] in Elements(order);
    }
  }

  ghost function Exported(regs: seq<Registration>, order: seq<Mod>, table: ClassTable, classOrder: seq<(nat, Mod)>): State
    requires Walks(order, regs) && WalksClasses(classOrder, table)
  {
    WalkIsGrouped(order, regs);
    AfterClasses(AfterGroups(START, order, Grouped(regs)), classOrder, table)
  }

  // With classes after functions: where the order of either pass cannot show. A function at
  // the top may have the name of a namespace of functions only if a class will take its
  // place, and a class at the top never that of a namespace of classes.
  ghost predicate PassesFit(regs: seq<Registration>, table: ClassTable, hid: set<string>) {
    NoClash(regs, hid) && ClassesFit(table, SpaceNames(Mods(regs)), hid)
  }

  // The exports are those of registering one entry after the other, functions first and
  // classes over them in the order they are walked in; and every namespace that is
  // mentioned was made once, for both passes.
  lemma ExportsShow(regs: seq<Registration>, order: seq<Mod>, table: ClassTable, o: seq<(nat, Mod)>, hid: set<string>)
    requires Walks(order, regs) && WalksClasses(o, table) && PassesFit(regs, table, hid)
    ensures var s := Exported(regs, order, table, o);
      && Shows(s, WithClasses(Naive(regs), o, table), hid)
      && s.names == SpaceNames(Mods(regs)) + ClassSpaces(table)
      && s.made == |SpaceNames(Mods(regs)) + ClassSpaces(table)|
  {
    FunctionsShow(regs, order, hid);
    var s := AfterGroups(START, order, Grouped(regs));
    ClassesShow(s, o, table, Naive(regs), hid);
    NamesAfterClasses(s, o, table);
    SpacesOfWalk(o, table);
  }

  // With top-level names and namespaces apart, and classes that clash alike, this is so
  // whatever the order of both hash maps, and nothing is hidden.
  lemma EveryOrder(regs: seq<Registration>, order: seq<Mod>, table: ClassTable, o: seq<(nat, Mod)>, naive: seq<(nat, Mod)>)
    requires Walks(order, regs) && WalksClasses(o, table) && WalksClasses(naive, table)
    requires ClassesAlike(table) && TopAndSpacesApart(regs, table)
    ensures var s := Exported(regs, order, table, o);
      && Shows(s, Naive(regs) + NaiveClasses(naive, table), {})
      && s.names == SpaceNames(Mods(regs)) + ClassSpaces(table)
      && s.made == |SpaceNames(Mods(regs)) + ClassSpaces(table)|
  {
    ApartFits(regs, table);
    ExportsShow(regs, order, table, o, {});
    ClassOrderDoesNotMatter(o, naive, table);
    SpacesOfWalk(o, table);
    NothingTaken(regs, table);
  }

  lemma ApartFits(regs: seq<Registration>, table: ClassTable)
    requires TopAndSpacesApart(regs, table)
    ensures PassesFit(regs, table, {})
  {
    forall r, q | r in regs && q in regs && r.jsMod == None && q.jsMod.Some?
      ensures q.jsMod.value != r.name
    {
      assert q.jsMod in Mods(regs);
      assert q.jsMod.value in SpaceNames(Mods(regs));
    }
  }

  lemma NothingTaken(regs: seq<Registration>, table: ClassTable)
    requires TopAndSpacesApart(regs, table)
    ensures WithoutTop(Naive(regs), ClassSpaces(table)) == Naive(regs)
  {
    forall k | k in Naive(regs)
      ensures k.0.Some? || k.1 !in ClassSpaces(table)
    {
      InNaive(regs, k.0, k.1);
    }
  }

  lemma FunctionsShow(regs: seq<Registration>, order: seq<Mod>, hid: set<string>)
    requires Walks(order, regs) && NoClash(regs, hid)
    ensures InGroups(order, Grouped(regs))
    ensures var s := AfterGroups(START, order, Grouped(regs));
      Shows(s, Naive(regs), hid) && s.names == SpaceNames(Mods(regs))
  {
    GroupsShow(regs, order, hid);
    NaiveInMods(regs);
  }

  lemma NaiveInMods(regs: seq<Registration>)
    ensures Restrict(Naive(regs), Mods(regs)) == Naive(regs)
  {
    forall k | k in Naive(regs)
      ensures k.0 in Mods(regs)
    {
      InNaive(regs, k.0, k.1);
    }
  }

  lemma SpacesOfWalk(o: seq<(nat, Mod)>, table: ClassTable)
    requires WalksClasses(o, table)
    ensures SpacesWalked(o) == ClassSpaces(table)
  {
    WalkedAreListed(o, table);
    forall n | n in ClassSpaces(table)
      ensures n in SpacesWalked(o)
    {
      var t: nat :| t in table && Some(n) in table[t];
      assert ClassIn(table, t, Some(n)).Some?;
      assert (t, Some(n)) in o;
    }
  }

  // ----- the function pass alone: when the order of the groups can be seen

  ghost function FunctionsExported(regs: seq<Registration>, order: seq<Mod>): State
    requires Walks(order, regs)
  {
    WalkIsGrouped(order, regs);
    AfterGroups(START, order, Grouped(regs))
  }

  // What an importer finds: under a name, where one namespace looks like another...
  function Seen(s: State, n: string): Option<Object> {
    var found := Look(Props(s.heap, Exports), n);
    if found.Some? && found.value.Space? then Some(Space(0)) else found
  }

  // ... and on what it finds there, be it a namespace, a function or a class.
  function Inside(s: State, m: string, n: string): Option<Object> {
    var found := Look(Props(s.heap, Exports), m);
    if found.Some? then Look(Props(s.heap, found.value), n) else None
  }

  ghost predicate SameExports(s: State, t: State) {
    (forall n: string :: Seen(s, n) == Seen(t, n)) && forall m: string, n: string :: Inside(s, m, n) == Inside(t, m, n)
  }

  predicate NoSpaces(tree: Tree) {
    forall k | k in tree :: tree[k].Function? || tree[k].Class?
  }

  // Under every hidden name there is the same class.
  ghost predicate HiddenAlike(s: State, t: State, hid: set<string>) {
    forall a | a in hid ::
      var found := Look(Props(s.heap, Exports), a);
      found.Some? && found.value.Class? && Look(Props(t.heap, Exports), a) == found
  }

  lemma ShownAlike(s: State, t: State, tree: Tree, hid: set<string>)
    requires Shows(s, tree, hid) && Shows(t, tree, hid) && s.names == t.names && NoSpaces(tree)
    requires HiddenAlike(s, t, hid)
    ensures SameExports(s, t)
  {
    forall n: string
      ensures Seen(s, n) == Seen(t, n)
    {
      if n !in hid {
        TopOf(s, n, tree, hid);
        TopOf(t, n, tree, hid);
      }
    }
    forall m: string, n: string
      ensures Inside(s, m, n) == Inside(t, m, n)
    {
      if m !in hid {
        InsideOf(s, m, n, tree, hid);
        InsideOf(t, m, n, tree, hid);
      }
    }
  }

  lemma TopOf(s: State, n: string, tree: Tree, hid: set<string>)
    requires Shows(s, tree, hid) && NoSpaces(tree) && n !in hid
    ensures n in s.names ==> Look(Props(s.heap, Exports), n) == Some(SpaceOf(s, n)) && SpaceOf(s, n).Space?
    ensures n in s.names ==> (None, n) !in tree
    ensures n !in s.names ==> Look(Props(s.heap, Exports), n) == Look(tree, (None, n)) == Seen(s, n)
    ensures n !in s.names && Seen(s, n).Some? ==> Seen(s, n).value.Function? || Seen(s, n).value.Class?
  {
    if n !in s.names && Look(tree, (None, n)).Some? {
      assert tree[(None, n)].Function? || tree[(None, n)].Class?;
    }
  }

  lemma InsideOf(s: State, m: string, n: string, tree: Tree, hid: set<string>)
    requires Shows(s, tree, hid) && NoSpaces(tree) && m !in hid
    ensures Inside(s, m, n) == Look(tree, (Some(m), n))
  {
    TopOf(s, m, tree, hid);
    assert Look(tree, (Some(m), n)) == if m in s.names then Look(Props(s.heap, SpaceOf(s, m)), n) else None;
  }

  lemma {:induction false} NaiveMakesFunctions(regs: seq<Registration>, k: (Mod, string))
    ensures k in Naive(regs) ==> Naive(regs)[k].Function?
  {
    if regs != [] {
      NaiveMakesFunctions(regs[..|regs| - 1], k);
    }
  }

  lemma {:induction false} NamesAfterGroups(groups: Groups, order: seq<Mod>)
    requires InGroups(order, groups)
    ensures AfterGroups(START, order, groups).names == SpaceNames(Elements(order))
  {
    if order == [] {
      assert SpaceNames(Elements(order)) == {};
    } else {
      var rest, m := order[..|order| - 1], order[|order| - 1];
      assert order == rest + [m];
      NamesAfterGroups(groups, rest);
      assert Elements(order) == Elements(rest) + {m};
      NamesOneMore(Elements(rest), m);
    }
  }

  lemma {:induction false} ItemsPut(h: Heap, o: Object, items: seq<(string, nat)>, p: Object, a: string)
    ensures p != o ==> Props(AfterItems(h, o, items), p) == Props(h, p)
    ensures (exists i :: 0 <= i < |items| && items[i].0 == a)
      ==> Look(Props(AfterItems(h, o, items), o), a).Some? && Props(AfterItems(h, o, items), o)[a].Function?
  {
    if items != [] {
      var rest := items[..|items| - 1];
      ItemsPut(h, o, rest, p, a);
      if i :| 0 <= i < |items| && items[i].0 == a && items[|items| - 1].0 != a {
        assert rest[i].0 == a;
      }
    }
  }

  predicate InGroups(order: seq<Mod>, groups: Groups) {
    forall i | 0 <= i < |order| :: order[i] in groups
  }

  // The groups of other namespaces leave a top-level name as it is.
  lemma {:induction false} RestKeeps(groups: Groups, order: seq<Mod>, h: nat, a: string)
    requires h <= |order| && InGroups(order, groups) && Distinct(order)
    requires forall i | h <= i < |order| :: order[i].Some? && order[i].value != a
    ensures Seen(AfterGroups(START, order, groups), a) == Seen(AfterGroups(START, order[..h], groups), a)
  {
    if h == |order| {
      assert order[..h] == order;
    } else {
      var init, m := order[..|order| - 1], order[|order| - 1];
      assert init[..h] == order[..h];
      RestKeeps(groups, init, h, a);
      NamesAfterGroups(groups, init);
      NotYetNamed(init, m);
      GroupKeeps(AfterGroups(START, init, groups), m, groups[m], a);
    }
  }

  lemma NotYetNamed(order: seq<Mod>, m: Mod)
    requires m.Some? && m !in order
    ensures m.value !in SpaceNames(Elements(order))
  {
    assert m == Some(m.value);
  }

  lemma GroupKeeps(s: State, m: Mod, items: seq<(string, nat)>, a: string)
    requires Known(s) && m.Some? && m.value != a && m.value !in s.names
    ensures Seen(AfterGroup(s, m, items), a) == Seen(s, a)
  {
    var (t, o) := Target(s, m);
    ItemsPut(t.heap, o, items, Exports, a);
  }

  lemma {:induction false} Enumerate<T>(s: set<T>) returns (order: seq<T>)
    ensures Distinct(order) && Elements(order) == s
  {
    if s == {} {
      order := [];
    } else {
      var m :| m in s;
      var rest := Enumerate(s - {m});
      order := [m] + rest;
      assert m !in rest by {
        assert m !in Elements(rest);
      }
      assert forall x :: x in order <==> x == m || x in Elements(rest);
    }
  }

  lemma TopOfItems(regs: seq<Registration>, r: Registration)
    requires r in regs
    ensures exists i :: 0 <= i < |Of(regs, r.jsMod)| && Of(regs, r.jsMod)[i].0 == r.name
  {
    var rest, last := regs[..|regs| - 1], regs[|regs| - 1];
    if r == last {
      assert Of(regs, r.jsMod)[|Of(rest, r.jsMod)|].0 == r.name;
    } else {
      assert r in rest;
      TopOfItems(rest, r);
      var i :| 0 <= i < |Of(rest, r.jsMod)| && Of(rest, r.jsMod)[i].0 == r.name;
      assert Of(regs, r.jsMod)[i].0 == r.name;
    }
  }

  lemma HeadsDiffer(regs: seq<Registration>, r: Registration)
    requires r in regs && r.jsMod == None && Some(r.name) in Mods(regs)
    ensures None in Grouped(regs) && Some(r.name) in Grouped(regs)
    ensures Seen(AfterGroups(START, [None, Some(r.name)], Grouped(regs)), r.name) == Some(Space(0))
    ensures var f := Seen(AfterGroups(START, [Some(r.name), None], Grouped(regs)), r.name);
      f.Some? && f.value.Function?
  {
    var g, a := Grouped(regs), r.name;
    assert None in Mods(regs);
    var m: Mod := Some(a);
    assert [None, m][..1] == [None] && [m, None][..1] == [m];
    var top: Mod := None;
    assert [top][..0] == [] && [m][..0] == [];
    assert AfterGroups(START, [], g) == START;
    var s := AfterGroups(START, [top], g);
    assert s == AfterGroup(START, None, g[None]) && s.names == {};
    ItemsPut(Target(s, m).0.heap, Space(0), g[m], Exports, a);
    var t := AfterGroups(START, [m], g);
    TopOfItems(regs, r);
    ItemsPut(t.heap, Exports, g[None], Exports, a);
  }

  // Two walks of the function groups always leave the same exports if and only if no
  // top-level function is named like a namespace.
  lemma FunctionOrderExactly(regs: seq<Registration>)
    ensures OrderIsUnseen(regs) <==> NoClash(regs, {})
  {
    if NoClash(regs, {}) {
      forall o, p | Walks(o, regs) && Walks(p, regs)
        ensures SameExports(FunctionsExported(regs, o), FunctionsExported(regs, p))
      {
        FunctionsAlike(regs, o, p);
      }
    } else {
      var r, q :| r in regs && q in regs && r.jsMod == None && q.jsMod.Some? && q.jsMod.value == r.name;
      var o, p := ClashingOrders(regs, r, q);
      assert !SameExports(FunctionsExported(regs, o), FunctionsExported(regs, p));
    }
  }

  ghost predicate OrderIsUnseen(regs: seq<Registration>) {
    forall o, p | Walks(o, regs) && Walks(p, regs) ::
      SameExports(FunctionsExported(regs, o), FunctionsExported(regs, p))
  }

  lemma ClashingOrders(regs: seq<Registration>, r: Registration, q: Registration) returns (o: seq<Mod>, p: seq<Mod>)
    requires r in regs && q in regs && r.jsMod == None && q.jsMod == Some(r.name)
    ensures Walks(o, regs) && Walks(p, regs) && Some(r.name) in Mods(regs)
    ensures Seen(FunctionsExported(regs, o), r.name) != Seen(FunctionsExported(regs, p), r.name)
  {
    var m: Mod := Some(r.name);
    assert None in Mods(regs) && m in Mods(regs);
    var rest := Enumerate(Mods(regs) - {None, m});
    o, p := [None, m] + rest, [m, None] + rest;
    OrdersDiffer(regs, r, rest);
  }

  lemma FunctionsAlike(regs: seq<Registration>, o: seq<Mod>, p: seq<Mod>)
    requires NoClash(regs, {}) && Walks(o, regs) && Walks(p, regs)
    ensures SameExports(FunctionsExported(regs, o), FunctionsExported(regs, p))
  {
    FunctionsShow(regs, o, {});
    FunctionsShow(regs, p, {});
    forall k | k in Naive(regs)
      ensures Naive(regs)[k].Function? || Naive(regs)[k].Class?
    {
      NaiveMakesFunctions(regs, k);
    }
    ShownAlike(FunctionsExported(regs, o), FunctionsExported(regs, p), Naive(regs), {});
  }

  lemma OrdersDiffer(regs: seq<Registration>, r: Registration, rest: seq<Mod>)
    requires r in regs && r.jsMod == None && Some(r.name) in Mods(regs)
    requires Distinct(rest) && Elements(rest) == Mods(regs) - {None, Some(r.name)}
    ensures var (o, p) := ([None, Some(r.name)] + rest, [Some(r.name), None] + rest);
      && Walks(o, regs) && Walks(p, regs)
      && Seen(FunctionsExported(regs, o), r.name) != Seen(FunctionsExported(regs, p), r.name)
  {
    var m: Mod := Some(r.name);
    var o, p := [None, m] + rest, [m, None] + rest;
    HeadsDiffer(regs, r);
    HeadWalks(regs, [None, m], rest);
    HeadWalks(regs, [m, None], rest);
    WalkIsGrouped(o, regs);
    WalkIsGrouped(p, regs);
    assert o[..2] == [None, m] && p[..2] == [m, None];
    RestKeeps(Grouped(regs), o, 2, r.name);
    RestKeeps(Grouped(regs), p, 2, r.name);
  }

  lemma HeadWalks(regs: seq<Registration>, head: seq<Mod>, rest: seq<Mod>)
    requires |head| == 2 && head[0] != head[1] && head[0] in Mods(regs) && head[1] in Mods(regs)
    requires Distinct(rest) && Elements(rest) == Mods(regs) - {head[0], head[1]}
    ensures Walks(head + rest, regs) && head[0] !in rest && head[1] !in rest
  {
    assert head[0] !in Elements(rest) && head[1] !in Elements(rest);
    forall x: Mod
      ensures x in head + rest <==> x in Mods(regs)
    {
      assert x in rest <==> x in Elements(rest);
      assert x in head <==> x == head[0] || x == head[1];
    }
  }

  // ----- the constructors found by class name

  function ClassKeys(table: ClassTable): set<(nat, Mod)> {
    set t, m | t in table && m in table[t] :: (t, m)
  }

  function ClassOf(table: ClassTable, k: (nat, Mod)): Object
    requires k in ClassKeys(table)
  {
    Defined(k.1, table[k.0][k.1])
  }

  predicate OneClassPerName(table: ClassTable) {
    forall a, b | a in ClassKeys(table) && b in ClassKeys(table) ::
      table[a.0][a.1].jsName == table[b.0][b.1].jsName ==> ClassOf(table, a) == ClassOf(table, b)
  }

  lemma {:induction false} InRegistered(order: seq<(nat, Mod)>, table: ClassTable, n: string)
    requires ListsClasses(order, table)
    ensures var r := Registered(order, table);
      && (n in r <==> exists k :: k in order && k in ClassKeys(table) && table[k.0][k.1].jsName == n)
      && (n in r ==> exists k :: k in order && k in ClassKeys(table) && table[k.0][k.1].jsName == n
                       && r[n] == ClassOf(table, k))
  {
    if order != [] {
      var init, last := order[..|order| - 1], order[|order| - 1];
      assert ClassIn(table, last.0, last.1).Some?;
      assert order == init + [last] && last in ClassKeys(table);
      InRegistered(init, table, n);
    }
  }

  ghost predicate RegisteredAlike(table: ClassTable) {
    forall o, p | WalksClasses(o, table) && WalksClasses(p, table) :: Registered(o, table) == Registered(p, table)
  }

  lemma WalkedKeys(order: seq<(nat, Mod)>, table: ClassTable)
    requires WalksClasses(order, table)
    ensures forall k :: k in order <==> k in ClassKeys(table)
  {
    forall k: (nat, Mod)
      ensures k in order <==> k in ClassKeys(table)
    {
      if k in order {
        var i :| 0 <= i < |order| && order[i] == k;
        assert ClassIn(table, order[i].0, order[i].1).Some?;
      }
      if k in ClassKeys(table) {
        assert ClassIn(table, k.0, k.1).Some?;
      }
    }
  }

  function Keyed(t: nat, mods: seq<Mod>): seq<(nat, Mod)> {
    seq(|mods|, i requires 0 <= i < |mods| => (t, mods[i]))
  }

  lemma OneMoreType(order: seq<(nat, Mod)>, t: nat, mods: seq<Mod>)
    requires Distinct(order) && Nested(order) && Distinct(mods)
    requires forall k | k in order :: k.0 != t
    ensures var more := order + Keyed(t, mods);
      && Distinct(more) && Nested(more)
      && forall k :: k in more <==> k in order || (k.0 == t && k.1 in mods)
  {
    var more := order + Keyed(t, mods);
    assert forall i | 0 <= i < |order| :: order[i] in order;
    forall k: (nat, Mod)
      ensures k in more <==> k in order || (k.0 == t && k.1 in mods)
    {
      if k.0 == t && k.1 in mods {
        var i :| 0 <= i < |mods| && mods[i] == k.1;
        assert more[|order| + i] == k;
      }
    }
  }

  lemma {:induction false} WalkOf(table: ClassTable, types: set<nat>) returns (order: seq<(nat, Mod)>)
    requires types <= table.Keys
    ensures Distinct(order) && Nested(order)
    ensures forall k :: k in order <==> k.0 in types && k.1 in table[k.0]
  {
    if types == {} {
      order := [];
    } else {
      var t :| t in types;
      var rest := WalkOf(table, types - {t});
      var mods := Enumerate(table[t].Keys);
      assert forall m :: m in mods <==> m in Elements(mods);
      OneMoreType(rest, t, mods);
      order := rest + Keyed(t, mods);
    }
  }

  // Some walk comes to a given class last.
  lemma LastWalk(table: ClassTable, k: (nat, Mod)) returns (order: seq<(nat, Mod)>)
    requires k in ClassKeys(table)
    ensures WalksClasses(order, table) && order != [] && order[|order| - 1] == k
  {
    var rest := WalkOf(table, table.Keys - {k.0});
    var inner := Enumerate(table[k.0].Keys - {k.1});
    var mods := inner + [k.1];
    assert forall m :: m in inner <==> m in Elements(inner);
    assert Distinct(mods);
    OneMoreType(rest, k.0, mods);
    order := rest + Keyed(k.0, mods);
    assert forall x :: x in order <==> x in ClassKeys(table);
    KeysAreAWalk(order, table);
  }

  lemma KeysAreAWalk(order: seq<(nat, Mod)>, table: ClassTable)
    requires Distinct(order) && Nested(order)
    requires forall x :: x in order <==> x in ClassKeys(table)
    ensures WalksClasses(order, table)
  {
    forall i | 0 <= i < |order|
      ensures ClassIn(table, order[i].0, order[i].1).Some?
    {
      assert order[i] in order;
    }
    forall t: nat, m: Mod | ClassIn(table, t, m).Some?
      ensures (t, m) in order
    {
      assert (t, m) in ClassKeys(table);
    }
  }

  lemma SameRegistered(o: seq<(nat, Mod)>, p: seq<(nat, Mod)>, table: ClassTable)
    requires OneClassPerName(table) && WalksClasses(o, table) && WalksClasses(p, table)
    ensures Registered(o, table) == Registered(p, table)
  {
    WalkedKeys(o, table);
    WalkedKeys(p, table);
    forall n: string
      ensures n in Registered(o, table) <==> n in Registered(p, table)
      ensures n in Registered(o, table) ==> Registered(o, table)[n] == Registered(p, table)[n]
    {
      InRegistered(o, table, n);
      InRegistered(p, table, n);
    }
  }

  // Two walks always register the same constructors if and only if classes of one name are
  // one class, in one namespace.
  lemma RegisteredExactly(table: ClassTable)
    ensures RegisteredAlike(table) <==> OneClassPerName(table)
  {
    if OneClassPerName(table) {
      forall o, p | WalksClasses(o, table) && WalksClasses(p, table)
        ensures Registered(o, table) == Registered(p, table)
      {
        SameRegistered(o, p, table);
      }
    } else {
      var a, b :| a in ClassKeys(table) && b in ClassKeys(table)
        && table[a.0][a.1].jsName == table[b.0][b.1].jsName && ClassOf(table, a) != ClassOf(table, b);
      NameClashIsSeen(table, a, b);
    }
  }

  lemma NameClashIsSeen(table: ClassTable, a: (nat, Mod), b: (nat, Mod))
    requires a in ClassKeys(table) && b in ClassKeys(table)
    requires table[a.0][a.1].jsName == table[b.0][b.1].jsName && ClassOf(table, a) != ClassOf(table, b)
    ensures !RegisteredAlike(table)
  {
    var o := LastWalk(table, a);
    var p := LastWalk(table, b);
    assert Registered(o, table)[table[a.0][a.1].jsName] != Registered(p, table)[table[a.0][a.1].jsName];
  }

  // ----- the classes seen in the exports

  ghost predicate ClassTreesAlike(table: ClassTable) {
    forall o, p | WalksClasses(o, table) && WalksClasses(p, table) :: NaiveClasses(o, table) == NaiveClasses(p, table)
  }

  // Two walks of the classes come to the same if and only if classes of one name in one
  // namespace are one class.
  lemma ClassTreesExactly(table: ClassTable)
    ensures ClassTreesAlike(table) <==> ClassesAlike(table)
  {
    if ClassesAlike(table) {
      forall o, p | WalksClasses(o, table) && WalksClasses(p, table)
        ensures NaiveClasses(o, table) == NaiveClasses(p, table)
      {
        ClassOrderDoesNotMatter(o, p, table);
      }
    } else {
      var o, p, m, n := ClashingWalks(table);
    }
  }

  lemma ClashingWalks(table: ClassTable)
    returns (o: seq<(nat, Mod)>, p: seq<(nat, Mod)>, m: Mod, n: string)
    requires !ClassesAlike(table)
    ensures WalksClasses(o, table) && WalksClasses(p, table)
    ensures (m, n) in NaiveClasses(o, table) && (m, n) in NaiveClasses(p, table)
    ensures NaiveClasses(o, table)[(m, n)] != NaiveClasses(p, table)[(m, n)]
  {
    var t: nat, u: nat, space: Mod :| ClassIn(table, t, space).Some? && ClassIn(table, u, space).Some?
      && ClassIn(table, t, space).value.jsName == ClassIn(table, u, space).value.jsName
      && Defined(space, ClassIn(table, t, space).value) != Defined(space, ClassIn(table, u, space).value);
    m, n := space, ClassIn(table, t, space).value.jsName;
    assert (t, m) in ClassKeys(table) && (u, m) in ClassKeys(table);
    o := LastWalk(table, (t, m));
    p := LastWalk(table, (u, m));
  }

  ghost predicate BothPassesAlike(regs: seq<Registration>, table: ClassTable) {
    forall a, o, b, p | Walks(a, regs) && WalksClasses(o, table) && Walks(b, regs) && WalksClasses(p, table) ::
      SameExports(Exported(regs, a, table, o), Exported(regs, b, table, p))
  }

  // When the order of both passes cannot be seen. A function at the top has the name of a
  // namespace of functions only where a class takes the place of both; a class at the top
  // never has the name of a namespace of classes; and classes that clash are one class.
  ghost predicate OrdersAreHidden(regs: seq<Registration>, table: ClassTable) {
    && NoClash(regs, TopClasses(table))
    && TopClasses(table) !! ClassSpaces(table)
    && ClassesAlike(table)
  }

  // Both passes together, whatever was registered.
  lemma BothPassesExactly(regs: seq<Registration>, table: ClassTable)
    ensures BothPassesAlike(regs, table) <==> OrdersAreHidden(regs, table)
  {
    if OrdersAreHidden(regs, table) {
      forall a, o, b, p | Walks(a, regs) && WalksClasses(o, table) && Walks(b, regs) && WalksClasses(p, table)
        ensures SameExports(Exported(regs, a, table, o), Exported(regs, b, table, p))
      {
        HiddenOrders(regs, table, a, o, b, p);
      }
    } else if r, q :| r in regs && q in regs && r.jsMod == None && q.jsMod == Some(r.name) && r.name !in TopClasses(table) {
      FunctionOrderIsSeen(regs, table, r, q);
    } else if a :| a in TopClasses(table) && a in ClassSpaces(table) {
      ClassOnClassIsSeen(regs, table, a);
    } else {
      ClashOfClassesIsSeen(regs, table);
    }
  }

  // No object carries the exports.
  ghost predicate NoWayBack(h: Heap) {
    forall o, n | n in Props(h, o) :: Props(h, o)[n] != Exports
  }

  lemma TargetNoWayBack(s: State, m: Mod)
    requires Known(s) && NoWayBack(s.heap)
    ensures var (t, o) := Target(s, m);
      NoWayBack(t.heap) && (m.Some? ==> o != Exports)
  {
    var (t, o) := Target(s, m);
    if m.Some? && m.value !in s.names {
      forall p, n | n in Props(t.heap, p)
        ensures Props(t.heap, p)[n] != Exports
      {
        assert (p == Exports && n == m.value) || (n in Props(s.heap, p) && Props(t.heap, p)[n] == Props(s.heap, p)[n]);
      }
    }
  }

  lemma ClassNoWayBack(s: State, m: Mod, c: ClassRegistration)
    requires Known(s) && NoWayBack(s.heap)
    ensures NoWayBack(AfterClass(s, m, c).heap)
  {
    TargetNoWayBack(s, m);
    var (t, o) := Target(s, m);
    var h := AfterClass(s, m, c).heap;
    forall p, n | n in Props(h, p)
      ensures Props(h, p)[n] != Exports
    {
      assert Props(h, p)[n] == Defined(m, c) || (n in Props(t.heap, p) && Props(h, p)[n] == Props(t.heap, p)[n]);
    }
  }

  lemma {:induction false} ClassesNoWayBack(s: State, order: seq<(nat, Mod)>, table: ClassTable)
    requires Known(s) && NoWayBack(s.heap) && ListsClasses(order, table)
    ensures NoWayBack(AfterClasses(s, order, table).heap)
  {
    if order != [] {
      var rest, last := order[..|order| - 1], order[|order| - 1];
      ClassesNoWayBack(s, rest, table);
      assert ClassIn(table, order[|rest|].0, order[|rest|].1).Some?;
      ClassNoWayBack(AfterClasses(s, rest, table), last.1, ClassIn(table, last.0, last.1).value);
    }
  }

  // A name at the top is, after the classes, the class last put there or what it was.
  lemma {:induction false} TopStays(s: State, order: seq<(nat, Mod)>, table: ClassTable, a: string)
    requires Known(s) && NoWayBack(s.heap) && ListsClasses(order, table)
    requires a in s.names || a !in SpacesWalked(order)
    ensures Look(Props(AfterClasses(s, order, table).heap, Exports), a)
      == if (None, a) in NaiveClasses(order, table) then Some(NaiveClasses(order, table)[(None, a)])
         else Look(Props(s.heap, Exports), a)
  {
    if order != [] {
      var rest, last := order[..|order| - 1], order[|order| - 1];
      assert order == rest + [last];
      WalkedOneMore(rest, last);
      NamesAfterClasses(s, rest, table);
      ClassesNoWayBack(s, rest, table);
      TopStays(s, rest, table, a);
      assert ClassIn(table, order[|rest|].0, order[|rest|].1).Some?;
      OneClassKeepsTop(AfterClasses(s, rest, table), last.1, ClassIn(table, last.0, last.1).value, a);
    }
  }

  lemma OneClassKeepsTop(s: State, m: Mod, c: ClassRegistration, a: string)
    requires Known(s) && NoWayBack(s.heap) && (m != Some(a) || a in s.names)
    ensures Look(Props(AfterClass(s, m, c).heap, Exports), a)
      == if m == None && c.jsName == a then Some(Defined(m, c)) else Look(Props(s.heap, Exports), a)
  {
    TargetNoWayBack(s, m);
    var t := Target(s, m).0;
    assert Props(t.heap - {Defined(m, c)}, Exports) == Props(t.heap, Exports);
  }

  lemma {:induction false} ItemsNoWayBack(h: Heap, o: Object, items: seq<(string, nat)>)
    requires NoWayBack(h)
    ensures NoWayBack(AfterItems(h, o, items))
  {
    if items != [] {
      var g, r := AfterItems(h, o, items[..|items| - 1]), AfterItems(h, o, items);
      ItemsNoWayBack(h, o, items[..|items| - 1]);
      forall p, n | n in Props(r, p)
        ensures Props(r, p)[n] != Exports
      {
        assert Props(r, p)[n].Function? || (n in Props(g, p) && Props(r, p)[n] == Props(g, p)[n]);
      }
    }
  }

  lemma {:induction false} GroupsNoWayBack(groups: Groups, order: seq<Mod>)
    requires InGroups(order, groups)
    ensures NoWayBack(AfterGroups(START, order, groups).heap)
  {
    if order != [] {
      var rest, m := order[..|order| - 1], order[|order| - 1];
      GroupsNoWayBack(groups, rest);
      TargetNoWayBack(AfterGroups(START, rest, groups), m);
      var (t, o) := Target(AfterGroups(START, rest, groups), m);
      ItemsNoWayBack(t.heap, o, groups[m]);
    }
  }

  // What a top-level name is after both passes.
  lemma TopAfterBoth(regs: seq<Registration>, order: seq<Mod>, table: ClassTable, o: seq<(nat, Mod)>, a: string)
    requires Walks(order, regs) && WalksClasses(o, table)
    requires Some(a) in Mods(regs) || a !in ClassSpaces(table)
    ensures Look(Props(Exported(regs, order, table, o).heap, Exports), a)
      == if (None, a) in NaiveClasses(o, table) then Some(NaiveClasses(o, table)[(None, a)])
         else Look(Props(FunctionsExported(regs, order).heap, Exports), a)
  {
    WalkIsGrouped(order, regs);
    GroupsNoWayBack(Grouped(regs), order);
    NamesAfterGroups(Grouped(regs), order);
    SpacesOfWalk(o, table);
    assert Some(a) in Mods(regs) ==> a in SpaceNames(Mods(regs));
    TopStays(FunctionsExported(regs, order), o, table, a);
  }

  lemma TopClassIsThere(table: ClassTable, o: seq<(nat, Mod)>, a: string)
    requires WalksClasses(o, table)
    ensures a in TopClasses(table) <==> (None, a) in NaiveClasses(o, table)
    ensures a in TopClasses(table) ==> NaiveClasses(o, table)[(None, a)].Class?
  {
    InTopClasses(o, table, a);
    if a in TopClasses(table) {
      var t: nat :| t in table && None in table[t] && table[t][None].jsName == a;
      assert ClassIn(table, t, None).Some?;
      var i :| 0 <= i < |o| && o[i] == (t, None);
      InNaiveClasses(o, table, None, a);
    }
  }

  lemma HiddenOrders(regs: seq<Registration>, table: ClassTable, a: seq<Mod>, o: seq<(nat, Mod)>, b: seq<Mod>, p: seq<(nat, Mod)>)
    requires OrdersAreHidden(regs, table)
    requires Walks(a, regs) && WalksClasses(o, table) && Walks(b, regs) && WalksClasses(p, table)
    ensures SameExports(Exported(regs, a, table, o), Exported(regs, b, table, p))
  {
    var hid := TopClasses(table);
    ExportsShow(regs, a, table, o, hid);
    ExportsShow(regs, b, table, p, hid);
    ClassOrderDoesNotMatter(o, p, table);
    SpacesOfWalk(o, table);
    SpacesOfWalk(p, table);
    BothMakeNoSpaces(regs, o, table);
    forall n | n in hid
      ensures
        var found := Look(Props(Exported(regs, a, table, o).heap, Exports), n);
        && found.Some? && found.value.Class?
        && Look(Props(Exported(regs, b, table, p).heap, Exports), n) == found
    {
      TopAfterBoth(regs, a, table, o, n);
      TopAfterBoth(regs, b, table, p, n);
      TopClassIsThere(table, o, n);
    }
    ShownAlike(Exported(regs, a, table, o), Exported(regs, b, table, p), WithClasses(Naive(regs), o, table), hid);
  }

  lemma {:induction false} ClassesMakeClasses(order: seq<(nat, Mod)>, table: ClassTable, k: (Mod, string))
    requires ListsClasses(order, table)
    ensures k in NaiveClasses(order, table) ==> NaiveClasses(order, table)[k].Class?
  {
    if order != [] {
      ClassesMakeClasses(order[..|order| - 1], table, k);
    }
  }

  lemma BothMakeNoSpaces(regs: seq<Registration>, order: seq<(nat, Mod)>, table: ClassTable)
    requires ListsClasses(order, table)
    ensures NoSpaces(WithClasses(Naive(regs), order, table))
  {
    var tree := WithClasses(Naive(regs), order, table);
    forall k | k in tree
      ensures tree[k].Function? || tree[k].Class?
    {
      NaiveMakesFunctions(regs, k);
      ClassesMakeClasses(order, table, k);
    }
  }

  lemma SomeWalk(table: ClassTable) returns (order: seq<(nat, Mod)>)
    ensures WalksClasses(order, table)
  {
    order := WalkOf(table, table.Keys);
    KeysAreAWalk(order, table);
  }

  // A top-level function named like a namespace of functions: the group that comes last wins.
  lemma FunctionOrderIsSeen(regs: seq<Registration>, table: ClassTable, r: Registration, q: Registration)
    requires r in regs && q in regs && r.jsMod == None && q.jsMod == Some(r.name) && r.name !in TopClasses(table)
    ensures !BothPassesAlike(regs, table)
  {
    var a, b := ClashingOrders(regs, r, q);
    var o := SomeWalk(table);
    SeenAfterBoth(regs, a, b, table, o, r.name);
  }

  lemma SeenAfterBoth(regs: seq<Registration>, a: seq<Mod>, b: seq<Mod>, table: ClassTable, o: seq<(nat, Mod)>, n: string)
    requires Walks(a, regs) && Walks(b, regs) && WalksClasses(o, table) && n !in TopClasses(table)
    requires Some(n) in Mods(regs) && Seen(FunctionsExported(regs, a), n) != Seen(FunctionsExported(regs, b), n)
    ensures !SameExports(Exported(regs, a, table, o), Exported(regs, b, table, o))
  {
    TopAfterBoth(regs, a, table, o, n);
    TopAfterBoth(regs, b, table, o, n);
    TopClassIsThere(table, o, n);
    assert Seen(Exported(regs, a, table, o), n) != Seen(Exported(regs, b, table, o), n);
  }

  // A top-level class named like a namespace of classes: coming last it is new and carries
  // nothing; coming last, a class of the namespace is on what is there.
  lemma ClassOnClassIsSeen(regs: seq<Registration>, table: ClassTable, a: string)
    requires a in TopClasses(table) && a in ClassSpaces(table)
    ensures !BothPassesAlike(regs, table)
  {
    var t: nat :| t in table && None in table[t] && table[t][None].jsName == a;
    var u: nat :| u in table && Some(a) in table[u];
    var n := table[u][Some(a)].jsName;
    var order := Enumerate(Mods(regs));
    var o := LastWalk(table, (t, None));
    var p := LastWalk(table, (u, Some(a)));
    WalkIsGrouped(order, regs);
    GroupsNoWayBack(Grouped(regs), order);
    var s := FunctionsExported(regs, order);
    TopLast(s, o, table, n);
    InnerLast(s, p, table, a);
    assert Inside(Exported(regs, order, table, o), a, n) != Inside(Exported(regs, order, table, p), a, n);
  }

  lemma TopLast(s: State, o: seq<(nat, Mod)>, table: ClassTable, n: string)
    requires Known(s) && ListsClasses(o, table) && o != [] && o[|o| - 1].1 == None
    ensures ClassIn(table, o[|o| - 1].0, None).Some?
    ensures Inside(AfterClasses(s, o, table), ClassIn(table, o[|o| - 1].0, None).value.jsName, n) == None
  {
    assert ClassIn(table, o[|o| - 1].0, o[|o| - 1].1).Some?;
  }

  lemma InnerLast(s: State, o: seq<(nat, Mod)>, table: ClassTable, a: string)
    requires Known(s) && NoWayBack(s.heap) && ListsClasses(o, table) && o != [] && o[|o| - 1].1 == Some(a)
    ensures ClassIn(table, o[|o| - 1].0, Some(a)).Some?
    ensures Inside(AfterClasses(s, o, table), a, ClassIn(table, o[|o| - 1].0, Some(a)).value.jsName).Some?
  {
    var rest, last := o[..|o| - 1], o[|o| - 1];
    assert ClassIn(table, o[|o| - 1].0, o[|o| - 1].1).Some?;
    ClassesNoWayBack(s, rest, table);
    var before := AfterClasses(s, rest, table);
    TargetNoWayBack(before, last.1);
  }

  lemma ClashOfClassesIsSeen(regs: seq<Registration>, table: ClassTable)
    requires NoClash(regs, TopClasses(table)) && TopClasses(table) !! ClassSpaces(table) && !ClassesAlike(table)
    ensures !BothPassesAlike(regs, table)
  {
    var o, p, m, n := ClashingWalks(table);
    var a := Enumerate(Mods(regs));
    if m.Some? {
      ClashInside(regs, a, table, o, p, m.value, n);
    } else {
      InTopClasses(o, table, n);
      TopAfterBoth(regs, a, table, o, n);
      TopAfterBoth(regs, a, table, p, n);
      TopClassIsThere(table, o, n);
      TopClassIsThere(table, p, n);
      assert Seen(Exported(regs, a, table, o), n) != Seen(Exported(regs, a, table, p), n);
    }
  }

  lemma ClashInside(regs: seq<Registration>, a: seq<Mod>, table: ClassTable, o: seq<(nat, Mod)>, p: seq<(nat, Mod)>, m: string, n: string)
    requires NoClash(regs, TopClasses(table)) && TopClasses(table) !! ClassSpaces(table)
    requires Walks(a, regs) && WalksClasses(o, table) && WalksClasses(p, table)
    requires (Some(m), n) in NaiveClasses(o, table) && (Some(m), n) in NaiveClasses(p, table)
    requires NaiveClasses(o, table)[(Some(m), n)] != NaiveClasses(p, table)[(Some(m), n)]
    ensures !SameExports(Exported(regs, a, table, o), Exported(regs, a, table, p))
  {
    InClassSpaces(table, o, m, n);
    InsideAfterBoth(regs, a, table, o, m, n);
    InsideAfterBoth(regs, a, table, p, m, n);
    assert Inside(Exported(regs, a, table, o), m, n) != Inside(Exported(regs, a, table, p), m, n);
  }

  lemma InClassSpaces(table: ClassTable, o: seq<(nat, Mod)>, m: string, n: string)
    requires ListsClasses(o, table) && (Some(m), n) in NaiveClasses(o, table)
    ensures m in ClassSpaces(table)
  {
    InNaiveClasses(o, table, Some(m), n);
    var i :| 0 <= i < |o| && o[i].1 == Some(m) && ClassIn(table, o[i].0, Some(m)).Some?;
    assert Some(m) in table[o[i].0];
  }

  lemma InsideAfterBoth(regs: seq<Registration>, a: seq<Mod>, table: ClassTable, o: seq<(nat, Mod)>, m: string, n: string)
    requires NoClash(regs, TopClasses(table)) && TopClasses(table) !! ClassSpaces(table)
    requires Walks(a, regs) && WalksClasses(o, table)
    requires m in ClassSpaces(table) && (Some(m), n) in NaiveClasses(o, table)
    ensures Inside(Exported(regs, a, table, o), m, n) == Some(NaiveClasses(o, table)[(Some(m), n)])
  {
    var hid := TopClasses(table);
    ExportsShow(regs, a, table, o, hid);
    BothMakeNoSpaces(regs, o, table);
    InsideOf(Exported(regs, a, table, o), m, n, WithClasses(Naive(regs), o, table), hid);
  }
}
