/** Running the generated package: `Make_X`, the accessors with their kind
    assertions, and `Append_Node_To_`, over the table of flat records and the cells of
    the node lists; and the store of per-kind typed objects that it refines. */
module NodeStore {
  import opened Text
  import opened SchemaReader
  import opened Inheritance
  import opened FieldTables
  import opened ClassTests
  import opened NodeLists

  const KIND := "Kind"
  const LOC := "Loc"

  /** Values of record components. A list is the number of its first cell. */
  datatype Value =
    | Unset | NoNode
    | KindValue(kind: string) | LocValue(loc: int) | List(cell: nat)
    | Initial(expr: string) | Other(tag: int)

  /** Initialisers stay symbolic, except the empty list and the kinds. */
  function ValueOf(expr: string): Value {
    if expr == "Nil_List" then List(NIL)
    else if expr == "No_Node" then NoNode
    else if |expr| > 2 && expr[..2] == "K_" then KindValue(expr[2..])
    else Initial(expr)
  }

  datatype Op =
    | Make(kind: string, loc: int)
    | Get(n: nat, field: string)
    | Set(n: nat, field: string, v: Value)
    | AppendTo(n: nat, field: string, node: nat)

  /** What a call shows its caller. NotGenerated stands for a call the Ada compiler
      rejects, SymbolicList for an append to a list given by a symbolic initialiser. */
  datatype Reply = Created(n: nat) | Got(v: Value) | Done | AssertionFailed | BadIndex | NotGenerated | SymbolicList

  type Record = map<string, Value>

  /** The table of records and the cells of all lists. */
  datatype Store = Store(table: seq<Record>, heap: Heap)

  const EMPTYSTORE := Store([], [])

  /** A value a caller can hold, for a field of the given type. */
  predicate Holds(heap: Heap, typ: string, v: Value) {
    if typ == "Node_List" then v.Initial? || (v.List? && v.cell <= |heap|) else !v.List?
  }

  // ---------------------------------------------------------------- the generated package

  /** The package compiles: a readable, accepted description with the two Root fields
      that every generated body mentions. */
  ghost predicate Compiles(reg: Registry, t: Tables) {
    && Readable(reg) && AllRooted(reg.nodes)
    && Tabulates(t, AllUses(reg.nodes))
    && ROOT in reg.nodes
    && (exists i :: 0 <= i < |reg.nodes[ROOT].fields| && reg.nodes[ROOT].fields[i].name == KIND)
    && (exists i :: 0 <= i < |reg.nodes[ROOT].fields| && reg.nodes[ROOT].fields[i].name == LOC)
  }

  /** The initialiser met last on the way from Root down to `k` leaves Kind what
      `Make_<k>` has just assigned. */
  ghost predicate KindKept(nodes: Nodes, k: string)
    requires Rooted(nodes, k)
  {
    var init := LastInit(FieldsOf(nodes, k), KIND);
    init.None? || ValueOf(init.value) == KindValue(k)
  }

  ghost predicate Generated(reg: Registry, t: Tables) {
    Compiles(reg, t) && forall k :: Concrete(reg.nodes, k) ==> KindKept(reg.nodes, k)
  }

  function Default(typ: string): Value {
    if typ == "Node_Id" then NoNode else if typ == "Node_List" then List(NIL) else Unset
  }

  /** `new Node_Type` */
  function FreshRecord(t: Tables): Record {
    map f | f in t.types :: Default(t.types[f])
  }

  datatype Assignment = Assignment(field: string, v: Value)

  function InitAssignments(fs: seq<Field>): seq<Assignment> {
    if fs == [] then []
    else
      var f := fs[|fs| - 1];
      InitAssignments(fs[..|fs| - 1]) +
      if f.init.Some? then [Assignment(f.name, ValueOf(f.init.value))] else []
  }

  /** The statements of `Make_<k>` up to the table update. */
  function MakeBody(k: string, fs: seq<Field>, loc: int): seq<Assignment> {
    [Assignment(LOC, LocValue(loc)), Assignment(KIND, KindValue(k))] + InitAssignments(fs)
  }

  function Exec(body: seq<Assignment>, r: Record): Record {
    if body == [] then r
    else
      var a := body[|body| - 1];
      Exec(body[..|body| - 1], r)[a.field := a.v]
  }

  /** `pragma Assert (Node.Kind = K_.. or else ..)` for field `f`. */
  predicate KindAssertion(t: Tables, f: string, r: Record)
    requires f in t.kinds
  {
    KIND in r && exists i :: 0 <= i < |t.kinds[f]| && r[KIND] == KindValue(t.kinds[f][i])
  }

  /** The entry checks of an accessor of field `f` called on index `n`. */
  function Entry(t: Tables, table: seq<Record>, n: nat, f: string): (r: Reply)
    ensures r == Done ==> f in t.kinds && 0 < n <= |table|
  {
    if f !in t.kinds then NotGenerated
    else if !(0 < n <= |table|) then BadIndex
    else if KindAssertion(t, f, table[n - 1]) then Done else AssertionFailed
  }

  /** The record `Make_<k>` puts into the table. */
  ghost function MadeRecord(nodes: Nodes, t: Tables, k: string, loc: int): Record
    requires Rooted(nodes, k)
  {
    Exec(MakeBody(k, FieldsOf(nodes, k), loc), FreshRecord(t))
  }

  /** `Set_F (N, Append_Node (F (N), V))`, once both assertions have passed. */
  function AppendThrough(s: Store, i: nat, f: string, x: nat): (Store, Reply)
    requires i < |s.table|
  {
    var r := s.table[i];
    if f in r && r[f].List? && r[f].cell <= |s.heap| then
      var (heap, list) := Append(s.heap, r[f].cell, x);
      (Store(s.table[i := r[f := List(list)]], heap), Done)
    else (s, SymbolicList)
  }

  ghost function Step(reg: Registry, t: Tables, s: Store, op: Op): (Store, Reply)
    requires AllRooted(reg.nodes)
  {
    match op
    case Make(k, loc) =>
      if !Concrete(reg.nodes, k) then (s, NotGenerated)
      else (s.(table := s.table + [MadeRecord(reg.nodes, t, k, loc)]), Created(|s.table| + 1))
    case Get(n, f) =>
      var e := Entry(t, s.table, n, f);
      (s, if e == Done then (if f in s.table[n - 1] then Got(s.table[n - 1][f]) else NotGenerated) else e)
    case Set(n, f, v) =>
      if f !in t.types || !Holds(s.heap, t.types[f], v) then (s, NotGenerated)
      else
        var e := Entry(t, s.table, n, f);
        if e == Done then (s.(table := s.table[n - 1 := s.table[n - 1][f := v]]), Done) else (s, e)
    case AppendTo(n, f, x) =>
      if f !in t.types || t.types[f] != "Node_List" then (s, NotGenerated)
      else
        var e := Entry(t, s.table, n, f);
        if e == Done then AppendThrough(s, n - 1, f, x) else (s, e)
  }

  // ---------------------------------------------------------------- typed objects

  /** An object of a kind has the fields visible in that kind and no others. */
  datatype Object = Object(kind: string, fields: map<string, Value>)

  /** The last initialiser met on the way from Root down to the kind. */
  function LastInit(fs: seq<Field>, f: string): Option<string> {
    if fs == [] then None
    else
      var g := fs[|fs| - 1];
      if g.name == f && g.init.Some? then g.init else LastInit(fs[..|fs| - 1], f)
  }

  function InitialValue(t: Tables, k: string, fs: seq<Field>, loc: int, f: string): Value
    requires f in t.types
  {
    var init := LastInit(fs, f);
    if init.Some? then ValueOf(init.value)
    else if f == KIND then KindValue(k)
    else if f == LOC then LocValue(loc)
    else Default(t.types[f])
  }

  ghost function NewObject(nodes: Nodes, t: Tables, k: string, loc: int): Object
    requires Rooted(nodes, k)
  {
    Object(k, map f | f in t.types && Sees(nodes, k, f) :: InitialValue(t, k, FieldsOf(nodes, k), loc, f))
  }

  datatype TypedStore = TypedStore(objs: seq<Object>, heap: Heap)

  function Update(s: TypedStore, i: nat, f: string, v: Value): TypedStore
    requires i < |s.objs|
  {
    s.(objs := s.objs[i := s.objs[i].(fields := s.objs[i].fields[f := v])])
  }

  /** The typed objects refuse a field exactly when they do not have it. */
  function TypedEntry(t: Tables, objs: seq<Object>, n: nat, f: string): (r: Reply)
    ensures r == Done ==> f in t.types && 0 < n <= |objs| && f in objs[n - 1].fields
  {
    if f !in t.types then NotGenerated
    else if !(0 < n <= |objs|) then BadIndex
    else if f in objs[n - 1].fields then Done else AssertionFailed
  }

  ghost function TypedStep(reg: Registry, t: Tables, s: TypedStore, op: Op): (TypedStore, Reply)
    requires AllRooted(reg.nodes)
  {
    match op
    case Make(k, loc) =>
      if !Concrete(reg.nodes, k) then (s, NotGenerated)
      else (s.(objs := s.objs + [NewObject(reg.nodes, t, k, loc)]), Created(|s.objs| + 1))
    case Get(n, f) =>
      var e := TypedEntry(t, s.objs, n, f);
      (s, if e == Done then Got(s.objs[n - 1].fields[f]) else e)
    case Set(n, f, v) =>
      if f !in t.types || !Holds(s.heap, t.types[f], v) then (s, NotGenerated)
      else
        var e := TypedEntry(t, s.objs, n, f);
        if e == Done then (Update(s, n - 1, f, v), Done) else (s, e)
    case AppendTo(n, f, x) =>
      if f !in t.types || t.types[f] != "Node_List" then (s, NotGenerated)
      else
        var e := TypedEntry(t, s.objs, n, f);
        if e != Done then (s, e)
        else
          var v := s.objs[n - 1].fields[f];
          if v.List? && v.cell <= |s.heap| then
            var (heap, list) := Append(s.heap, v.cell, x);
            (Update(s, n - 1, f, List(list)).(heap := heap), Done)
          else (s, SymbolicList)
  }

  /** The flat record carries the object: same kind, same value in every field the object has. */
  ghost predicate Carries(nodes: Nodes, t: Tables, r: Record, o: Object) {
    && Concrete(nodes, o.kind) && Rooted(nodes, o.kind)
    && r.Keys == t.types.Keys
    && KIND in r && r[KIND] == KindValue(o.kind)
    && (forall f :: f in o.fields <==> f in t.types && Sees(nodes, o.kind, f))
    && (forall f :: f in o.fields ==> r[f] == o.fields[f])
  }

  /** Same cells, and record by record the same objects. */
  ghost predicate Refines(nodes: Nodes, t: Tables, s: Store, o: TypedStore) {
    && s.heap == o.heap && |s.table| == |o.objs|
    && forall i :: 0 <= i < |s.table| ==> Carries(nodes, t, s.table[i], o.objs[i])
  }

  predicate LeavesKindAlone(op: Op) {
    match op
    case Set(_, f, _) => f != KIND
    case AppendTo(_, f, _) => f != KIND
    case _ => true
  }

  // ---------------------------------------------------------------- construction

  lemma {:induction false} ExecInits(k: string, fs: seq<Field>, loc: int, r: Record, f: string)
    requires f in r && LOC in r && KIND in r && forall i :: 0 <= i < |fs| ==> fs[i].name in r
    ensures Exec(MakeBody(k, fs, loc), r).Keys == r.Keys
    ensures Exec(MakeBody(k, fs, loc), r)[f] ==
      var init := LastInit(fs, f);
      if init.Some? then ValueOf(init.value)
      else if f == KIND then KindValue(k)
      else if f == LOC then LocValue(loc)
      else r[f]
  {
    var body := MakeBody(k, fs, loc);
    if fs == [] {
      assert body[..1] == [Assignment(LOC, LocValue(loc))];
      assert body[..1][..0] == [];
      assert Exec(body[..1], r) == r[LOC := LocValue(loc)];
    } else {
      var init := fs[..|fs| - 1];
      ExecInits(k, init, loc, r, f);
      if fs[|fs| - 1].init.Some? {
        assert body[..|body| - 1] == MakeBody(k, init, loc);
      } else {
        assert body == MakeBody(k, init, loc);
      }
    }
  }

  lemma {:induction false} ReachesRoot(reg: Registry, k: string)
    requires Readable(reg) && Rooted(reg.nodes, k)
    ensures Reaches(reg.nodes, k, ROOT)
    decreases Depth(reg.nodes, k, {})
  {
    if reg.nodes[k].parent.None? {
      assert Ancestor(reg.nodes, k, 0) == Some(ROOT);
    } else {
      var p := reg.nodes[k].parent.value;
      StepUp(reg.nodes, k);
      ReachesRoot(reg, p);
      var n: nat :| Ancestor(reg.nodes, p, n) == Some(ROOT);
      assert Ancestor(reg.nodes, k, n + 1) == Some(ROOT);
    }
  }

  /** Fields of Root are visible everywhere. */
  lemma SeesRootField(reg: Registry, k: string, i: int)
    requires Readable(reg) && Rooted(reg.nodes, k)
    requires ROOT in reg.nodes && 0 <= i < |reg.nodes[ROOT].fields|
    ensures Sees(reg.nodes, k, reg.nodes[ROOT].fields[i].name)
  {
    var f := reg.nodes[ROOT].fields[i];
    ReachesRoot(reg, k);
    VisibleIffDeclaredAbove(reg.nodes, k, f);
    var j :| 0 <= j < |FieldsOf(reg.nodes, k)| && FieldsOf(reg.nodes, k)[j] == f;
  }

  /** What a kind sees is in the tables. */
  lemma SeenIsTabulated(reg: Registry, t: Tables, k: string, f: string)
    requires AllRooted(reg.nodes) && Tabulates(t, AllUses(reg.nodes)) && Concrete(reg.nodes, k)
    ensures Sees(reg.nodes, k, f) <==> f in t.kinds && k in t.kinds[f]
  {
    KindListExact(reg.nodes, f, k);
  }

  lemma {:induction false} NoLastInit(fs: seq<Field>, f: string)
    requires forall i :: 0 <= i < |fs| && fs[i].name == f ==> fs[i].init.None?
    ensures LastInit(fs, f).None?
  {
    if fs != [] {
      NoLastInit(fs[..|fs| - 1], f);
    }
  }

  /** The fields of the fresh record include every field `Make_<k>` assigns. */
  lemma MakeAssignsFields(reg: Registry, t: Tables, k: string)
    requires Compiles(reg, t) && Concrete(reg.nodes, k)
    ensures var r := FreshRecord(t);
      && KIND in r && LOC in r
      && (forall i :: 0 <= i < |FieldsOf(reg.nodes, k)| ==> FieldsOf(reg.nodes, k)[i].name in r)
      && Sees(reg.nodes, k, KIND)
  {
    var nodes, fs := reg.nodes, FieldsOf(reg.nodes, k);
    var i :| 0 <= i < |nodes[ROOT].fields| && nodes[ROOT].fields[i].name == KIND;
    SeesRootField(reg, k, i);
    SeenIsTabulated(reg, t, k, KIND);
    var j :| 0 <= j < |nodes[ROOT].fields| && nodes[ROOT].fields[j].name == LOC;
    SeesRootField(reg, k, j);
    SeenIsTabulated(reg, t, k, LOC);
    forall i | 0 <= i < |fs| ensures fs[i].name in FreshRecord(t) {
      assert Sees(nodes, k, fs[i].name);
      SeenIsTabulated(reg, t, k, fs[i].name);
    }
  }

  /** Each field of the record built by `Make_<k>` holds its last initialiser, the
      argument, the kind, or the default of its type. */
  lemma MakeFills(reg: Registry, t: Tables, k: string, loc: int, f: string)
    requires Compiles(reg, t) && Concrete(reg.nodes, k) && f in t.types
    ensures var r := MadeRecord(reg.nodes, t, k, loc);
      r.Keys == t.types.Keys && r[f] == InitialValue(t, k, FieldsOf(reg.nodes, k), loc, f)
  {
    MakeAssignsFields(reg, t, k);
    ExecInits(k, FieldsOf(reg.nodes, k), loc, FreshRecord(t), f);
  }

  /** `Make_<k>` builds a record of kind `k` exactly when no initialiser says otherwise. */
  lemma MakeKindIff(reg: Registry, t: Tables, k: string, loc: int)
    requires Compiles(reg, t) && Concrete(reg.nodes, k)
    ensures var r := MadeRecord(reg.nodes, t, k, loc);
      && r.Keys == t.types.Keys && KIND in r
      && (r[KIND] == KindValue(k) <==> KindKept(reg.nodes, k))
  {
    MakeAssignsFields(reg, t, k);
    MakeFills(reg, t, k, loc, KIND);
  }

  /** The record built by `Make_<k>` carries the typed object of kind `k`. */
  lemma MakeCarries(reg: Registry, t: Tables, k: string, loc: int)
    requires Compiles(reg, t) && Concrete(reg.nodes, k) && KindKept(reg.nodes, k)
    ensures Carries(reg.nodes, t, MadeRecord(reg.nodes, t, k, loc), NewObject(reg.nodes, t, k, loc))
  {
    MakeKindIff(reg, t, k, loc);
    var o, r := NewObject(reg.nodes, t, k, loc), MadeRecord(reg.nodes, t, k, loc);
    forall f | f in o.fields ensures r[f] == o.fields[f] {
      MakeFills(reg, t, k, loc, f);
    }
  }

  // ---------------------------------------------------------------- refinement

  /** The kind assertion admits exactly the kinds that see the field. */
  lemma AssertionExact(reg: Registry, t: Tables, r: Record, o: Object, f: string)
    requires Generated(reg, t) && f in t.kinds && Carries(reg.nodes, t, r, o)
    ensures KindAssertion(t, f, r) <==> Sees(reg.nodes, o.kind, f)
  {
    SeenIsTabulated(reg, t, o.kind, f);
  }

  lemma MakeRefines(reg: Registry, t: Tables, s: Store, o: TypedStore, k: string, loc: int)
    requires Generated(reg, t) && Refines(reg.nodes, t, s, o) && Concrete(reg.nodes, k)
    ensures Refines(reg.nodes, t, Step(reg, t, s, Make(k, loc)).0, TypedStep(reg, t, o, Make(k, loc)).0)
  {
    MakeCarries(reg, t, k, loc);
  }

  lemma UpdateRefines(nodes: Nodes, t: Tables, s: Store, o: TypedStore, i: nat, f: string, v: Value, heap: Heap)
    requires Refines(nodes, t, s, o) && i < |s.table| && f in o.objs[i].fields && f != KIND
    ensures Refines(nodes, t, Store(s.table[i := s.table[i][f := v]], heap), Update(o, i, f, v).(heap := heap))
  {
    var r, obj := s.table[i], o.objs[i];
    assert Carries(nodes, t, r, obj);
    assert Carries(nodes, t, r[f := v], obj.(fields := obj.fields[f := v]));
  }

  /** The entry checks answer as the typed store does. */
  ghost predicate EntryAgrees(t: Tables, s: Store, o: TypedStore, n: nat, f: string)
    requires |s.table| == |o.objs|
  {
    && Entry(t, s.table, n, f) == TypedEntry(t, o.objs, n, f)
    && (Entry(t, s.table, n, f) == Done ==> f in s.table[n - 1] && s.table[n - 1][f] == o.objs[n - 1].fields[f])
  }

  lemma EntryRefines(reg: Registry, t: Tables, s: Store, o: TypedStore, n: nat, f: string)
    requires Generated(reg, t) && Refines(reg.nodes, t, s, o)
    ensures EntryAgrees(t, s, o, n, f)
  {
    if f in t.kinds && 0 < n <= |s.table| {
      assert Carries(reg.nodes, t, s.table[n - 1], o.objs[n - 1]);
      AssertionExact(reg, t, s.table[n - 1], o.objs[n - 1], f);
    }
  }

  lemma SetRefines(reg: Registry, t: Tables, s: Store, o: TypedStore, op: Op)
    requires AllRooted(reg.nodes) && Refines(reg.nodes, t, s, o) && LeavesKindAlone(op)
    requires op.Set? && EntryAgrees(t, s, o, op.n, op.field)
    ensures Step(reg, t, s, op).1 == TypedStep(reg, t, o, op).1
    ensures Refines(reg.nodes, t, Step(reg, t, s, op).0, TypedStep(reg, t, o, op).0)
  {
    if Entry(t, s.table, op.n, op.field) == Done {
      UpdateRefines(reg.nodes, t, s, o, op.n - 1, op.field, op.v, s.heap);
    }
  }

  lemma AppendRefines(reg: Registry, t: Tables, s: Store, o: TypedStore, op: Op)
    requires AllRooted(reg.nodes) && Refines(reg.nodes, t, s, o) && LeavesKindAlone(op)
    requires op.AppendTo? && EntryAgrees(t, s, o, op.n, op.field)
    ensures Step(reg, t, s, op).1 == TypedStep(reg, t, o, op).1
    ensures Refines(reg.nodes, t, Step(reg, t, s, op).0, TypedStep(reg, t, o, op).0)
  {
    var n, f := op.n, op.field;
    if Entry(t, s.table, n, f) == Done {
      var v := s.table[n - 1][f];
      if v.List? && v.cell <= |s.heap| {
        var (heap, list) := Append(s.heap, v.cell, op.node);
        UpdateRefines(reg.nodes, t, s, o, n - 1, f, List(list), heap);
      }
    }
  }

  lemma StepRefines(reg: Registry, t: Tables, s: Store, o: TypedStore, op: Op)
    requires Generated(reg, t) && Refines(reg.nodes, t, s, o) && LeavesKindAlone(op)
    ensures Step(reg, t, s, op).1 == TypedStep(reg, t, o, op).1
    ensures Refines(reg.nodes, t, Step(reg, t, s, op).0, TypedStep(reg, t, o, op).0)
  {
    if !op.Make? {
      EntryRefines(reg, t, s, o, op.n, op.field);
      if op.Set? {
        SetRefines(reg, t, s, o, op);
      } else if op.AppendTo? {
        AppendRefines(reg, t, s, o, op);
      }
    } else if Concrete(reg.nodes, op.kind) {
      MakeRefines(reg, t, s, o, op.kind, op.loc);
    }
  }

  ghost function Run(reg: Registry, t: Tables, ops: seq<Op>): (r: (Store, seq<Reply>))
    requires AllRooted(reg.nodes)
    ensures |r.1| == |ops|
  {
    if ops == [] then (EMPTYSTORE, [])
    else
      var (s, replies) := Run(reg, t, ops[..|ops| - 1]);
      var (s', reply) := Step(reg, t, s, ops[|ops| - 1]);
      (s', replies + [reply])
  }

  ghost function TypedRun(reg: Registry, t: Tables, ops: seq<Op>): (TypedStore, seq<Reply>)
    requires AllRooted(reg.nodes)
  {
    if ops == [] then (TypedStore([], []), [])
    else
      var (o, replies) := TypedRun(reg, t, ops[..|ops| - 1]);
      var (o', reply) := TypedStep(reg, t, o, ops[|ops| - 1]);
      (o', replies + [reply])
  }

  ghost predicate AllLeaveKindAlone(ops: seq<Op>) {
    forall i :: 0 <= i < |ops| ==> LeavesKindAlone(ops[i])
  }

  /** No sequence of calls that leaves Kind alone can tell the flat records with
      their kind assertions from per-kind typed objects. */
  lemma {:induction false} FlatRefinesTyped(reg: Registry, t: Tables, ops: seq<Op>)
    requires Generated(reg, t) && AllLeaveKindAlone(ops)
    ensures Run(reg, t, ops).1 == TypedRun(reg, t, ops).1
    ensures Refines(reg.nodes, t, Run(reg, t, ops).0, TypedRun(reg, t, ops).0)
  {
    if ops != [] {
      var init := ops[..|ops| - 1];
      FlatRefinesTyped(reg, t, init);
      StepRefines(reg, t, Run(reg, t, init).0, TypedRun(reg, t, init).0, ops[|ops| - 1]);
    }
  }

  lemma {:induction false} TypedKindsAreStable(reg: Registry, t: Tables, ops: seq<Op>, more: seq<Op>)
    requires AllRooted(reg.nodes)
    ensures var before := TypedRun(reg, t, ops).0.objs; var after := TypedRun(reg, t, ops + more).0.objs;
      |before| <= |after| && forall i :: 0 <= i < |before| ==> after[i].kind == before[i].kind
  {
    if more == [] {
      assert ops + more == ops;
    } else {
      TypedKindsAreStable(reg, t, ops, more[..|more| - 1]);
      assert (ops + more)[..|ops + more| - 1] == ops + more[..|more| - 1];
    }
  }

  /** Later calls never remove a record, and its Kind component stays what it was: one
      of the concrete kinds. */
  lemma KindsAreStable(reg: Registry, t: Tables, ops: seq<Op>, more: seq<Op>, i: nat)
    requires Generated(reg, t) && AllLeaveKindAlone(ops) && AllLeaveKindAlone(more)
    requires i < |Run(reg, t, ops).0.table|
    ensures var before := Run(reg, t, ops).0.table; var after := Run(reg, t, ops + more).0.table;
      && |before| <= |after|
      && KIND in before[i] && KIND in after[i] && after[i][KIND] == before[i][KIND]
      && before[i][KIND].KindValue? && Concrete(reg.nodes, before[i][KIND].kind)
  {
    FlatRefinesTyped(reg, t, ops);
    FlatRefinesTyped(reg, t, ops + more);
    TypedKindsAreStable(reg, t, ops, more);
    var before, after := TypedRun(reg, t, ops).0.objs, TypedRun(reg, t, ops + more).0.objs;
    assert Carries(reg.nodes, t, Run(reg, t, ops).0.table[i], before[i]);
    assert Carries(reg.nodes, t, Run(reg, t, ops + more).0.table[i], after[i]);
  }

  /** The call `Is_<x> (N)` returns True: the Kind getter replies and the disjunction holds. */
  ghost predicate IsAnswersTrue(reg: Registry, t: Tables, s: Store, x: string, n: nat)
    requires AllRooted(reg.nodes)
  {
    var reply := Step(reg, t, s, Get(n, KIND)).1;
    reply.Got? && reply.v.KindValue? && Returns(IsFunctions(reg), x, reply.v.kind, true)
  }

  /** Subtype soundness: after any such run, if the generated `Is_X` returns True on
      node `n`, then every getter and setter of a field visible in X succeeds on `n`. */
  lemma SubtypeSoundness(reg: Registry, t: Tables, ops: seq<Op>, n: nat, x: string, f: string, v: Value)
    requires Generated(reg, t) && EdgesClimb(reg) && AllLeaveKindAlone(ops)
    requires Concrete(reg.nodes, x) && Sees(reg.nodes, x, f)
    requires IsAnswersTrue(reg, t, Run(reg, t, ops).0, x, n)
    ensures Step(reg, t, Run(reg, t, ops).0, Get(n, f)).1.Got?
    ensures f in t.types
    ensures Holds(Run(reg, t, ops).0.heap, t.types[f], v) ==> Step(reg, t, Run(reg, t, ops).0, Set(n, f, v)).1 == Done
  {
    var s, o := Run(reg, t, ops).0, TypedRun(reg, t, ops).0;
    FlatRefinesTyped(reg, t, ops);
    assert Carries(reg.nodes, t, s.table[n - 1], o.objs[n - 1]);
    TestImpliesSees(reg, x, o.objs[n - 1].kind, f);
    EntrySucceeds(reg, t, s, o, n, f);
    AccessSucceeds(reg, t, s, n, f, v);
  }

  lemma EntrySucceeds(reg: Registry, t: Tables, s: Store, o: TypedStore, n: nat, f: string)
    requires Generated(reg, t) && Refines(reg.nodes, t, s, o)
    requires 0 < n <= |o.objs| && Rooted(reg.nodes, o.objs[n - 1].kind) && Sees(reg.nodes, o.objs[n - 1].kind, f)
    ensures Entry(t, s.table, n, f) == Done && f in s.table[n - 1] && f in t.types
  {
    assert Carries(reg.nodes, t, s.table[n - 1], o.objs[n - 1]);
    SeenIsTabulated(reg, t, o.objs[n - 1].kind, f);
    EntryRefines(reg, t, s, o, n, f);
  }

  lemma AccessSucceeds(reg: Registry, t: Tables, s: Store, n: nat, f: string, v: Value)
    requires AllRooted(reg.nodes) && Entry(t, s.table, n, f) == Done && f in s.table[n - 1] && f in t.types
    ensures Step(reg, t, s, Get(n, f)).1.Got?
    ensures Holds(s.heap, t.types[f], v) ==> Step(reg, t, s, Set(n, f, v)).1 == Done
  {
  }

  /** A kind on which `Is_X` returns True sees whatever X sees. */
  lemma TestImpliesSees(reg: Registry, x: string, k: string, f: string)
    requires Readable(reg) && AllRooted(reg.nodes) && EdgesClimb(reg)
    requires Concrete(reg.nodes, x) && Sees(reg.nodes, x, f) && Concrete(reg.nodes, k)
    requires Returns(IsFunctions(reg), x, k, true)
    ensures Sees(reg.nodes, k, f)
  {
    IsExact(reg, x, k, |reg.nodes| + 1);
    assert Returns(IsFunctions(reg), x, k, Reaches(reg.nodes, k, x));
    ReturnsUnique(IsFunctions(reg), x, k);
    InheritedPrefix(reg.nodes, k, x);
    var i :| 0 <= i < |FieldsOf(reg.nodes, x)| && FieldsOf(reg.nodes, x)[i].name == f;
    assert FieldsOf(reg.nodes, k)[i].name == f;
  }
}
