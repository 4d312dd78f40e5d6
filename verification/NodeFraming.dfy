/** What a call of the generated package leaves alone. Setters touch one field of one
    node; `Append_Node_To_` also lengthens every list that ends in the same cell. */
module NodeFraming {
  import opened Text
  import opened SchemaReader
  import opened Inheritance
  import opened FieldTables
  import opened ClassTests
  import opened NodeLists
  import opened NodeStore

  /** The list in field `f` of node `n`. */
  function ListAt(s: Store, n: nat, f: string): (p: Option<nat>)
    ensures p.Some? ==> p.value <= |s.heap|
  {
    if 0 < n <= |s.table| && f in s.table[n - 1] && s.table[n - 1][f].List? && s.table[n - 1][f].cell <= |s.heap|
    then Some(s.table[n - 1][f].cell) else None
  }

  /** The list the getter of `f` returns on node `n`. */
  ghost function GotList(reg: Registry, t: Tables, s: Store, n: nat, f: string): (p: Option<nat>)
    requires AllRooted(reg.nodes)
    ensures p.Some? ==> p == ListAt(s, n, f)
  {
    if Step(reg, t, s, Get(n, f)).1.Got? then ListAt(s, n, f) else None
  }

  /** The nodes a caller finds in the list that the getter returns. */
  ghost function ReadList(reg: Registry, t: Tables, s: Store, n: nat, f: string): Option<seq<nat>>
    requires AllRooted(reg.nodes)
  {
    var p := GotList(reg, t, s, n, f);
    if p.Some? then Some(Contents(s.heap, p.value)) else None
  }

  /** The getters of `f` on `n` and of `g` on `m` return lists that end in the same cell. */
  ghost predicate Shares(reg: Registry, t: Tables, s: Store, n: nat, f: string, m: nat, g: string)
    requires AllRooted(reg.nodes)
  {
    var p, q := GotList(reg, t, s, n, f), GotList(reg, t, s, m, g);
    p.Some? && q.Some? && SameEnd(s.heap, p.value, q.value)
  }

  // ---------------------------------------------------------------- one call

  /** Assigning to a component other than Kind changes the answer of no other getter. */
  lemma GetAfterUpdate(reg: Registry, t: Tables, s: Store, heap: Heap, n: nat, f: string, v: Value, m: nat, g: string)
    requires AllRooted(reg.nodes) && f != KIND && Entry(t, s.table, n, f) == Done
    ensures var s' := Store(s.table[n - 1 := s.table[n - 1][f := v]], heap);
      Step(reg, t, s', Get(m, g)).1 == if m == n && g == f then Got(v) else Step(reg, t, s, Get(m, g)).1
  {
    var table' := s.table[n - 1 := s.table[n - 1][f := v]];
    if g in t.kinds && 0 < m <= |s.table| {
      assert KindAssertion(t, g, table'[m - 1]) == KindAssertion(t, g, s.table[m - 1]);
    }
  }

  /** A getter returns what the matching setter stored; every other field of every node
      and the nodes in every list are untouched. */
  lemma GetAfterSet(reg: Registry, t: Tables, s: Store, n: nat, f: string, v: Value, m: nat, g: string)
    requires AllRooted(reg.nodes) && f != KIND
    requires Step(reg, t, s, Set(n, f, v)).1 == Done
    ensures var s' := Step(reg, t, s, Set(n, f, v)).0;
      && Step(reg, t, s', Get(m, g)).1 == (if m == n && g == f then Got(v) else Step(reg, t, s, Get(m, g)).1)
      && (!(m == n && g == f) ==> ReadList(reg, t, s', m, g) == ReadList(reg, t, s, m, g))
  {
    GetAfterUpdate(reg, t, s, s.heap, n, f, v, m, g);
  }

  lemma AppendDone(reg: Registry, t: Tables, s: Store, n: nat, f: string, x: nat)
    requires AllRooted(reg.nodes) && Step(reg, t, s, AppendTo(n, f, x)).1 == Done
    ensures Entry(t, s.table, n, f) == Done && GotList(reg, t, s, n, f).Some?
    ensures var (heap, list) := Append(s.heap, GotList(reg, t, s, n, f).value, x);
      Step(reg, t, s, AppendTo(n, f, x)).0 == Store(s.table[n - 1 := s.table[n - 1][f := List(list)]], heap)
  {
  }

  /** After a successful append every getter still returns the same, but for the field
      appended to, whose getter returns the list `Append_Node` returned. */
  lemma GetAfterAppend(reg: Registry, t: Tables, s: Store, n: nat, f: string, x: nat, m: nat, g: string)
    requires AllRooted(reg.nodes) && f != KIND
    requires Step(reg, t, s, AppendTo(n, f, x)).1 == Done
    ensures GotList(reg, t, s, n, f).Some?
    ensures var s' := Step(reg, t, s, AppendTo(n, f, x)).0; var (heap, list) := Append(s.heap, GotList(reg, t, s, n, f).value, x);
      && s'.heap == heap
      && (!(m == n && g == f) ==> Step(reg, t, s', Get(m, g)).1 == Step(reg, t, s, Get(m, g)).1)
      && (!(m == n && g == f) && GotList(reg, t, s, m, g).Some? ==> GotList(reg, t, s', m, g) == GotList(reg, t, s, m, g))
      && GotList(reg, t, s', n, f) == Some(list)
  {
    AppendDone(reg, t, s, n, f, x);
    var (heap, list) := Append(s.heap, GotList(reg, t, s, n, f).value, x);
    GetAfterUpdate(reg, t, s, heap, n, f, List(list), m, g);
    GetAfterUpdate(reg, t, s, heap, n, f, List(list), n, f);
    assert list <= |heap|;
  }

  /** After a successful append, its own list and every list that ends in the same cell
      have the node at their end, and every other list is what it was. */
  lemma ReadAfterAppend(reg: Registry, t: Tables, s: Store, n: nat, f: string, x: nat, m: nat, g: string)
    requires AllRooted(reg.nodes) && f != KIND
    requires Step(reg, t, s, AppendTo(n, f, x)).1 == Done && GotList(reg, t, s, m, g).Some?
    ensures var s' := Step(reg, t, s, AppendTo(n, f, x)).0;
      && GotList(reg, t, s', m, g).Some?
      && ReadList(reg, t, s', m, g).value == ReadList(reg, t, s, m, g).value +
         (if (m == n && g == f) || Shares(reg, t, s, n, f, m, g) then [x] else [])
  {
    GetAfterAppend(reg, t, s, n, f, x, m, g);
    AppendExact(s.heap, GotList(reg, t, s, n, f).value, x, GotList(reg, t, s, m, g).value);
  }

  /** Exactly when an append through one field shows in another: the lists end in the
      same cell. */
  lemma AppendShowsIff(reg: Registry, t: Tables, s: Store, n: nat, f: string, x: nat, m: nat, g: string)
    requires AllRooted(reg.nodes) && f != KIND && !(m == n && g == f)
    requires Step(reg, t, s, AppendTo(n, f, x)).1 == Done && GotList(reg, t, s, m, g).Some?
    ensures ReadList(reg, t, Step(reg, t, s, AppendTo(n, f, x)).0, m, g) != ReadList(reg, t, s, m, g)
       <==> Shares(reg, t, s, n, f, m, g)
  {
    ReadAfterAppend(reg, t, s, n, f, x, m, g);
    var before, after := ReadList(reg, t, s, m, g), ReadList(reg, t, Step(reg, t, s, AppendTo(n, f, x)).0, m, g);
    assert before.Some? && after.Some?;
    assert |before.value + [x]| == |before.value| + 1;
    assert before.value + [] == before.value;
  }

  // ---------------------------------------------------------------- runs that copy no list

  /** The call stores no list but the empty one. */
  predicate CopiesNoList(op: Op) {
    op.Set? && op.v.List? ==> op.v.cell == NIL
  }

  /** Lists designate cells. */
  ghost predicate InRange(s: Store) {
    forall i, f :: 0 <= i < |s.table| && f in s.table[i] && s.table[i][f].List? ==> s.table[i][f].cell <= |s.heap|
  }

  /** No two fields hold lists with the same end. */
  ghost predicate Separate(s: Store) {
    && InRange(s)
    && (forall n, f, m, g :: ListAt(s, n, f).Some? && ListAt(s, m, g).Some? && !(n == m && f == g) ==>
          !SameEnd(s.heap, ListAt(s, n, f).value, ListAt(s, m, g).value))
  }

  /** What has been appended to field `f` of node `n` since the node was made or the field set. */
  function AppendedSince(ops: seq<Op>, replies: seq<Reply>, n: nat, f: string): seq<nat>
    requires |ops| == |replies|
  {
    if ops == [] then []
    else
      var op, reply := ops[|ops| - 1], replies[|replies| - 1];
      var before := AppendedSince(ops[..|ops| - 1], replies[..|replies| - 1], n, f);
      Continued(op, reply, n, f, before)
  }

  function Continued(op: Op, reply: Reply, n: nat, f: string, before: seq<nat>): seq<nat> {
    match op
    case Make(_, _) => if reply == Created(n) then [] else before
    case Set(m, g, _) => if reply == Done && m == n && g == f then [] else before
    case AppendTo(m, g, x) => if reply == Done && m == n && g == f then before + [x] else before
    case Get(_, _) => before
  }

  lemma InitialListsAreEmpty(t: Tables, k: string, fs: seq<Field>, loc: int, f: string)
    requires f in t.types
    ensures InitialValue(t, k, fs, loc, f).List? ==> InitialValue(t, k, fs, loc, f).cell == NIL
  {
  }

  /** A new record holds no list but empty ones. */
  lemma MadeListsAreEmpty(reg: Registry, t: Tables, k: string, loc: int, f: string)
    requires Compiles(reg, t) && Concrete(reg.nodes, k) && f in MadeRecord(reg.nodes, t, k, loc)
    ensures MadeRecord(reg.nodes, t, k, loc)[f].List? ==> MadeRecord(reg.nodes, t, k, loc)[f].cell == NIL
  {
    assert f in t.types by {
      MakeKindIff(reg, t, k, loc);
    }
    MakeFills(reg, t, k, loc, f);
    InitialListsAreEmpty(t, k, FieldsOf(reg.nodes, k), loc, f);
  }

  lemma AddRecordKeeps(s: Store, r: Record)
    requires Separate(s) && forall f :: f in r && r[f].List? ==> r[f].cell == NIL
    ensures var s' := s.(table := s.table + [r]);
      && Separate(s')
      && (forall n, f :: n != |s.table| + 1 ==> ListAt(s', n, f) == ListAt(s, n, f))
      && (forall n, f :: n == |s.table| + 1 && ListAt(s', n, f).Some? ==> ListAt(s', n, f).value == NIL)
  {
    var s' := s.(table := s.table + [r]);
    forall n: nat, f | n != |s.table| + 1 ensures ListAt(s', n, f) == ListAt(s, n, f) {
      assert 0 < n <= |s.table| ==> s'.table[n - 1] == s.table[n - 1];
    }
    assert s'.table[|s.table|] == r;
    assert forall n, f :: n == |s.table| + 1 && ListAt(s', n, f).Some? ==> ListAt(s', n, f).value == NIL;
  }

  lemma SetFieldKeeps(s: Store, i: nat, f: string, v: Value)
    requires Separate(s) && i < |s.table| && (v.List? ==> v.cell == NIL)
    ensures var s' := s.(table := s.table[i := s.table[i][f := v]]);
      && Separate(s')
      && (forall n, g :: !(n == i + 1 && g == f) ==> ListAt(s', n, g) == ListAt(s, n, g))
      && (ListAt(s', i + 1, f).Some? ==> ListAt(s', i + 1, f).value == NIL)
  {
    var s' := s.(table := s.table[i := s.table[i][f := v]]);
    forall n: nat, g | !(n == i + 1 && g == f) ensures ListAt(s', n, g) == ListAt(s, n, g) {
      assert 0 < n <= |s.table| && n != i + 1 ==> s'.table[n - 1] == s.table[n - 1];
    }
    assert ListAt(s', i + 1, f).Some? ==> ListAt(s', i + 1, f).value == NIL;
  }

  lemma AppendMoves(s: Store, i: nat, f: string, x: nat)
    requires Separate(s) && ListAt(s, i + 1, f).Some?
    ensures var s' := AppendThrough(s, i, f, x).0;
      && (forall n, g :: !(n == i + 1 && g == f) ==> ListAt(s', n, g) == ListAt(s, n, g))
      && ListAt(s', i + 1, f) == Some(Append(s.heap, ListAt(s, i + 1, f).value, x).1)
  {
    AppendExact(s.heap, ListAt(s, i + 1, f).value, x, NIL);
  }

  /** An append leaves lists apart that were apart, and the nodes of all others alone. */
  lemma AppendKeeps(s: Store, i: nat, f: string, x: nat)
    requires Separate(s) && ListAt(s, i + 1, f).Some?
    ensures var s' := AppendThrough(s, i, f, x).0;
      && Separate(s')
      && (forall n, g :: ListAt(s', n, g).Some? ==>
            && ListAt(s, n, g).Some?
            && Contents(s'.heap, ListAt(s', n, g).value) ==
               Contents(s.heap, ListAt(s, n, g).value) + (if n == i + 1 && g == f then [x] else []))
  {
    var s', p := AppendThrough(s, i, f, x).0, ListAt(s, i + 1, f).value;
    AppendMoves(s, i, f, x);
    forall n, g | ListAt(s', n, g).Some?
      ensures ListAt(s, n, g).Some?
      ensures Contents(s'.heap, ListAt(s', n, g).value) ==
              Contents(s.heap, ListAt(s, n, g).value) + (if n == i + 1 && g == f then [x] else [])
      ensures ListAt(s', n, g).value != NIL ==>
        LastCell(s'.heap, ListAt(s', n, g).value) ==
        if n == i + 1 && g == f then |s.heap| + 1 else LastCell(s.heap, ListAt(s, n, g).value)
    {
      AppendExact(s.heap, p, x, ListAt(s, n, g).value);
    }
  }

  /** The list in a field holds `nodes`, if the field holds a list. */
  ghost predicate HoldsNodes(s: Store, n: nat, f: string, nodes: seq<nat>) {
    ListAt(s, n, f).Some? ==> Contents(s.heap, ListAt(s, n, f).value) == nodes
  }

  lemma MakeContinues(reg: Registry, t: Tables, s: Store, k: string, loc: int, n: nat, f: string, before: seq<nat>)
    requires Compiles(reg, t) && Separate(s) && Concrete(reg.nodes, k) && HoldsNodes(s, n, f, before)
    ensures var (s', reply) := Step(reg, t, s, Make(k, loc));
      Separate(s') && HoldsNodes(s', n, f, Continued(Make(k, loc), reply, n, f, before))
  {
    var r := MadeRecord(reg.nodes, t, k, loc);
    forall g | g in r ensures r[g].List? ==> r[g].cell == NIL {
      MadeListsAreEmpty(reg, t, k, loc, g);
    }
    AddRecordKeeps(s, r);
  }

  lemma SetContinues(reg: Registry, t: Tables, s: Store, op: Op, n: nat, f: string, before: seq<nat>)
    requires AllRooted(reg.nodes) && Separate(s) && op.Set? && CopiesNoList(op) && HoldsNodes(s, n, f, before)
    ensures var (s', reply) := Step(reg, t, s, op);
      Separate(s') && HoldsNodes(s', n, f, Continued(op, reply, n, f, before))
  {
    if Step(reg, t, s, op).1 == Done {
      SetFieldKeeps(s, op.n - 1, op.field, op.v);
    }
  }

  lemma AppendContinues(reg: Registry, t: Tables, s: Store, op: Op, n: nat, f: string, before: seq<nat>)
    requires AllRooted(reg.nodes) && Separate(s) && op.AppendTo? && HoldsNodes(s, n, f, before)
    ensures var (s', reply) := Step(reg, t, s, op);
      Separate(s') && HoldsNodes(s', n, f, Continued(op, reply, n, f, before))
  {
    if Step(reg, t, s, op).1 == Done {
      AppendKeeps(s, op.n - 1, op.field, op.node);
    }
  }

  /** One call in a run that copies no list. */
  lemma StepContinues(reg: Registry, t: Tables, s: Store, op: Op, n: nat, f: string, before: seq<nat>)
    requires Compiles(reg, t) && Separate(s) && CopiesNoList(op) && HoldsNodes(s, n, f, before)
    ensures var (s', reply) := Step(reg, t, s, op);
      Separate(s') && HoldsNodes(s', n, f, Continued(op, reply, n, f, before))
  {
    match op {
      case Make(k, loc) =>
        if Concrete(reg.nodes, k) {
          MakeContinues(reg, t, s, k, loc, n, f, before);
        }
      case Get(_, _) =>
      case Set(_, _, _) => SetContinues(reg, t, s, op, n, f, before);
      case AppendTo(_, _, _) => AppendContinues(reg, t, s, op, n, f, before);
    }
  }

  /** Over every run that copies no list between fields, whatever list a getter returns
      holds exactly the nodes appended through that field since the node was made or the
      field last set: appends to other fields and nodes never show. */
  lemma {:induction false} ListsHoldWhatWasAppended(reg: Registry, t: Tables, ops: seq<Op>, n: nat, f: string)
    requires Compiles(reg, t) && forall i :: 0 <= i < |ops| ==> CopiesNoList(ops[i])
    ensures Separate(Run(reg, t, ops).0)
    ensures var (s, replies) := Run(reg, t, ops); HoldsNodes(s, n, f, AppendedSince(ops, replies, n, f))
  {
    if ops != [] {
      var init := ops[..|ops| - 1];
      ListsHoldWhatWasAppended(reg, t, init, n, f);
      var (s, replies) := Run(reg, t, init);
      StepContinues(reg, t, s, ops[|ops| - 1], n, f, AppendedSince(init, replies, n, f));
      var after := Run(reg, t, ops).1;
      assert after[..|after| - 1] == replies;
    }
  }

  // ---------------------------------------------------------------- what a setter accepts

  lemma MakeKeepsInRange(reg: Registry, t: Tables, s: Store, k: string, loc: int)
    requires Compiles(reg, t) && InRange(s) && Concrete(reg.nodes, k)
    ensures InRange(Step(reg, t, s, Make(k, loc)).0)
  {
    var r := MadeRecord(reg.nodes, t, k, loc);
    forall f | f in r && r[f].List? ensures r[f].cell == NIL {
      MadeListsAreEmpty(reg, t, k, loc, f);
    }
  }

  lemma AppendKeepsInRange(s: Store, i: nat, f: string, x: nat)
    requires InRange(s) && i < |s.table|
    ensures InRange(AppendThrough(s, i, f, x).0)
  {
    var r := s.table[i];
    if f in r && r[f].List? && r[f].cell <= |s.heap| {
      AppendExact(s.heap, r[f].cell, x, NIL);
    }
  }

  lemma StepKeepsInRange(reg: Registry, t: Tables, s: Store, op: Op)
    requires Compiles(reg, t) && InRange(s)
    ensures InRange(Step(reg, t, s, op).0)
  {
    if op.Make? {
      if Concrete(reg.nodes, op.kind) {
        MakeKeepsInRange(reg, t, s, op.kind, op.loc);
      }
    } else if op.AppendTo? && Entry(t, s.table, op.n, op.field) == Done {
      AppendKeepsInRange(s, op.n - 1, op.field, op.node);
    }
  }

  lemma {:induction false} ListsInRange(reg: Registry, t: Tables, ops: seq<Op>)
    requires Compiles(reg, t)
    ensures InRange(Run(reg, t, ops).0)
  {
    if ops != [] {
      ListsInRange(reg, t, ops[..|ops| - 1]);
      StepKeepsInRange(reg, t, Run(reg, t, ops[..|ops| - 1]).0, ops[|ops| - 1]);
    }
  }

  /** After any run, where the getter replies the setter takes any value of the field's
      type: the empty list and every list that some getter returns for a list field,
      everything but lists for another. */
  lemma SetterAccepts(reg: Registry, t: Tables, ops: seq<Op>, n: nat, f: string, v: Value, m: nat, g: string)
    requires Compiles(reg, t) && Step(reg, t, Run(reg, t, ops).0, Get(n, f)).1.Got?
    ensures var s := Run(reg, t, ops).0; var reply := Step(reg, t, s, Set(n, f, v)).1;
      && f in t.types
      && (t.types[f] == "Node_List" && v == List(0) ==> reply == Done)
      && (t.types[f] == "Node_List" && v.List? && Step(reg, t, s, Get(m, g)).1 == Got(v) ==> reply == Done)
      && (t.types[f] != "Node_List" ==> (reply == Done <==> !v.List?))
  {
    ListsInRange(reg, t, ops);
    SetterTakes(reg, t, Run(reg, t, ops).0, n, f, v, m, g);
  }

  lemma SetterTakes(reg: Registry, t: Tables, s: Store, n: nat, f: string, v: Value, m: nat, g: string)
    requires AllRooted(reg.nodes) && t.types.Keys == t.kinds.Keys && InRange(s) && Step(reg, t, s, Get(n, f)).1.Got?
    ensures var reply := Step(reg, t, s, Set(n, f, v)).1;
      && f in t.types
      && (t.types[f] == "Node_List" && v == List(0) ==> reply == Done)
      && (t.types[f] == "Node_List" && v.List? && Step(reg, t, s, Get(m, g)).1 == Got(v) ==> reply == Done)
      && (t.types[f] != "Node_List" ==> (reply == Done <==> !v.List?))
  {
    assert f in t.kinds;
  }
}
