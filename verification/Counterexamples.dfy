/** Descriptions that make_nodes.py accepts and whose packages surprise their callers. */
module Counterexamples {
  import opened Text
  import opened SchemaReader
  import opened SchemaRoundTrip
  import opened Inheritance
  import opened FieldTables
  import opened ClassTests
  import opened DeclarationOrder
  import opened NodeStore
  import opened NodeFraming
  import NodeLists
  import SortedNames

  // ---------------------------------------------------------------- kinds directly below Root

  predicate Flat(nodes: Nodes) {
    && ROOT in nodes && nodes[ROOT].parent.None?
    && forall k :: k in nodes && k != ROOT ==> nodes[k].parent == Some(ROOT)
  }

  lemma FlatFields(nodes: Nodes, k: string)
    requires Flat(nodes) && Concrete(nodes, k)
    ensures Rooted(nodes, k) && FieldsOf(nodes, k) == nodes[ROOT].fields + nodes[k].fields
  {
    assert GetFields(nodes, ROOT, {} + {k}) == Ok(nodes[ROOT].fields);
  }

  /** Every declared field has the type that `types` gives its name. */
  predicate Typed(nodes: Nodes, types: map<string, string>) {
    forall k, i :: k in nodes && 0 <= i < |nodes[k].fields| ==>
      nodes[k].fields[i].name in types && types[nodes[k].fields[i].name] == nodes[k].fields[i].typ
  }

  lemma FlatCompiles(reg: Registry, types: map<string, string>)
    requires Readable(reg) && Flat(reg.nodes) && Typed(reg.nodes, types)
    requires exists i :: 0 <= i < |reg.nodes[ROOT].fields| && reg.nodes[ROOT].fields[i].name == KIND
    requires exists i :: 0 <= i < |reg.nodes[ROOT].fields| && reg.nodes[ROOT].fields[i].name == LOC
    ensures AllRooted(reg.nodes) && Compiles(reg, TableOf(AllUses(reg.nodes)))
  {
    var nodes := reg.nodes;
    forall k | Concrete(nodes, k) ensures Rooted(nodes, k) {
      FlatFields(nodes, k);
    }
    forall f ensures !Clash(nodes, f) {
      forall k, g | VisibleIn(nodes, k, g) && g.name == f ensures f in types && types[f] == g.typ {
        FlatFields(nodes, k);
      }
    }
    ConsistentIffNoClash(nodes);
    TableOfTabulates(AllUses(nodes));
  }

  // ---------------------------------------------------------------- the example

  const LOCFIELD := Field("Loc", "Location", None)
  const MEMBERS := "Members"
  const MEMBERFIELD := Field(MEMBERS, "Node_List", None)
  const TYPES := map["Kind" := "Node_Kind", "Loc" := "Location", MEMBERS := "Node_List"]

  function KindField(init: Option<string>): Field {
    Field("Kind", "Node_Kind", init)
  }

  /** Root, A with a list field, and B declared under A and then again under Root. */
  function Example(init: Option<string>): seq<Decl> {
    [Decl("Root", None, [KindField(init), LOCFIELD]), Decl("A", None, [MEMBERFIELD]), Decl("B", Some("A"), []), Decl("B", None, [])]
  }

  lemma BuildFour(d0: Decl, d1: Decl, d2: Decl, d3: Decl)
    ensures Build([d0, d1, d2, d3], EMPTY) == Block(Block(Block(Block(EMPTY, d0), d1), d2), d3)
  {
    var reg := Block(Block(Block(Block(EMPTY, d0), d1), d2), d3);
    assert Build([d3], Block(Block(Block(EMPTY, d0), d1), d2)) == reg;
    assert [d2, d3][1..] == [d3] && Build([d2, d3], Block(Block(EMPTY, d0), d1)) == reg;
    assert [d1, d2, d3][1..] == [d2, d3] && Build([d1, d2, d3], Block(EMPTY, d0)) == reg;
    assert [d0, d1, d2, d3][1..] == [d1, d2, d3];
  }

  lemma BuildExample(a: string, b: string, root: seq<Field>, fields: seq<Field>)
    requires a != ROOT && b != ROOT && a != b
    ensures var reg := Build([Decl(ROOT, None, root), Decl(a, None, fields), Decl(b, Some(a), []), Decl(b, None, [])], EMPTY);
      && reg.nodes == map[ROOT := Node(None, root), a := Node(Some(ROOT), fields), b := Node(Some(ROOT), [])]
      && ChildrenOf(reg, a) == [b]
  {
    BuildFour(Decl(ROOT, None, root), Decl(a, None, fields), Decl(b, Some(a), []), Decl(b, None, []));
  }

  /** What reading and `get_fields` give for the example. */
  ghost predicate ExampleRead(reg: Registry, init: Option<string>) {
    && Flat(reg.nodes) && reg.nodes[ROOT].fields == [KindField(init), LOCFIELD]
    && Concrete(reg.nodes, "A") && Concrete(reg.nodes, "B") && ChildrenOf(reg, "A") == ["B"]
    && (forall k :: Concrete(reg.nodes, k) ==> k == "A" || k == "B")
    && Rooted(reg.nodes, "A") && FieldsOf(reg.nodes, "A") == [KindField(init), LOCFIELD, MEMBERFIELD]
    && Rooted(reg.nodes, "B") && FieldsOf(reg.nodes, "B") == [KindField(init), LOCFIELD]
    && Typed(reg.nodes, TYPES)
  }

  lemma ExampleReads(reg: Registry, init: Option<string>)
    requires reg == Build(Example(init), EMPTY)
    ensures ExampleRead(reg, init)
  {
    BuildExample("A", "B", [KindField(init), LOCFIELD], [MEMBERFIELD]);
    FlatFields(reg.nodes, "A");
    FlatFields(reg.nodes, "B");
    assert [KindField(init), LOCFIELD] + [MEMBERFIELD] == [KindField(init), LOCFIELD, MEMBERFIELD];
    assert [KindField(init), LOCFIELD] + [] == [KindField(init), LOCFIELD];
  }

  lemma ExampleWords()
    ensures IsWord("Root") && IsWord("A") && IsWord("B")
    ensures IsWord("Kind") && IsWord("Node_Kind") && IsWord("Loc") && IsWord("Location")
    ensures IsWord("Members") && IsWord("Node_List")
  {
  }

  lemma ExampleReadable(init: Option<string>)
    requires init.Some? ==> IsWord(init.value)
    ensures Readable(Build(Example(init), EMPTY))
  {
    ExampleWords();
    BuildReadable(Example(init), EMPTY);
  }

  lemma ExampleCompiles(reg: Registry, init: Option<string>)
    requires reg == Build(Example(init), EMPTY) && (init.Some? ==> IsWord(init.value))
    ensures ExampleRead(reg, init) && AllRooted(reg.nodes) && Compiles(reg, TableOf(AllUses(reg.nodes)))
  {
    ExampleReads(reg, init);
    ExampleReadable(init);
    assert reg.nodes[ROOT].fields[0].name == KIND && reg.nodes[ROOT].fields[1].name == LOC;
    FlatCompiles(reg, TYPES);
  }

  lemma ExampleKept(reg: Registry)
    requires ExampleRead(reg, None)
    ensures KindKept(reg.nodes, "A") && KindKept(reg.nodes, "B")
    ensures LastInit(FieldsOf(reg.nodes, "A"), MEMBERS).None?
    ensures Sees(reg.nodes, "A", MEMBERS) && !Sees(reg.nodes, "B", MEMBERS)
  {
    assert FieldsOf(reg.nodes, "A")[2].name == MEMBERS;
    NoLastInit(FieldsOf(reg.nodes, "A"), KIND);
    NoLastInit(FieldsOf(reg.nodes, "B"), KIND);
    NoLastInit(FieldsOf(reg.nodes, "A"), MEMBERS);
  }

  lemma ExampleGenerated(reg: Registry, t: Tables)
    requires Compiles(reg, t) && ExampleRead(reg, None)
    ensures Generated(reg, t)
  {
    ExampleKept(reg);
  }

  // ---------------------------------------------------------------- a redeclared node

  /** `Is_<a>` calls `Is_<b>` and so returns True on kind `b`. */
  lemma RedeclaredTest(reg: Registry, a: string, b: string)
    requires Concrete(reg.nodes, a) && Concrete(reg.nodes, b) && ChildrenOf(reg, a) == [b]
    ensures Returns(IsFunctions(reg), a, b, true)
  {
    var fns := IsFunctions(reg);
    assert EvalIs(fns, b, b, 1) == Some(true);
    assert EvalCalls(fns, [b], b, 1) == Some(true);
    assert EvalIs(fns, a, b, 2) == Some(true);
  }

  /** After `Make_<k>` the Kind getter replies `k`, and the getter of a field that the
      kind does not see fails its assertion. */
  lemma FirstNode(reg: Registry, t: Tables, k: string, f: string)
    requires Generated(reg, t) && Concrete(reg.nodes, k) && f in t.types && !Sees(reg.nodes, k, f)
    ensures var s := Run(reg, t, [Make(k, 0)]).0;
      Step(reg, t, s, Get(1, KIND)).1 == Got(KindValue(k)) && Step(reg, t, s, Get(1, f)).1 == AssertionFailed
  {
    var ops := [Make(k, 0)];
    assert ops[..0] == [];
    FlatRefinesTyped(reg, t, ops);
    var s, o := Run(reg, t, ops).0, TypedRun(reg, t, ops).0;
    assert o.objs == [NewObject(reg.nodes, t, k, 0)];
    assert Carries(reg.nodes, t, s.table[0], o.objs[0]);
    StepRefines(reg, t, s, o, Get(1, f));
    StepRefines(reg, t, s, o, Get(1, KIND));
    MakeAssignsFields(reg, t, k);
  }

  /** The redeclared node stays in A's children list: on a node made by `Make_B` the
      test `Is_A` returns True, and the getter of A's own field then fails its assertion. */
  lemma RedeclarationMisleads()
    ensures var reg := Build(Example(None), EMPTY);
      && AllRooted(reg.nodes)
      && var t := TableOf(AllUses(reg.nodes)); var s := Run(reg, t, [Make("B", 0)]).0;
      && Generated(reg, t) && Concrete(reg.nodes, "A") && Sees(reg.nodes, "A", MEMBERS)
      && IsAnswersTrue(reg, t, s, "A", 1)
      && Step(reg, t, s, Get(1, MEMBERS)).1 == AssertionFailed
  {
    var reg := Build(Example(None), EMPTY);
    ExampleCompiles(reg, None);
    ExampleKept(reg);
    var t := TableOf(AllUses(reg.nodes));
    ExampleGenerated(reg, t);
    SeenIsTabulated(reg, t, "A", MEMBERS);
    FirstNode(reg, t, "B", MEMBERS);
    RedeclaredTest(reg, "A", "B");
  }

  // ---------------------------------------------------------------- an initialised Kind

  /** `Make_<k>` when the first of two fields initialises Kind. */
  lemma InitialisedKind(reg: Registry, t: Tables, k: string, a: Field, b: Field)
    requires Compiles(reg, t) && Concrete(reg.nodes, k) && FieldsOf(reg.nodes, k) == [a, b]
    requires a.name == KIND && a.init.Some? && b.init.None?
    ensures LastInit([a, b], KIND) == a.init
    ensures var r := MadeRecord(reg.nodes, t, k, 0); KIND in r && r[KIND] == ValueOf(a.init.value)
  {
    assert [a, b][..1] == [a];
    assert LastInit([a], KIND) == a.init;
    MakeAssignsFields(reg, t, k);
    MakeFills(reg, t, k, 0, KIND);
  }

  /** The same description with the Kind field initialised to K_A: the package compiles,
      and `Make_B` builds a record of kind A. */
  lemma KindInitialiserMisleads()
    ensures var reg := Build(Example(Some("K_A")), EMPTY);
      && AllRooted(reg.nodes) && Concrete(reg.nodes, "B")
      && var t := TableOf(AllUses(reg.nodes)); var r := MadeRecord(reg.nodes, t, "B", 0);
      && Compiles(reg, t) && !KindKept(reg.nodes, "B") && KIND in r && r[KIND] == KindValue("A")
  {
    var reg := Build(Example(Some("K_A")), EMPTY);
    KindOfA();
    ExampleCompiles(reg, Some("K_A"));
    InitialisedKind(reg, TableOf(AllUses(reg.nodes)), "B", KindField(Some("K_A")), LOCFIELD);
  }

  lemma KindOfA()
    ensures IsWord("K_A") && ValueOf("K_A") == KindValue("A")
  {
    assert "K_A"[..2] == "K_" && "K_A"[2..] == "A";
  }

  // ---------------------------------------------------------------- a shared list

  /** The run up to the copy: two nodes, a list in the first, stored into the second. */
  function SharingOps(k: string, f: string, x: nat): seq<Op> {
    [Make(k, 0), Make(k, 0), AppendTo(1, f, x), Set(2, f, List(1))]
  }

  lemma SharingLeavesKindAlone(k: string, f: string, x: nat)
    requires f != KIND
    ensures AllLeaveKindAlone(SharingOps(k, f, x))
  {
  }

  lemma RunFour(reg: Registry, t: Tables, a: Op, b: Op, c: Op, d: Op)
    requires AllRooted(reg.nodes)
    ensures var s1 := Step(reg, t, EMPTYSTORE, a).0; var s2 := Step(reg, t, s1, b).0; var s3 := Step(reg, t, s2, c).0;
      Run(reg, t, [a, b, c]).0 == s3 && Run(reg, t, [a, b, c, d]).0 == Step(reg, t, s3, d).0
  {
    assert [a, b, c, d][..3] == [a, b, c] && [a, b, c][..2] == [a, b] && [a, b][..1] == [a] && [a][..0] == [];
    assert Run(reg, t, [a]).0 == Step(reg, t, EMPTYSTORE, a).0;
    assert Run(reg, t, [a, b]).0 == Step(reg, t, Run(reg, t, [a]).0, b).0;
  }

  lemma MakeTwice(reg: Registry, t: Tables, k: string)
    requires AllRooted(reg.nodes) && Concrete(reg.nodes, k)
    ensures var r := MadeRecord(reg.nodes, t, k, 0);
      Step(reg, t, Step(reg, t, EMPTYSTORE, Make(k, 0)).0, Make(k, 0)).0 == Store([r, r], [])
  {
    var r := MadeRecord(reg.nodes, t, k, 0);
    assert [] + [r] == [r] && [r] + [r] == [r, r];
  }

  lemma AppendFirst(reg: Registry, t: Tables, r: Record, f: string, x: nat)
    requires AllRooted(reg.nodes) && f in t.types && t.types[f] == "Node_List" && f in r && r[f] == List(NodeLists.NIL)
    requires Entry(t, [r, r], 1, f) == Done
    ensures Step(reg, t, Store([r, r], []), AppendTo(1, f, x)) == (Store([r[f := List(1)], r], [NodeLists.Cell(x, 0)]), Done)
  {
    assert [] + [NodeLists.Cell(x, 0)] == [NodeLists.Cell(x, 0)];
    assert [r, r][0 := r[f := List(1)]] == [r[f := List(1)], r];
  }

  lemma CopyList(reg: Registry, t: Tables, r: Record, q: Record, f: string, x: nat)
    requires AllRooted(reg.nodes) && f in t.types && t.types[f] == "Node_List"
    requires Entry(t, [q, r], 2, f) == Done
    ensures Step(reg, t, Store([q, r], [NodeLists.Cell(x, 0)]), Set(2, f, List(1))) ==
      (Store([q, r[f := List(1)]], [NodeLists.Cell(x, 0)]), Done)
  {
    assert [q, r][1 := r[f := List(1)]] == [q, r[f := List(1)]];
  }

  /** Kind `k` has a list field `f` that starts empty. */
  ghost predicate HasList(reg: Registry, t: Tables, k: string, f: string) {
    && Compiles(reg, t) && Concrete(reg.nodes, k) && KindKept(reg.nodes, k) && Sees(reg.nodes, k, f) && f != KIND
    && f in t.types && t.types[f] == "Node_List"
    && InitialValue(t, k, FieldsOf(reg.nodes, k), 0, f) == List(NodeLists.NIL)
  }

  lemma MadeWithList(reg: Registry, t: Tables, k: string, f: string)
    requires HasList(reg, t, k, f)
    ensures var r := MadeRecord(reg.nodes, t, k, 0);
      KIND in r && r[KIND] == KindValue(k) && f in r && r[f] == List(NodeLists.NIL)
  {
    MakeKindIff(reg, t, k, 0);
    MakeFills(reg, t, k, 0, f);
  }

  /** Two records of a kind that the accessor lists pass its assertion. */
  lemma BothPass(t: Tables, a: Record, b: Record, k: string, f: string)
    requires f in t.kinds && k in t.kinds[f] && KIND in a && KIND in b && a[KIND] == KindValue(k) == b[KIND]
    ensures Entry(t, [a, b], 1, f) == Done && Entry(t, [a, b], 2, f) == Done
  {
    var i :| 0 <= i < |t.kinds[f]| && t.kinds[f][i] == k;
    assert KindAssertion(t, f, a) && KindAssertion(t, f, b);
  }

  lemma SharedCells(reg: Registry, t: Tables, k: string, f: string, x: nat, r: Record)
    requires AllRooted(reg.nodes) && Concrete(reg.nodes, k) && r == MadeRecord(reg.nodes, t, k, 0)
    requires f in t.types && t.types[f] == "Node_List" && f in r && r[f] == List(NodeLists.NIL)
    requires Entry(t, [r, r], 1, f) == Done && Entry(t, [r[f := List(1)], r], 2, f) == Done
    ensures Run(reg, t, SharingOps(k, f, x)[..3]).0 == Store([r[f := List(1)], r], [NodeLists.Cell(x, 0)])
    ensures Run(reg, t, SharingOps(k, f, x)).0 == Store([r[f := List(1)], r[f := List(1)]], [NodeLists.Cell(x, 0)])
  {
    MakeTwice(reg, t, k);
    AppendFirst(reg, t, r, f, x);
    CopyList(reg, t, r, r[f := List(1)], f, x);
    assert SharingOps(k, f, x)[..3] == [Make(k, 0), Make(k, 0), AppendTo(1, f, x)];
    RunFour(reg, t, Make(k, 0), Make(k, 0), AppendTo(1, f, x), Set(2, f, List(1)));
  }

  /** Reading and appending when two records hold the list of the only cell. */
  lemma OneCellTwice(reg: Registry, t: Tables, s: Store, q: Record, f: string, x: nat, y: nat)
    requires AllRooted(reg.nodes) && f in t.types && t.types[f] == "Node_List" && f != KIND
    requires s == Store([q, q], [NodeLists.Cell(x, 0)]) && f in q && q[f] == List(1)
    requires Entry(t, [q, q], 1, f) == Done && Entry(t, [q, q], 2, f) == Done
    ensures var (s', reply) := Step(reg, t, s, AppendTo(1, f, y));
      && reply == Done && Shares(reg, t, s, 1, f, 2, f)
      && ReadList(reg, t, s, 2, f) == Some([x]) && ReadList(reg, t, s', 2, f) == Some([x, y])
  {
    assert NodeLists.Contents(s.heap, 1) == [x] by {
      assert NodeLists.Contents(s.heap, 0) == [];
    }
    assert GotList(reg, t, s, 1, f) == Some(1) && GotList(reg, t, s, 2, f) == Some(1);
    ReadAfterAppend(reg, t, s, 1, f, y, 2, f);
    assert [x] + [y] == [x, y];
  }

  /** In every generated package with a list field `f`: after Set_F (2, F (1)), an append
      through node 1 shows in the list of node 2, although no call names node 2. */
  lemma SharingRun(reg: Registry, t: Tables, k: string, f: string, x: nat, y: nat)
    requires HasList(reg, t, k, f)
    ensures AllLeaveKindAlone(SharingOps(k, f, x))
    ensures Step(reg, t, Run(reg, t, SharingOps(k, f, x)[..3]).0, Get(1, f)).1 == Got(List(1))
    ensures var s := Run(reg, t, SharingOps(k, f, x)).0; var (s', reply) := Step(reg, t, s, AppendTo(1, f, y));
      && reply == Done && Shares(reg, t, s, 1, f, 2, f)
      && ReadList(reg, t, s, 2, f) == Some([x]) && ReadList(reg, t, s', 2, f) == Some([x, y])
  {
    SharingLeavesKindAlone(k, f, x);
    AllPass(reg, t, k, f);
    SharingGiven(reg, t, k, f, x, y, MadeRecord(reg.nodes, t, k, 0));
  }

  lemma AllPass(reg: Registry, t: Tables, k: string, f: string)
    requires HasList(reg, t, k, f)
    ensures var r := MadeRecord(reg.nodes, t, k, 0); var q := r[f := List(1)];
      && f in r && r[f] == List(NodeLists.NIL)
      && Entry(t, [r, r], 1, f) == Done && Entry(t, [q, r], 1, f) == Done && Entry(t, [q, r], 2, f) == Done
      && Entry(t, [q, q], 1, f) == Done && Entry(t, [q, q], 2, f) == Done
  {
    var r := MadeRecord(reg.nodes, t, k, 0);
    var q := r[f := List(1)];
    MadeWithList(reg, t, k, f);
    SeenIsTabulated(reg, t, k, f);
    BothPass(t, r, r, k, f);
    BothPass(t, q, r, k, f);
    BothPass(t, q, q, k, f);
  }

  lemma SharingGiven(reg: Registry, t: Tables, k: string, f: string, x: nat, y: nat, r: Record)
    requires AllRooted(reg.nodes) && Concrete(reg.nodes, k) && r == MadeRecord(reg.nodes, t, k, 0)
    requires f in t.types && t.types[f] == "Node_List" && f != KIND && f in r && r[f] == List(NodeLists.NIL)
    requires var q := r[f := List(1)];
      && Entry(t, [r, r], 1, f) == Done && Entry(t, [q, r], 1, f) == Done && Entry(t, [q, r], 2, f) == Done
      && Entry(t, [q, q], 1, f) == Done && Entry(t, [q, q], 2, f) == Done
    ensures Step(reg, t, Run(reg, t, SharingOps(k, f, x)[..3]).0, Get(1, f)).1 == Got(List(1))
    ensures var s := Run(reg, t, SharingOps(k, f, x)).0; var (s', reply) := Step(reg, t, s, AppendTo(1, f, y));
      && reply == Done && Shares(reg, t, s, 1, f, 2, f)
      && ReadList(reg, t, s, 2, f) == Some([x]) && ReadList(reg, t, s', 2, f) == Some([x, y])
  {
    SharedCells(reg, t, k, f, x, r);
    OneCellTwice(reg, t, Run(reg, t, SharingOps(k, f, x)).0, r[f := List(1)], f, x, y);
  }

  /** A kind with a field declared as a list, without initialisers, starts with an empty list. */
  lemma DeclaredList(reg: Registry, t: Tables, k: string, g: Field)
    requires Compiles(reg, t) && Concrete(reg.nodes, k) && g in FieldsOf(reg.nodes, k)
    requires g.typ == "Node_List" && g.name != KIND && g.name != LOC
    requires KindKept(reg.nodes, k) && LastInit(FieldsOf(reg.nodes, k), g.name).None?
    ensures HasList(reg, t, k, g.name)
  {
    var i := UseExists(reg.nodes, SortedNames.Sorted(reg.nodes.Keys), k, g);
    var j :| 0 <= j < |FieldsOf(reg.nodes, k)| && FieldsOf(reg.nodes, k)[j] == g;
  }

  /** The example has a field for which the run of SharingRun exists. */
  lemma SharingHappens()
    ensures var reg := Build(Example(None), EMPTY);
      AllRooted(reg.nodes) && HasList(reg, TableOf(AllUses(reg.nodes)), "A", MEMBERS)
  {
    var reg := Build(Example(None), EMPTY);
    ExampleCompiles(reg, None);
    ExampleKept(reg);
    assert FieldsOf(reg.nodes, "A")[2] == MEMBERFIELD;
    DeclaredList(reg, TableOf(AllUses(reg.nodes)), "A", MEMBERFIELD);
  }
}
