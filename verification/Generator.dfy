/** The generator from end to end: a printed description, read and elaborated, gives a
    package whose class tests can be trusted by callers of its accessors. */
module Generator {
  import opened Text
  import opened SchemaReader
  import opened SchemaRoundTrip
  import opened Inheritance
  import opened FieldTables
  import opened ClassTests
  import opened DeclarationOrder
  import opened NodeStore
  import opened NodeFraming
  import NodeLists

  /** The blocks of a description that make_nodes.py documents as required. */
  ghost predicate WellDescribed(ds: seq<Decl>) {
    && (forall i :: 0 <= i < |ds| ==> ValidDecl(ds[i]))
    && DistinctNames(ds) && RootDeclares(ds, KIND) && RootDeclares(ds, LOC)
  }

  ghost predicate RootDeclares(ds: seq<Decl>, f: string) {
    exists i, j :: 0 <= i < |ds| && ds[i].name == ROOT && 0 <= j < |ds[i].fields| && ds[i].fields[j].name == f
  }

  ghost predicate KindUninitialised(ds: seq<Decl>) {
    forall i, j :: 0 <= i < |ds| && 0 <= j < |ds[i].fields| && ds[i].fields[j].name == KIND ==> ds[i].fields[j].init.None?
  }

  lemma RootHasField(reg: Registry, ds: seq<Decl>, f: string)
    requires Represents(reg, ds) && RootDeclares(ds, f)
    ensures ROOT in reg.nodes && exists i :: 0 <= i < |reg.nodes[ROOT].fields| && reg.nodes[ROOT].fields[i].name == f
  {
    var i, j :| 0 <= i < |ds| && ds[i].name == ROOT && 0 <= j < |ds[i].fields| && ds[i].fields[j].name == f;
    assert reg.nodes[ROOT] == DeclNode(ds[i]);
  }

  lemma KindIsKept(reg: Registry, ds: seq<Decl>, k: string)
    requires Represents(reg, ds) && KindUninitialised(ds) && Rooted(reg.nodes, k)
    ensures KindKept(reg.nodes, k)
  {
    var fs := FieldsOf(reg.nodes, k);
    forall i | 0 <= i < |fs| && fs[i].name == KIND ensures fs[i].init.None? {
      VisibleIffDeclaredAbove(reg.nodes, k, fs[i]);
      var x :| Reaches(reg.nodes, k, x) && x in reg.nodes && fs[i] in reg.nodes[x].fields;
      var d :| 0 <= d < |ds| && ds[d].name == x;
      assert reg.nodes[x] == DeclNode(ds[d]);
    }
    NoLastInit(fs, KIND);
  }

  /** An accepted description with the required Root fields gives a package that compiles,
      whose class tests follow the parent links. */
  lemma DescriptionCompiles(ds: seq<Decl>, t: Tables)
    requires WellDescribed(ds) && AllRooted(Build(ds, EMPTY).nodes) && Tabulates(t, AllUses(Build(ds, EMPTY).nodes))
    ensures Compiles(Build(ds, EMPTY), t) && EdgesClimb(Build(ds, EMPTY))
  {
    var reg := Build(ds, EMPTY);
    BuildRepresents(ds);
    BuildReadable(ds, EMPTY);
    RootHasField(reg, ds, KIND);
    RootHasField(reg, ds, LOC);
    DistinctNamesClimb(reg, ds);
  }

  lemma DescriptionGenerates(ds: seq<Decl>, t: Tables)
    requires WellDescribed(ds) && KindUninitialised(ds)
    requires AllRooted(Build(ds, EMPTY).nodes) && Tabulates(t, AllUses(Build(ds, EMPTY).nodes))
    ensures Generated(Build(ds, EMPTY), t)
  {
    DescriptionCompiles(ds, t);
    BuildRepresents(ds);
    forall k | Concrete(Build(ds, EMPTY).nodes, k) ensures KindKept(Build(ds, EMPTY).nodes, k) {
      KindIsKept(Build(ds, EMPTY), ds, k);
    }
  }

  datatype Package = Package(reg: Registry, tables: Tables)

  /** What the script makes of a text that passes its checks. */
  ghost predicate MadeFrom(p: Package, text: string) {
    && Read(Lines(text)) == Parsed(p.reg)
    && AllRooted(p.reg.nodes) && Tabulates(p.tables, AllUses(p.reg.nodes))
  }

  /** The script up to printing: read the text, then elaborate. */
  method Generate(text: string) returns (r: Option<Package>)
    ensures r.Some? <==>
      var read := Read(Lines(text)); read.Parsed? && AllRooted(read.reg.nodes) && Consistent(AllUses(read.reg.nodes))
    ensures r.Some? ==> MadeFrom(r.value, text)
  {
    var read := ReadFile(text);
    if read.FieldOutsideNode? {
      return None;
    }
    var tables := Elaborate(read.reg.nodes);
    return if tables.Ok? then Some(Package(read.reg, tables.value)) else None;
  }

  /** The text of a document that lays out the blocks `ds`. */
  ghost predicate LaysOut(doc: seq<DocLine>, ds: seq<Decl>) {
    && (forall i :: 0 <= i < |doc| ==> ValidLine(doc[i]))
    && exists pre, post :: Framed(Contents(doc), pre, ds, post)
  }

  ghost predicate Framed(wss: seq<seq<string>>, pre: seq<seq<string>>, ds: seq<Decl>, post: seq<seq<string>>) {
    && (forall i :: 0 <= i < |pre| ==> pre[i] != [] && pre[i] != ["START"])
    && (forall i :: 0 <= i < |post| ==> post[i] != [])
    && wss == pre + [["START"]] + (DeclsWords(ds) + [["END"]] + post)
  }

  lemma LaidOutReads(doc: seq<DocLine>, ds: seq<Decl>)
    requires LaysOut(doc, ds) && (forall i :: 0 <= i < |ds| ==> ValidDecl(ds[i])) && DistinctNames(ds)
    ensures Read(Lines(Concat(DocLines(doc)))) == Parsed(Build(ds, EMPTY))
  {
    var pre, post :| Framed(Contents(doc), pre, ds, post);
    SchemaRoundTrip.SchemaRoundTrip(doc, pre, ds, post);
  }

  /** End to end: whatever package the script makes of any layout of a well-described
      hierarchy, after any calls that leave Kind alone, a node on which `Is_X` returns
      True may be given to the getter and setter of every field visible in X. */
  lemma PrintedDescriptionIsSound(doc: seq<DocLine>, ds: seq<Decl>, p: Package, ops: seq<Op>, n: nat, x: string, f: string, v: Value)
    requires WellDescribed(ds) && KindUninitialised(ds) && LaysOut(doc, ds)
    requires MadeFrom(p, Concat(DocLines(doc)))
    requires AllLeaveKindAlone(ops) && Concrete(p.reg.nodes, x) && Sees(p.reg.nodes, x, f)
    requires IsAnswersTrue(p.reg, p.tables, Run(p.reg, p.tables, ops).0, x, n)
    ensures Step(p.reg, p.tables, Run(p.reg, p.tables, ops).0, Get(n, f)).1.Got? && f in p.tables.types
    ensures Holds(Run(p.reg, p.tables, ops).0.heap, p.tables.types[f], v) ==>
      Step(p.reg, p.tables, Run(p.reg, p.tables, ops).0, Set(n, f, v)).1 == Done
  {
    LaidOutReads(doc, ds);
    DescriptionCompiles(ds, p.tables);
    DescriptionGenerates(ds, p.tables);
    SubtypeSoundness(p.reg, p.tables, ops, n, x, f, v);
  }
}
