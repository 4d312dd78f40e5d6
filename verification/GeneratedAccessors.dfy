/** The printed guard of an accessor against the inheritance relation. */
module GeneratedAccessors {
  import opened SchemaReader
  import opened Inheritance
  import opened FieldTables
  import opened ClassTests
  import opened AssertionText

  /** Node `x` itself declares a field of that name. */
  predicate Declares(nodes: Nodes, x: string, f: string) {
    x in nodes && exists i :: 0 <= i < |nodes[x].fields| && nodes[x].fields[i].name == f
  }

  lemma SeesIffDeclaredAbove(nodes: Nodes, k: string, f: string)
    requires Rooted(nodes, k)
    ensures Sees(nodes, k, f) <==> exists x :: Reaches(nodes, k, x) && Declares(nodes, x, f)
  {
    if Sees(nodes, k, f) {
      var i :| 0 <= i < |FieldsOf(nodes, k)| && FieldsOf(nodes, k)[i].name == f;
      var g := FieldsOf(nodes, k)[i];
      VisibleIffDeclaredAbove(nodes, k, g);
      var x :| Reaches(nodes, k, x) && x in nodes && g in nodes[x].fields;
      var j :| 0 <= j < |nodes[x].fields| && nodes[x].fields[j] == g;
      assert Declares(nodes, x, f);
    }
    if x :| Reaches(nodes, k, x) && Declares(nodes, x, f) {
      var i :| 0 <= i < |nodes[x].fields| && nodes[x].fields[i].name == f;
      var g := nodes[x].fields[i];
      VisibleIffDeclaredAbove(nodes, k, g);
      var j :| 0 <= j < |FieldsOf(nodes, k)| && FieldsOf(nodes, k)[j] == g;
    }
  }

  lemma KindsAreIdents(nodes: Nodes, f: string)
    requires AllRooted(nodes) && forall n :: n in nodes ==> IsIdent(n)
    ensures forall i :: 0 <= i < |KindsUsing(AllUses(nodes), f)| ==> IsIdent(KindsUsing(AllUses(nodes), f)[i])
  {
    var ks := KindsUsing(AllUses(nodes), f);
    forall i | 0 <= i < |ks| ensures IsIdent(ks[i]) {
      KindListExact(nodes, f, ks[i]);
    }
  }

  /** Read back as Ada, the assertion printed in the accessors of field `f` admits a
      kind exactly when the kind is, or descends from, a node that declares `f`. */
  lemma PrintedGuardExact(nodes: Nodes, t: Tables, f: string, ls: seq<string>, k: string)
    requires AllRooted(nodes) && Tabulates(t, AllUses(nodes)) && f in t.kinds
    requires forall n :: n in nodes ==> IsIdent(n)
    requires |ls| == |t.kinds[f]| && forall i :: 0 <= i < |ls| ==> ls[i] == AssertLine(t.kinds[f], i)
    ensures ParseAssertion(Printed(ls)).Some?
    ensures k in ParseAssertion(Printed(ls)).value <==>
      Concrete(nodes, k) && exists x :: Reaches(nodes, k, x) && Declares(nodes, x, f)
  {
    assert t.kinds[f] == KindsUsing(AllUses(nodes), f) && t.kinds[f] != [];
    KindsAreIdents(nodes, f);
    AssertionReadsBack(t.kinds[f], ls);
    KindListExact(nodes, f, k);
    if Concrete(nodes, k) {
      SeesIffDeclaredAbove(nodes, k, f);
    }
  }
}
