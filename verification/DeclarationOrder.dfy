/** The order of the node blocks in the description does not matter: forward
    references to parents are as good as backward ones. */
module DeclarationOrder {
  import opened Text
  import opened SchemaReader
  import opened SchemaRoundTrip
  import opened Inheritance
  import opened FieldTables
  import opened ClassTests

  lemma {:induction false} ChildNamesConcat(a: seq<Decl>, b: seq<Decl>, p: string)
    ensures ChildNames(a + b, p) == ChildNames(a, p) + ChildNames(b, p)
  {
    if a == [] {
      assert a + b == b;
    } else {
      var first := if DeclNode(a[0]).parent == Some(p) then [a[0].name] else [];
      assert (a + b)[0] == a[0] && (a + b)[1..] == a[1..] + b;
      assert ChildNames(a + b, p) == first + ChildNames(a[1..] + b, p);
      ChildNamesConcat(a[1..], b, p);
      assert ChildNames(a, p) == first + ChildNames(a[1..], p);
    }
  }

  lemma {:induction false} ChildNamesPermute(ds: seq<Decl>, es: seq<Decl>, p: string)
    requires multiset(ds) == multiset(es)
    ensures multiset(ChildNames(ds, p)) == multiset(ChildNames(es, p))
  {
    if ds == [] {
      assert |multiset(es)| == |es| == 0;
    } else {
      var d := ds[0];
      assert ds == [d] + ds[1..];
      assert d in multiset(es);
      var j :| 0 <= j < |es| && es[j] == d;
      var rest := es[..j] + es[j + 1..];
      assert es == es[..j] + ([d] + es[j + 1..]);
      assert multiset(ds) == multiset{d} + multiset(ds[1..]);
      assert multiset(es) == multiset{d} + multiset(rest);
      assert multiset(ds[1..]) == multiset(ds) - multiset{d};
      assert multiset(rest) == multiset(es) - multiset{d};
      ChildNamesPermute(ds[1..], rest, p);
      ChildNamesConcat([d], ds[1..], p);
      ChildNamesConcat(es[..j], es[j + 1..], p);
      ChildNamesConcat(es[..j], [d] + es[j + 1..], p);
      ChildNamesConcat([d], es[j + 1..], p);
    }
  }

  lemma TwiceCounts(s: seq<Decl>, i: int, j: int)
    requires 0 <= i < j < |s| && s[i] == s[j]
    ensures multiset(s)[s[i]] >= 2
  {
    assert s == s[..i] + [s[i]] + s[i + 1..];
    assert s[i + 1..][j - i - 1] == s[j];
  }

  lemma {:induction false} OnceCounts(s: seq<Decl>, d: Decl)
    requires DistinctNames(s)
    ensures multiset(s)[d] <= 1
  {
    if s != [] {
      assert s == [s[0]] + s[1..];
      OnceCounts(s[1..], d);
      assert d == s[0] ==> d !in s[1..];
    }
  }

  lemma DistinctPermute(ds: seq<Decl>, es: seq<Decl>)
    requires multiset(ds) == multiset(es) && DistinctNames(ds)
    ensures DistinctNames(es)
  {
    forall i, j | 0 <= i < j < |es|
      ensures es[i].name != es[j].name
    {
      assert es[i] in multiset(ds) && es[j] in multiset(ds);
      if es[i] == es[j] {
        TwiceCounts(es, i, j);
        OnceCounts(ds, es[i]);
      }
    }
  }

  lemma NodesInclude(ds: seq<Decl>, es: seq<Decl>, r: Registry, s: Registry, k: string)
    requires multiset(ds) == multiset(es) && Represents(r, ds) && Represents(s, es) && k in r.nodes
    ensures k in s.nodes && r.nodes[k] == s.nodes[k]
  {
    var i :| 0 <= i < |ds| && ds[i].name == k;
    assert ds[i] in multiset(es);
    var j :| 0 <= j < |es| && es[j] == ds[i];
  }

  lemma NodesPermute(ds: seq<Decl>, es: seq<Decl>, r: Registry, s: Registry)
    requires multiset(ds) == multiset(es) && Represents(r, ds) && Represents(s, es)
    ensures r.nodes == s.nodes
  {
    forall k | k in r.nodes ensures k in s.nodes && r.nodes[k] == s.nodes[k] {
      NodesInclude(ds, es, r, s, k);
    }
    forall k | k in s.nodes ensures k in r.nodes {
      NodesInclude(es, ds, s, r, k);
    }
  }

  /** Permuting the blocks of a description without repeated names keeps every node,
      every parent's set of children, the accept or reject outcome, and the kind list
      and type of every accessor. */
  lemma OrderIrrelevant(ds: seq<Decl>, es: seq<Decl>)
    requires multiset(ds) == multiset(es) && DistinctNames(ds)
    ensures DistinctNames(es)
    ensures Build(ds, EMPTY).nodes == Build(es, EMPTY).nodes
    ensures forall p :: multiset(ChildrenOf(Build(ds, EMPTY), p)) == multiset(ChildrenOf(Build(es, EMPTY), p))
    ensures SameAccessors(Build(ds, EMPTY).nodes, Build(es, EMPTY).nodes)
  {
    DistinctPermute(ds, es);
    BuildRepresents(ds);
    BuildRepresents(es);
    NodesPermute(ds, es, Build(ds, EMPTY), Build(es, EMPTY));
    forall p ensures multiset(ChildrenOf(Build(ds, EMPTY), p)) == multiset(ChildrenOf(Build(es, EMPTY), p)) {
      ChildNamesPermute(ds, es, p);
    }
  }

  /** Generation stops for both or for neither, and if not, every accessor has the same
      kind list and the same type. */
  ghost predicate SameAccessors(a: Nodes, b: Nodes) {
    && (AllRooted(a) <==> AllRooted(b))
    && (AllRooted(a) && AllRooted(b) ==>
          && (Consistent(AllUses(a)) <==> Consistent(AllUses(b)))
          && (forall f :: KindsUsing(AllUses(a), f) == KindsUsing(AllUses(b), f))
          && TableOf(AllUses(a)).types == TableOf(AllUses(b)).types)
  }

  lemma TestsOrderIrrelevant(r: Registry, s: Registry, x: string, kind: string, b: bool)
    requires r.nodes == s.nodes && Readable(r) && Readable(s) && AllRooted(r.nodes)
    requires EdgesClimb(r) && EdgesClimb(s) && Concrete(r.nodes, x)
    ensures Returns(IsFunctions(r), x, kind, b) <==> Returns(IsFunctions(s), x, kind, b)
  {
    IsExact(r, x, kind, |r.nodes| + 1);
    IsExact(s, x, kind, |r.nodes| + 1);
    var answer := Reaches(r.nodes, kind, x);
    assert Returns(IsFunctions(r), x, kind, answer) && Returns(IsFunctions(s), x, kind, answer);
    ReturnsUnique(IsFunctions(r), x, kind);
    ReturnsUnique(IsFunctions(s), x, kind);
  }

  lemma {:induction false} BuildReadable(ds: seq<Decl>, reg: Registry)
    requires Readable(reg) && forall i :: 0 <= i < |ds| ==> ValidDecl(ds[i])
    ensures Readable(Build(ds, reg))
  {
    if ds != [] {
      DeclareKeepsReadable(reg, ds[0].name, ds[0].parent);
      BuildReadable(ds[1..], Block(reg, ds[0]));
    }
  }

  /** The same for the class tests: each returns the same answer on every kind. */
  lemma TestsSurvivePermutation(ds: seq<Decl>, es: seq<Decl>, x: string, kind: string, b: bool)
    requires multiset(ds) == multiset(es) && DistinctNames(ds)
    requires forall i :: 0 <= i < |ds| ==> ValidDecl(ds[i])
    requires AllRooted(Build(ds, EMPTY).nodes) && Concrete(Build(ds, EMPTY).nodes, x)
    ensures Returns(IsFunctions(Build(ds, EMPTY)), x, kind, b) <==> Returns(IsFunctions(Build(es, EMPTY)), x, kind, b)
  {
    OrderIrrelevant(ds, es);
    var r, s := Build(ds, EMPTY), Build(es, EMPTY);
    forall i | 0 <= i < |es| ensures ValidDecl(es[i]) {
      assert es[i] in multiset(ds);
    }
    BuildReadable(ds, EMPTY);
    BuildReadable(es, EMPTY);
    BuildRepresents(ds);
    BuildRepresents(es);
    DistinctNamesClimb(r, ds);
    DistinctNamesClimb(s, es);
    TestsOrderIrrelevant(r, s, x, kind, b);
  }
}
