/** The generated `Is_X` functions. Each is a disjunction of one kind comparison
    and calls of the `Is_` functions of the listed children, so the generated
    tests are mutually recursive through the `children` dictionary, while what
    they should decide is the `parent` relation. */
module ClassTests {
  import opened Text
  import opened SchemaReader
  import opened Inheritance
  import opened FieldTables
  import opened SchemaRoundTrip

  /** `return Kind (N) = K_<kind> or else Is_<calls [0]> (N) ... or else False` */
  datatype IsFunction = IsFunction(kind: string, calls: seq<string>)

  predicate Concrete(nodes: Nodes, k: string) {
    k in nodes && k != ROOT
  }

  function IsFunctions(reg: Registry): map<string, IsFunction> {
    map k | k in reg.nodes && k != ROOT :: IsFunction(k, ChildrenOf(reg, k))
  }

  /** Evaluation with a bound on the call depth; None when the bound is exceeded
      or an undefined function is called. `or else` stops at the first True. */
  function EvalIs(fns: map<string, IsFunction>, x: string, kind: string, fuel: nat): Option<bool>
    decreases fuel, 0
  {
    if fuel == 0 || x !in fns then None
    else if kind == fns[x].kind then Some(true)
    else EvalCalls(fns, fns[x].calls, kind, fuel - 1)
  }

  function EvalCalls(fns: map<string, IsFunction>, calls: seq<string>, kind: string, fuel: nat): Option<bool>
    decreases fuel, |calls| + 1
  {
    if calls == [] then Some(false)
    else
      var first := EvalIs(fns, calls[0], kind, fuel);
      if first == Some(false) then EvalCalls(fns, calls[1..], kind, fuel) else first
  }

  /** The call returns `b`, at every sufficiently large call depth. */
  ghost predicate Returns(fns: map<string, IsFunction>, x: string, kind: string, b: bool) {
    exists fuel: nat :: EvalIs(fns, x, kind, fuel) == Some(b)
  }

  /** Every generated test returns, with the answer the parent links give. */
  ghost predicate TestsExact(reg: Registry) {
    forall x, kind :: Concrete(reg.nodes, x) ==>
      Returns(IsFunctions(reg), x, kind, Reaches(reg.nodes, kind, x))
  }

  /** Every entry of a `children` list properly descends from the list's owner. */
  ghost predicate EdgesClimb(reg: Registry) {
    forall p, c :: Concrete(reg.nodes, p) && c in ChildrenOf(reg, p) ==> c != p && Reaches(reg.nodes, c, p)
  }

  // ---------------------------------------------------------------- the root

  lemma {:induction false} RootIsTop(reg: Registry, k: string)
    requires Readable(reg) && Rooted(reg.nodes, k)
    ensures ROOT in reg.nodes && reg.nodes[ROOT].parent.None?
    decreases Depth(reg.nodes, k, {})
  {
    if reg.nodes[k].parent.Some? {
      StepUp(reg.nodes, k);
      RootIsTop(reg, reg.nodes[k].parent.value);
    }
  }

  lemma DescendantIsConcrete(reg: Registry, c: string, p: string)
    requires Readable(reg) && AllRooted(reg.nodes)
    requires Concrete(reg.nodes, p) && Reaches(reg.nodes, c, p)
    ensures Concrete(reg.nodes, c)
  {
    RootIsTop(reg, p);
    var n: nat :| Ancestor(reg.nodes, c, n) == Some(p);
  }

  // ---------------------------------------------------------------- sufficiency

  /** The children list covers exactly the proper descendants. */
  lemma BelowIffBelowChild(reg: Registry, x: string, kind: string)
    requires Readable(reg) && EdgesClimb(reg) && Concrete(reg.nodes, x) && kind != x
    ensures var calls := ChildrenOf(reg, x);
      Reaches(reg.nodes, kind, x) <==> exists i :: 0 <= i < |calls| && Reaches(reg.nodes, kind, calls[i])
  {
    var calls := ChildrenOf(reg, x);
    if Reaches(reg.nodes, kind, x) {
      var c := LastStep(reg.nodes, kind, x);
      assert c in calls;
      var i :| 0 <= i < |calls| && calls[i] == c;
    } else {
      forall i | 0 <= i < |calls| ensures !Reaches(reg.nodes, kind, calls[i]) {
        if Reaches(reg.nodes, kind, calls[i]) {
          ReachesTransitive(reg.nodes, kind, calls[i], x);
        }
      }
    }
  }

  lemma {:induction false} CallsExact(reg: Registry, x: string, calls: seq<string>, kind: string, fuel: nat)
    requires Readable(reg) && AllRooted(reg.nodes) && EdgesClimb(reg)
    requires Concrete(reg.nodes, x) && fuel + 1 + Depth(reg.nodes, x, {}) > |reg.nodes|
    requires forall i :: 0 <= i < |calls| ==> calls[i] in ChildrenOf(reg, x)
    ensures EvalCalls(IsFunctions(reg), calls, kind, fuel)
         == Some(exists i :: 0 <= i < |calls| && Reaches(reg.nodes, kind, calls[i]))
    decreases fuel, |calls| + 1
  {
    if calls != [] {
      var c := calls[0];
      DescendantIsConcrete(reg, c, x);
      InheritedPrefix(reg.nodes, c, x);
      IsExact(reg, c, kind, fuel);
      CallsExact(reg, x, calls[1..], kind, fuel);
      assert forall i :: 1 <= i < |calls| ==> calls[i] == calls[1..][i - 1];
    }
  }

  /** If the edges climb, a call depth of one more than the number of nodes is
      always enough, and the answer is whether `kind` is `x` or descends from it. */
  lemma {:induction false} IsExact(reg: Registry, x: string, kind: string, fuel: nat)
    requires Readable(reg) && AllRooted(reg.nodes) && EdgesClimb(reg)
    requires Concrete(reg.nodes, x) && fuel + Depth(reg.nodes, x, {}) > |reg.nodes|
    ensures EvalIs(IsFunctions(reg), x, kind, fuel) == Some(Reaches(reg.nodes, kind, x))
    decreases fuel, 0
  {
    DepthBound(reg.nodes, x, {});
    assert reg.nodes.Keys - {} == reg.nodes.Keys;
    if kind == x {
      assert Ancestor(reg.nodes, x, 0) == Some(x);
    } else {
      var calls := ChildrenOf(reg, x);
      CallsExact(reg, x, calls, kind, fuel - 1);
      BelowIffBelowChild(reg, x, kind);
    }
  }

  // ---------------------------------------------------------------- necessity

  /** More call depth never changes a returned answer. */
  lemma {:induction false} FuelMonotone(fns: map<string, IsFunction>, x: string, kind: string, f: nat, g: nat)
    requires f <= g && EvalIs(fns, x, kind, f).Some?
    ensures EvalIs(fns, x, kind, g) == EvalIs(fns, x, kind, f)
    decreases f, 0
  {
    if kind != fns[x].kind {
      CallsMonotone(fns, fns[x].calls, kind, f - 1, g - 1);
    }
  }

  lemma {:induction false} CallsMonotone(fns: map<string, IsFunction>, calls: seq<string>, kind: string, f: nat, g: nat)
    requires f <= g && EvalCalls(fns, calls, kind, f).Some?
    ensures EvalCalls(fns, calls, kind, g) == EvalCalls(fns, calls, kind, f)
    decreases f, |calls| + 1
  {
    if calls != [] {
      FuelMonotone(fns, calls[0], kind, f, g);
      if EvalIs(fns, calls[0], kind, f) == Some(false) {
        CallsMonotone(fns, calls[1..], kind, f, g);
      }
    }
  }

  /** A False answer needs a False answer from every call. */
  lemma {:induction false} FalseNeedsAll(fns: map<string, IsFunction>, calls: seq<string>, kind: string, fuel: nat, c: string)
    requires EvalCalls(fns, calls, kind, fuel) == Some(false) && c in calls
    ensures EvalIs(fns, c, kind, fuel) == Some(false)
    decreases |calls|
  {
    if c != calls[0] {
      assert c in calls[1..];
      FalseNeedsAll(fns, calls[1..], kind, fuel, c);
    }
  }

  /** A test that calls itself never answers False. */
  lemma {:induction false} SelfCallNeverFalse(fns: map<string, IsFunction>, x: string, kind: string, fuel: nat)
    requires x in fns && x in fns[x].calls && kind != fns[x].kind
    ensures EvalIs(fns, x, kind, fuel) != Some(false)
    decreases fuel
  {
    if fuel > 0 && EvalIs(fns, x, kind, fuel) == Some(false) {
      FalseNeedsAll(fns, fns[x].calls, kind, fuel - 1, x);
      SelfCallNeverFalse(fns, x, kind, fuel - 1);
    }
  }

  lemma ReturnsUnique(fns: map<string, IsFunction>, x: string, kind: string)
    ensures !(Returns(fns, x, kind, true) && Returns(fns, x, kind, false))
  {
    if Returns(fns, x, kind, true) && Returns(fns, x, kind, false) {
      var f: nat :| EvalIs(fns, x, kind, f) == Some(true);
      var g: nat :| EvalIs(fns, x, kind, g) == Some(false);
      FuelMonotone(fns, x, kind, f, f + g);
      FuelMonotone(fns, x, kind, g, f + g);
    }
  }

  lemma ExactEdgeClimbs(reg: Registry, p: string, c: string)
    requires Readable(reg) && TestsExact(reg)
    requires Concrete(reg.nodes, p) && c in ChildrenOf(reg, p)
    ensures c != p && Reaches(reg.nodes, c, p)
  {
    var fns := IsFunctions(reg);
    // the empty kind descends from nothing, so every test must answer False on it
    assert Returns(fns, p, "", Reaches(reg.nodes, "", p));
    assert !Reaches(reg.nodes, "", p);
    var f: nat :| EvalIs(fns, p, "", f) == Some(false);
    FalseNeedsAll(fns, fns[p].calls, "", f - 1, c);
    assert Concrete(reg.nodes, c);
    if c == p {
      SelfCallNeverFalse(fns, p, "", f);
    }
    if !Reaches(reg.nodes, c, p) {
      assert Returns(fns, p, c, false);
      var g: nat :| EvalIs(fns, p, c, g) == Some(false);
      FalseNeedsAll(fns, fns[p].calls, c, g - 1, c);
    }
  }

  /** The generated class tests are right exactly when every `children` entry
      properly descends from the node it is listed under. */
  lemma TestsExactIff(reg: Registry)
    requires Readable(reg) && AllRooted(reg.nodes)
    ensures TestsExact(reg) <==> EdgesClimb(reg)
  {
    if EdgesClimb(reg) {
      forall x, kind | Concrete(reg.nodes, x)
        ensures Returns(IsFunctions(reg), x, kind, Reaches(reg.nodes, kind, x))
      {
        IsExact(reg, x, kind, |reg.nodes| + 1);
      }
    }
    if TestsExact(reg) {
      forall p, c | Concrete(reg.nodes, p) && c in ChildrenOf(reg, p)
        ensures c != p && Reaches(reg.nodes, c, p)
      {
        ExactEdgeClimbs(reg, p, c);
      }
    }
  }

  // ---------------------------------------------------------------- distinct names suffice

  lemma {:induction false} ChildNamesOrigin(ds: seq<Decl>, p: string, c: string) returns (i: int)
    requires c in ChildNames(ds, p)
    ensures 0 <= i < |ds| && ds[i].name == c && DeclNode(ds[i]).parent == Some(p)
  {
    if DeclNode(ds[0]).parent == Some(p) && ds[0].name == c {
      i := 0;
    } else {
      i := ChildNamesOrigin(ds[1..], p, c);
      i := i + 1;
    }
  }

  lemma DistinctNamesClimb(reg: Registry, ds: seq<Decl>)
    requires Represents(reg, ds) && AllRooted(reg.nodes)
    ensures EdgesClimb(reg)
  {
    forall p, c | Concrete(reg.nodes, p) && c in ChildrenOf(reg, p)
      ensures c != p && Reaches(reg.nodes, c, p)
    {
      var i := ChildNamesOrigin(ds, p, c);
      assert reg.nodes[c] == DeclNode(ds[i]);
      assert Ancestor(reg.nodes, p, 0) == Some(p);
      assert Ancestor(reg.nodes, c, 1) == Some(p);
      if c == p {
        StepUp(reg.nodes, p);
      }
    }
  }
}
