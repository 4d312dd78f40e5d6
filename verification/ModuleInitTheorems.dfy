/** The promises of Initialize_World, and where the code falls short of them. */
module ModuleInitTheorems {
  import opened ModuleInit
  import opened ModuleInitProofs

  /** No enabled real module has an Init procedure that raises an exception. */
  predicate NothingRaises(w: World) {
    forall m :: 0 <= m < |w| && w[m].enabled && !w[m].virtual ==> !w[m].raises
  }

  lemma StartIsFine(w: World)
    ensures Inv(w, START)
  {
    forall m ensures FlagRight(w, START, m) {}
  }

  /** A successful run completes every module once, each after all of its
      dependencies, initialises exactly the modules that come up, and met no
      cycle and no raising Init. */
  lemma SuccessMeansOrdered(w: World)
    requires Valid(w) && Run(w).1 == Ok
    ensures var st := Run(w).0;
      && Topological(w, st.done) && (forall m :: 0 <= m < |w| ==> m in st.done)
      && st.order == Calls(w, st.done) && st.shutdown == Shutdowns(w, st.order)
      && (forall m :: 0 <= m < |w| ==> (m in st.initialized <==> Up(w, m)))
    ensures !HasCycle(w) && NothingRaises(w)
  {
    StartIsFine(w);
    RunKeeps(w, START, 0);
    InvMeansOrdered(w, Run(w).0);
    CompleteOrderHasNoCycle(w, Run(w).0.done);
  }

  lemma InvMeansOrdered(w: World, st: St)
    requires Valid(w) && Inv(w, st) && forall m :: 0 <= m < |w| ==> m in st.done
    ensures forall m :: 0 <= m < |w| ==> (m in st.initialized <==> Up(w, m))
    ensures NothingRaises(w)
  {
    forall m | 0 <= m < |w| ensures m in st.initialized <==> Up(w, m) {
      assert m in st.done;
      var i :| 0 <= i < |st.done| && st.done[i] == m;
      InitializedIffUp(w, st, i);
    }
  }

  lemma CompleteOrderHasNoCycle(w: World, done: seq<nat>)
    requires Topological(w, done) && forall m :: 0 <= m < |w| ==> m in done
    ensures !HasCycle(w)
  {
    if HasCycle(w) {
      var p :| |p| > 1 && IsPath(w, p) && p[0] == p[|p| - 1];
      assert Edge(w, p[0], p[1]);
      PathPrecedes(w, done, p);
    }
  }

  /** Whenever a module depends on another, directly or through any chain of real,
      virtual, optional or disabled modules, and the Init procedures of both are
      called, the dependency's is called first; and each is called exactly once. */
  lemma InitAfterDependencies(w: World, p: seq<nat>)
    requires Valid(w) && Run(w).1 == Ok
    requires |p| > 1 && IsPath(w, p) && Called(w, p[0]) && Called(w, p[|p| - 1])
    ensures Precedes(Run(w).0.order, p[|p| - 1], p[0])
    ensures !Precedes(Run(w).0.order, p[0], p[|p| - 1])
  {
    SuccessMeansOrdered(w);
    var done := Run(w).0.done;
    PathPrecedes(w, done, p);
    CallsOrder(w, done, p[|p| - 1], p[0]);
    CallsOrder(w, done, p[0], p[|p| - 1]);
  }

  lemma EachCalledOnce(w: World, m: nat)
    requires Valid(w) && Run(w).1 == Ok && m < |w|
    ensures m in Run(w).0.order <==> w[m].enabled && !w[m].virtual
    ensures !Precedes(Run(w).0.order, m, m)
  {
    SuccessMeansOrdered(w);
    var done := Run(w).0.done;
    CallsMembers(w, done, m);
    if Called(w, m) {
      CallsOrder(w, done, m, m);
    }
  }

  /** A dependent module is shut down before what it depends on. */
  lemma ShutdownBeforeDependencies(w: World, p: seq<nat>)
    requires Valid(w) && Run(w).1 == Ok
    requires |p| > 1 && IsPath(w, p) && Called(w, p[0]) && Called(w, p[|p| - 1])
    requires w[p[0]].hasShutdown && w[p[|p| - 1]].hasShutdown
    ensures Precedes(Run(w).0.shutdown, p[0], p[|p| - 1])
  {
    SuccessMeansOrdered(w);
    InitAfterDependencies(w, p);
    ShutdownReverses(w, Run(w).0.order, p[|p| - 1], p[0]);
  }

  /** A run fails only for a reason: a cycle, a mandatory dependency that does not
      come up, or an Init that raises. So with none of these it succeeds. */
  lemma FailuresAreJustified(w: World)
    requires Valid(w)
    ensures Justified(w, Run(w).1)
    ensures !HasCycle(w) && (forall m: nat, d: nat :: HardDep(w, m, d) && d < |w| ==> Up(w, d))
      && NothingRaises(w)
      ==> Run(w).1 == Ok
  {
    StartIsFine(w);
    RunJustified(w, START, 0);
  }

  /** Exactly when initialisation succeeds with every mandatory dependency of every real
      module initialised: no cycle anywhere, even through optional or disabled modules,
      no raising Init, and no mandatory dependency that stays down. */
  lemma MetInFullIff(w: World)
    requires Valid(w)
    ensures Run(w).1 == Ok && (forall m: nat, d: nat :: HardDep(w, m, d) ==> d in Run(w).0.initialized)
      <==> !HasCycle(w) && NothingRaises(w) && (forall m: nat, d: nat :: HardDep(w, m, d) && d < |w| ==> Up(w, d))
  {
    FailuresAreJustified(w);
    if Run(w).1 == Ok {
      SuccessMeansOrdered(w);
      forall m: nat, d: nat | HardDep(w, m, d) ensures d < |w| {
        var e :| 0 <= e < |w[m].deps| && w[m].deps[e] == Dep(d, false);
        assert w[m].deps[e].target < |w|;
      }
    }
  }

  /** After a successful run the mandatory dependencies of real modules are all
      initialised exactly when none of them is a dead virtual module. */
  lemma DependenciesMetIff(w: World)
    requires Valid(w) && Run(w).1 == Ok
    ensures (forall m: nat, d: nat :: HardDep(w, m, d) ==> d in Run(w).0.initialized)
      <==> (forall m: nat, d: nat :: HardDep(w, m, d) && d < |w| ==> !DeadVirtual(w, d))
  {
    var st := Run(w).0;
    SuccessMeansOrdered(w);
    StartIsFine(w);
    RunKeeps(w, START, 0);
    forall m: nat, d: nat | HardDep(w, m, d)
      ensures d < |w| && (d in st.initialized <==> !DeadVirtual(w, d))
    {
      var e :| 0 <= e < |w[m].deps| && w[m].deps[e] == Dep(d, false);
      assert w[m].deps[e].target < |w|;
      assert m in st.done && d in st.done;
      assert Settled(w, st, w[m].deps[e]);
      assert FlagRight(w, st, d);
    }
  }

  // ---------------------------------------------------------------- the unmet dependency

  /** Modules 0 and 1 both need virtual module 3, the first optionally; the only
      provider, 2, is disabled. */
  const UNMET: World := [
    Module(false, [Dep(3, true)], true, false, false),
    Module(false, [Dep(3, false)], true, false, false),
    Module(false, [], false, false, false),
    Module(true, [Dep(2, false)], true, false, false)]

  const S0 := St({}, {}, {0}, [], [], [])
  const S1 := St({3}, {}, {0}, [], [], [2, 3])
  const S2 := St({0, 3}, {0}, {}, [0], [], [2, 3, 0])
  const S3 := St({0, 1, 3}, {0, 1}, {}, [0, 1], [], [2, 3, 0, 1])

  lemma VisitProvider(st: St)
    requires st.inProgress <= Indices(UNMET) && 2 !in st.inProgress && 2 !in st.visited
    ensures Visit(UNMET, st, 2) == (st.(done := if 2 in st.done then st.done else st.done + [2]), Ok)
  {
    var st0 := st.(inProgress := st.inProgress + {2});
    assert VisitDeps(UNMET, st0, 2, 0, false) == (st0, Ok, false);
    assert st0.inProgress - {2} == st.inProgress;
  }

  lemma VisitDeadVirtual()
    ensures Visit(UNMET, S0, 3) == (S1, Ok)
  {
    var st := S0.(inProgress := S0.inProgress + {3});
    var st1 := st.(done := [2]);
    VisitProvider(st);
    assert st.done + [2] == [2];
    assert VisitDeps(UNMET, st1, 3, 1, false) == (st1, Ok, false);
    assert VisitDeps(UNMET, st, 3, 0, false) == (st1, Ok, false);
    var b := Complete(UNMET, st1, 3, false).0;
    assert b.inProgress == {0} && b.done == [2, 3] && b.visited == {3} && b.initialized == {};
  }

  lemma VisitOptionalDependent()
    ensures Visit(UNMET, START, 0) == (S2, Ok)
  {
    VisitDeadVirtual();
    assert START.(inProgress := START.inProgress + {0}) == S0;
    assert VisitDeps(UNMET, S1, 0, 1, false) == (S1, Ok, false);
    assert VisitDeps(UNMET, S0, 0, 0, false) == (S1, Ok, false);
    var c := Complete(UNMET, S1, 0, false).0;
    assert c.visited == {0, 3} && c.initialized == {0} && c.inProgress == {} && c.done == [2, 3, 0] && c.order == [0];
  }

  lemma VisitMandatoryDependent()
    ensures Visit(UNMET, S2, 1) == (S3, Ok)
  {
    var st := S2.(inProgress := S2.inProgress + {1});
    assert VisitDeps(UNMET, st, 1, 1, false) == (st, Ok, false);
    assert VisitDeps(UNMET, st, 1, 0, false) == (st, Ok, false);
    var d := Complete(UNMET, st, 1, false).0;
    assert d.visited == {0, 1, 3} && d.initialized == {0, 1} && d.inProgress == {} && d.done == [2, 3, 0, 1] && d.order == [0, 1];
  }

  /** The run succeeds and initialises module 1 although its mandatory dependency
      is not initialised: the traversal had already visited it for module 0. */
  lemma UnmetDependencyAccepted()
    ensures Valid(UNMET) && Run(UNMET) == (S3, Ok)
    ensures HardDep(UNMET, 1, 3) && 1 in S3.initialized && 3 !in S3.initialized
  {
    assert UNMET[1].deps[0] == Dep(3, false);
    RunTail();
    assert RunFrom(UNMET, S2, 1) == RunFrom(UNMET, S3, 2) by {
      VisitMandatoryDependent();
    }
    assert RunFrom(UNMET, START, 0) == RunFrom(UNMET, S2, 1) by {
      VisitOptionalDependent();
    }
  }

  lemma RunTail()
    ensures RunFrom(UNMET, S3, 2) == (S3, Ok)
  {
    assert RunFrom(UNMET, S3, 3) == RunFrom(UNMET, S3, 4) == (S3, Ok);
    VisitProvider(S3);
  }
}
