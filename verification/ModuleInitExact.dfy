/** Exactly when Initialize_World succeeds. What a mandatory dependency demands is only
    checked at the edge through which the traversal enters the module, so success is
    decided by those edges: they are computed here on the softened world, in which every
    dependency is optional and the traversal never stops for an unresolved one. */
module ModuleInitExact {
  import opened ModuleInit
  import opened ModuleInitProofs
  import opened ModuleInitTheorems

  function SoftDeps(deps: seq<Dep>): (r: seq<Dep>)
    ensures |r| == |deps| && forall e :: 0 <= e < |r| ==> r[e] == Dep(deps[e].target, true)
  {
    seq(|deps|, e requires 0 <= e < |deps| => Dep(deps[e].target, true))
  }

  function Soft(w: World): (v: World)
    ensures |v| == |w| && forall m :: 0 <= m < |w| ==> v[m] == w[m].(deps := SoftDeps(w[m].deps))
    ensures Valid(w) ==> Valid(v)
  {
    seq(|w|, m requires 0 <= m < |w| => w[m].(deps := SoftDeps(w[m].deps)))
  }

  lemma SameIndices(w: World)
    ensures Indices(Soft(w)) == Indices(w)
  {
    assert forall m: nat :: m in Indices(w) <==> m < |w|;
    assert forall m: nat :: m in Indices(Soft(w)) <==> m < |w|;
  }

  // ---------------------------------------------------------------- what softening keeps

  lemma SoftEdge(w: World, m: nat, d: nat)
    ensures Edge(Soft(w), m, d) <==> Edge(w, m, d)
  {
    if m < |w| {
      var v := Soft(w);
      assert v[m].deps == SoftDeps(w[m].deps);
      assert forall i :: 0 <= i < |w[m].deps| ==> v[m].deps[i].target == w[m].deps[i].target;
    }
  }

  lemma SoftPath(w: World, p: seq<nat>)
    ensures IsPath(Soft(w), p) <==> IsPath(w, p)
  {
    forall i | 0 <= i < |p| - 1 ensures Edge(Soft(w), p[i], p[i + 1]) <==> Edge(w, p[i], p[i + 1]) {
      SoftEdge(w, p[i], p[i + 1]);
    }
  }

  lemma SoftCycle(w: World)
    ensures HasCycle(Soft(w)) <==> HasCycle(w)
  {
    if p :| |p| > 1 && IsPath(w, p) && p[0] == p[|p| - 1] {
      SoftPath(w, p);
    }
    if p :| |p| > 1 && IsPath(Soft(w), p) && p[0] == p[|p| - 1] {
      SoftPath(w, p);
    }
  }

  lemma {:induction false} SoftUpWithin(w: World, m: nat, n: nat)
    requires Valid(w) && m < |w|
    ensures UpWithin(Soft(w), m, n) <==> UpWithin(w, m, n)
    decreases n
  {
    var v := Soft(w);
    if n > 0 {
      forall i | 0 <= i < |w[m].deps|
        ensures UpWithin(v, v[m].deps[i].target, n - 1) <==> UpWithin(w, w[m].deps[i].target, n - 1)
      {
        SoftUpWithin(w, w[m].deps[i].target, n - 1);
      }
    }
  }

  lemma SoftUp(w: World, m: nat)
    requires Valid(w) && m < |w|
    ensures Up(Soft(w), m) <==> Up(w, m)
  {
    forall n: nat ensures UpWithin(Soft(w), m, n) <==> UpWithin(w, m, n) {
      SoftUpWithin(w, m, n);
    }
  }

  /** The softened run succeeds exactly when there is no cycle and nothing raises. */
  lemma SoftSucceedsIff(w: World)
    requires Valid(w)
    ensures Run(Soft(w)).1 == Ok <==> !HasCycle(w) && NothingRaises(w)
  {
    var v := Soft(w);
    SoftCycle(w);
    FailuresAreJustified(v);
    assert NothingRaises(v) <==> NothingRaises(w) by {
      assert forall m :: 0 <= m < |w| ==> v[m].enabled == w[m].enabled && v[m].virtual == w[m].virtual && v[m].raises == w[m].raises;
    }
    forall m: nat, d: nat ensures !HardDep(v, m, d) {
    }
    if Run(v).1 == Ok {
      SuccessMeansOrdered(v);
    }
  }

  // ---------------------------------------------------------------- the edges of entry

  /** The mandatory edges through which the softened visit of `m` enters a module. */
  ghost function Entered(w: World, st: St, m: nat): set<(nat, nat)>
    requires Valid(w) && m < |w| && st.inProgress <= Indices(w)
    decreases Indices(w) - st.inProgress, 0
  {
    if m in st.inProgress then {}
    else
      assert m in Indices(w);
      EnteredDeps(w, st.(inProgress := st.inProgress + {m}), m, 0)
  }

  ghost function EnteredDeps(w: World, st: St, m: nat, i: nat): set<(nat, nat)>
    requires Valid(w) && m < |w| && st.inProgress <= Indices(w) && i <= |w[m].deps|
    decreases Indices(w) - st.inProgress, |w[m].deps| - i + 1
  {
    if i == |w[m].deps| then {}
    else
      var d := w[m].deps[i];
      if d.target in st.visited then EnteredDeps(w, st, m, i + 1)
      else
        SameIndices(w);
        var (st1, out) := Visit(Soft(w), st, d.target);
        (if d.optional || w[m].virtual then {} else {(m, d.target)}) + Entered(w, st, d.target) +
        if out == Ok then EnteredDeps(w, st1, m, i + 1) else {}
  }

  ghost function EnteredFrom(w: World, st: St, k: nat): set<(nat, nat)>
    requires Valid(w) && k <= |w| && st.inProgress <= Indices(w)
    decreases |w| - k
  {
    if k == |w| then {}
    else if k in st.visited then EnteredFrom(w, st, k + 1)
    else
      SameIndices(w);
      var (st1, out) := Visit(Soft(w), st, k);
      Entered(w, st, k) + if out == Ok then EnteredFrom(w, st1, k + 1) else {}
  }

  ghost predicate AllUp(w: World, edges: set<(nat, nat)>)
    requires Valid(w)
  {
    forall m, d :: (m, d) in edges ==> d < |w| && Up(w, d)
  }

  lemma AllUpUnion(w: World, a: set<(nat, nat)>, b: set<(nat, nat)>)
    requires Valid(w)
    ensures AllUp(w, a + b) <==> AllUp(w, a) && AllUp(w, b)
  {
  }

  ghost predicate AllHard(w: World, edges: set<(nat, nat)>) {
    forall m, d :: (m, d) in edges ==> HardDep(w, m, d)
  }

  /** The edges of entry are mandatory dependencies of the graph. */
  lemma {:induction false} EnteredAreHard(w: World, st: St, m: nat)
    requires Valid(w) && m < |w| && st.inProgress <= Indices(w) && Indices(Soft(w)) == Indices(w)
    ensures AllHard(w, Entered(w, st, m))
    decreases Indices(w) - st.inProgress, 0
  {
    if m !in st.inProgress {
      assert m in Indices(w);
      EnteredDepsAreHard(w, st.(inProgress := st.inProgress + {m}), m, 0);
    }
  }

  lemma {:induction false} EnteredDepsAreHard(w: World, st: St, m: nat, i: nat)
    requires Valid(w) && m < |w| && st.inProgress <= Indices(w) && Indices(Soft(w)) == Indices(w) && i <= |w[m].deps|
    ensures AllHard(w, EnteredDeps(w, st, m, i))
    decreases Indices(w) - st.inProgress, |w[m].deps| - i + 1
  {
    if i < |w[m].deps| {
      var d := w[m].deps[i];
      if d.target in st.visited {
        EnteredDepsAreHard(w, st, m, i + 1);
      } else {
        var (st1, out) := Visit(Soft(w), st, d.target);
        EnteredAreHard(w, st, d.target);
        if out == Ok {
          EnteredDepsAreHard(w, st1, m, i + 1);
        }
        assert !d.optional ==> w[m].deps[i] == Dep(d.target, false);
      }
    }
  }

  lemma {:induction false} EnteredFromAreHard(w: World, st: St, k: nat)
    requires Valid(w) && k <= |w| && st.inProgress <= Indices(w) && Indices(Soft(w)) == Indices(w)
    ensures AllHard(w, EnteredFrom(w, st, k))
    decreases |w| - k
  {
    if k < |w| {
      if k in st.visited {
        EnteredFromAreHard(w, st, k + 1);
      } else {
        var (st1, out) := Visit(Soft(w), st, k);
        EnteredAreHard(w, st, k);
        if out == Ok {
          EnteredFromAreHard(w, st1, k + 1);
        }
      }
    }
  }

  // ---------------------------------------------------------------- agreement

  lemma {:induction false} VisitAgrees(w: World, st: St, m: nat)
    requires Valid(w) && m < |w| && st.inProgress <= Indices(w) && Indices(Soft(w)) == Indices(w)
    requires Inv(Soft(w), st) && m !in st.visited && Visit(Soft(w), st, m).1 == Ok
    ensures AllUp(w, Entered(w, st, m)) ==> Visit(w, st, m) == Visit(Soft(w), st, m)
    ensures !AllUp(w, Entered(w, st, m)) ==> Visit(w, st, m).1 != Ok
    decreases Indices(w) - st.inProgress, 0
  {
    assert m in Indices(w);
    EnterKeeps(Soft(w), st, m);
    DepsAgree(w, st.(inProgress := st.inProgress + {m}), m, 0, false);
  }

  lemma {:induction false} DepsAgree(w: World, st: St, m: nat, i: nat, one: bool)
    requires Valid(w) && m < |w| && st.inProgress <= Indices(w) && Indices(Soft(w)) == Indices(w) && i <= |w[m].deps|
    requires Inv(Soft(w), st) && VisitDeps(Soft(w), st, m, i, one).1 == Ok
    ensures AllUp(w, EnteredDeps(w, st, m, i)) ==> VisitDeps(w, st, m, i, one) == VisitDeps(Soft(w), st, m, i, one)
    ensures !AllUp(w, EnteredDeps(w, st, m, i)) ==> VisitDeps(w, st, m, i, one).1 != Ok
    decreases Indices(w) - st.inProgress, 2 * (|w[m].deps| - i) + 1
  {
    if i < |w[m].deps| {
      var d := w[m].deps[i];
      if d.target in st.visited {
        DepsAgree(w, st, m, i + 1, one || d.target in st.initialized);
      } else {
        EntryAgrees(w, st, m, i, one);
      }
    }
  }

  /** Whether the check at the i-th dependency lets the loop go on. */
  ghost predicate Passes(w: World, m: nat, i: nat)
    requires Valid(w) && m < |w| && i < |w[m].deps|
  {
    w[m].deps[i].optional || w[m].virtual || Up(w, w[m].deps[i].target)
  }

  lemma EnteredSplits(w: World, st: St, m: nat, i: nat)
    requires Valid(w) && m < |w| && st.inProgress <= Indices(w) && Indices(Soft(w)) == Indices(w) && i < |w[m].deps|
    requires w[m].deps[i].target !in st.visited && Visit(Soft(w), st, w[m].deps[i].target).1 == Ok
    ensures var d := w[m].deps[i].target;
      AllUp(w, EnteredDeps(w, st, m, i)) <==>
        Passes(w, m, i) && AllUp(w, Entered(w, st, d)) && AllUp(w, EnteredDeps(w, Visit(Soft(w), st, d).0, m, i + 1))
  {
    var d := w[m].deps[i];
    var st1 := Visit(Soft(w), st, d.target).0;
    var here := if d.optional || w[m].virtual then {} else {(m, d.target)};
    AllUpUnion(w, here, Entered(w, st, d.target));
    AllUpUnion(w, here + Entered(w, st, d.target), EnteredDeps(w, st1, m, i + 1));
    assert AllUp(w, here) <==> Passes(w, m, i) by {
      assert !(d.optional || w[m].virtual) ==> (m, d.target) in here;
    }
  }

  /** The step of the loop that enters the i-th dependency. */
  lemma {:induction false} EntryAgrees(w: World, st: St, m: nat, i: nat, one: bool)
    requires Valid(w) && m < |w| && st.inProgress <= Indices(w) && Indices(Soft(w)) == Indices(w) && i < |w[m].deps|
    requires Inv(Soft(w), st) && VisitDeps(Soft(w), st, m, i, one).1 == Ok && w[m].deps[i].target !in st.visited
    ensures AllUp(w, EnteredDeps(w, st, m, i)) ==> VisitDeps(w, st, m, i, one) == VisitDeps(Soft(w), st, m, i, one)
    ensures !AllUp(w, EnteredDeps(w, st, m, i)) ==> VisitDeps(w, st, m, i, one).1 != Ok
    decreases Indices(w) - st.inProgress, 2 * (|w[m].deps| - i)
  {
    var d := w[m].deps[i].target;
    var st1 := Visit(Soft(w), st, d).0;
    var one1 := one || d in st1.initialized;
    EnteredFlag(w, st, d);
    EnteredSplits(w, st, m, i);
    VisitAgrees(w, st, d);
    DepsAgree(w, st1, m, i + 1, one1);
    SoftContinues(w, st, m, i, one);
    HardContinues(w, st, m, i, one);
  }

  lemma SoftContinues(w: World, st: St, m: nat, i: nat, one: bool)
    requires Valid(w) && m < |w| && st.inProgress <= Indices(Soft(w)) && i < |w[m].deps|
    requires w[m].deps[i].target !in st.visited && Visit(Soft(w), st, w[m].deps[i].target).1 == Ok
    ensures var d := w[m].deps[i].target; var st1 := Visit(Soft(w), st, d).0;
      VisitDeps(Soft(w), st, m, i, one) == VisitDeps(Soft(w), st1, m, i + 1, one || d in st1.initialized)
  {
  }

  /** The real loop goes on, fails in the visit, or fails at the check. */
  lemma HardContinues(w: World, st: St, m: nat, i: nat, one: bool)
    requires Valid(w) && m < |w| && st.inProgress <= Indices(w) && i < |w[m].deps| && w[m].deps[i].target !in st.visited
    ensures var d := w[m].deps[i].target; var (st1, out) := Visit(w, st, d); var r := VisitDeps(w, st, m, i, one);
      && (out != Ok ==> r.1 != Ok)
      && (out == Ok && !(w[m].deps[i].optional || w[m].virtual || d in st1.initialized) ==> r.1 != Ok)
      && (out == Ok && (w[m].deps[i].optional || w[m].virtual || d in st1.initialized) ==>
            r == VisitDeps(w, st1, m, i + 1, one || d in st1.initialized))
  {
  }

  lemma EnteredFlag(w: World, st: St, d: nat)
    requires Valid(w) && d < |w| && st.inProgress <= Indices(Soft(w))
    requires Inv(Soft(w), st) && d !in st.visited && Visit(Soft(w), st, d).1 == Ok
    ensures var st1 := Visit(Soft(w), st, d).0; Inv(Soft(w), st1) && (d in st1.initialized <==> Up(w, d))
  {
    VisitKeeps(Soft(w), st, d);
    var st1 := Visit(Soft(w), st, d).0;
    var j :| 0 <= j < |st1.done| && st1.done[j] == d;
    InitializedIffUp(Soft(w), st1, j);
    SoftUp(w, d);
  }

  lemma {:induction false} RunAgrees(w: World, st: St, k: nat)
    requires Valid(w) && k <= |w| && st.inProgress == {} && Indices(Soft(w)) == Indices(w)
    requires Inv(Soft(w), st) && RunFrom(Soft(w), st, k).1 == Ok
    ensures RunFrom(w, st, k).1 == Ok <==> AllUp(w, EnteredFrom(w, st, k))
    decreases |w| - k
  {
    if k < |w| {
      if k in st.visited {
        RunAgrees(w, st, k + 1);
      } else {
        var st1 := Visit(Soft(w), st, k).0;
        VisitAgrees(w, st, k);
        assert Inv(Soft(w), st1) by {
          VisitKeeps(Soft(w), st, k);
        }
        RunAgrees(w, st1, k + 1);
        AllUpUnion(w, Entered(w, st, k), EnteredFrom(w, st1, k + 1));
      }
    }
  }

  /** Initialisation succeeds if and only if the graph has no cycle, no enabled Init
      raises, and every mandatory edge through which the traversal enters a module leads
      to one that comes up. */
  lemma SuccessIff(w: World)
    requires Valid(w)
    ensures Run(w).1 == Ok <==> !HasCycle(w) && NothingRaises(w) && AllUp(w, EnteredFrom(w, START, 0))
    ensures AllHard(w, EnteredFrom(w, START, 0))
  {
    SameIndices(w);
    EnteredFromAreHard(w, START, 0);
    SoftSucceedsIff(w);
    if Run(w).1 == Ok {
      SuccessMeansOrdered(w);
    }
    if Run(Soft(w)).1 == Ok {
      StartIsFine(Soft(w));
      RunAgrees(w, START, 0);
    }
  }
}
