/** What every traversal of the module graph keeps, and what its outcome means. */
module ModuleInitProofs {
  import opened ModuleInit

  // ---------------------------------------------------------------- invariants

  /** Each module is listed once, after all of its dependencies. */
  ghost predicate Topological(w: World, done: seq<nat>) {
    && (forall i, j :: 0 <= i < j < |done| ==> done[i] != done[j])
    && (forall i :: 0 <= i < |done| ==> done[i] < |w|)
    && (forall i, e :: 0 <= i < |done| && 0 <= e < |w[done[i]].deps| ==> w[done[i]].deps[e].target in done[..i])
  }

  ghost predicate Provided(w: World, m: nat, initialized: set<nat>)
    requires m < |w|
  {
    exists e :: 0 <= e < |w[m].deps| && w[m].deps[e].target in initialized
  }

  /** The flags of a module follow from its own configuration and its dependencies' flags. */
  ghost predicate FlagRight(w: World, st: St, m: nat) {
    if m in st.done then
      && m < |w|
      && (m in st.visited <==> w[m].enabled)
      && (m in st.initialized <==> w[m].enabled && (w[m].virtual ==> Provided(w, m, st.initialized)))
    else m !in st.visited && m !in st.initialized
  }

  ghost predicate FlagsRight(w: World, st: St) {
    forall m {:trigger m in st.done} :: FlagRight(w, st, m)
  }

  /** Entering a module changes no flag of a completed one. */
  lemma EnterKeeps(w: World, st: St, m: nat)
    requires Inv(w, st)
    ensures Inv(w, st.(inProgress := st.inProgress + {m}))
  {
    var st0 := st.(inProgress := st.inProgress + {m});
    forall x ensures FlagRight(w, st0, x) {
      assert x in st.done || x !in st.done;
      assert FlagRight(w, st, x);
    }
  }

  ghost predicate Settled(w: World, st: St, d: Dep) {
    d.target in st.initialized || d.optional || (d.target < |w| && w[d.target].virtual && d.target in st.visited)
  }

  /** Processed modules that are not virtual had their mandatory dependencies checked. */
  ghost predicate DepsChecked(w: World, st: St) {
    && (forall m, e :: m in st.done && m < |w| && !w[m].virtual && 0 <= e < |w[m].deps| ==> Settled(w, st, w[m].deps[e]))
    && (forall m :: m in st.done && m < |w| && w[m].enabled && !w[m].virtual ==> !w[m].raises)
  }

  predicate Called(w: World, m: nat) {
    m < |w| && w[m].enabled && !w[m].virtual
  }

  /** The Init calls are made in completion order, and only for enabled real modules. */
  function Calls(w: World, done: seq<nat>): seq<nat> {
    if done == [] then []
    else Calls(w, done[..|done| - 1]) + if Called(w, done[|done| - 1]) then [done[|done| - 1]] else []
  }

  /** Shutdown procedures in reverse order of the Init calls. */
  function Shutdowns(w: World, order: seq<nat>): seq<nat> {
    if order == [] then []
    else
      var m := order[|order| - 1];
      (if m < |w| && w[m].hasShutdown then [m] else []) + Shutdowns(w, order[..|order| - 1])
  }

  ghost predicate Logged(w: World, st: St) {
    st.order == Calls(w, st.done) && st.shutdown == Shutdowns(w, st.order)
  }

  ghost predicate Inv(w: World, st: St) {
    Topological(w, st.done) && FlagsRight(w, st) && DepsChecked(w, st) && Logged(w, st)
  }

  /** Later states list more completed modules and never touch the flags of listed ones. */
  ghost predicate Extends(st: St, st': St) {
    && st.done <= st'.done
    && forall m :: m in st.done ==> (m in st'.visited <==> m in st.visited) && (m in st'.initialized <==> m in st.initialized)
  }

  /** The modules in progress are not marked visited meanwhile. */
  ghost predicate Spares(st: St, st': St) {
    forall m :: m in st.inProgress && m in st'.visited ==> m in st.visited
  }

  lemma ExtendsTransitive(a: St, b: St, c: St)
    requires Extends(a, b) && Extends(b, c)
    ensures Extends(a, c)
  {
    assert forall m :: m in a.done ==> m in b.done;
  }

  /** The first `i` dependencies of `m` have been dealt with. */
  ghost predicate DepsProcessed(w: World, st: St, m: nat, i: nat, one: bool)
    requires m < |w| && i <= |w[m].deps|
  {
    && (forall e :: 0 <= e < i ==> w[m].deps[e].target in st.done)
    && (!w[m].virtual ==> forall e :: 0 <= e < i ==> Settled(w, st, w[m].deps[e]))
    && (one <==> exists e :: 0 <= e < i && w[m].deps[e].target in st.initialized)
  }

  lemma DepsProcessedExtends(w: World, st: St, st': St, m: nat, i: nat, one: bool)
    requires m < |w| && i <= |w[m].deps| && DepsProcessed(w, st, m, i, one) && Extends(st, st')
    ensures DepsProcessed(w, st', m, i, one)
  {
    assert forall x :: x in st.done ==> x in st'.done;
  }

  // ---------------------------------------------------------------- completion

  lemma CompleteTopological(w: World, st: St, m: nat, one: bool)
    requires m < |w| && Topological(w, st.done) && DepsProcessed(w, st, m, |w[m].deps|, one)
    ensures Topological(w, Complete(w, st, m, one).0.done)
    ensures st.done <= Complete(w, st, m, one).0.done && m in Complete(w, st, m, one).0.done
  {
    var done' := Complete(w, st, m, one).0.done;
    if m !in st.done {
      assert done' == st.done + [m];
      assert done'[..|st.done|] == st.done;
      forall i, e | 0 <= i < |done'| && 0 <= e < |w[done'[i]].deps|
        ensures w[done'[i]].deps[e].target in done'[..i]
      {
        if i < |st.done| {
          assert done'[..i] == st.done[..i];
        }
      }
    }
  }

  lemma CompleteFlags(w: World, st: St, m: nat, one: bool)
    requires m < |w| && Topological(w, st.done) && FlagsRight(w, st) && m !in st.visited
    requires DepsProcessed(w, st, m, |w[m].deps|, one)
    requires Complete(w, st, m, one).1 == Ok
    ensures FlagsRight(w, Complete(w, st, m, one).0) && Extends(st, Complete(w, st, m, one).0)
  {
    var st' := Complete(w, st, m, one).0;
    CompleteTopological(w, st, m, one);
    assert forall x :: x in st'.done <==> x in st.done || x == m;
    assert FlagRight(w, st, m) && (m in st.done || m !in st.done);
    assert Provided(w, m, st.initialized) <==> one;
    if m !in st.done {
      SameProviders(w, st, st', m);
    }
    forall x ensures FlagRight(w, st', x) {
      assert x in st.done || x !in st.done;
      assert FlagRight(w, st, x);
    }
  }

  /** Adding `m` to the initialised modules gives no processed module a new provider. */
  lemma SameProviders(w: World, st: St, st': St, m: nat)
    requires m < |w| && Topological(w, st.done) && m !in st.done
    requires forall e :: 0 <= e < |w[m].deps| ==> w[m].deps[e].target in st.done
    requires forall x :: x != m ==> (x in st'.initialized <==> x in st.initialized)
    ensures forall x :: (x in st.done || x == m) && x < |w| ==> (Provided(w, x, st'.initialized) <==> Provided(w, x, st.initialized))
  {
    forall x, e | (x in st.done || x == m) && x < |w| && 0 <= e < |w[x].deps|
      ensures w[x].deps[e].target != m
    {
      if x in st.done {
        var i :| 0 <= i < |st.done| && st.done[i] == x;
        assert w[st.done[i]].deps[e].target in st.done[..i];
        assert w[x].deps[e].target in st.done;
      }
    }
  }

  lemma CompleteChecked(w: World, st: St, m: nat, one: bool)
    requires m < |w| && Topological(w, st.done) && FlagsRight(w, st) && DepsChecked(w, st) && m !in st.visited
    requires DepsProcessed(w, st, m, |w[m].deps|, one)
    requires Complete(w, st, m, one).1 == Ok
    ensures DepsChecked(w, Complete(w, st, m, one).0)
  {
    var st' := Complete(w, st, m, one).0;
    CompleteTopological(w, st, m, one);
    CompleteFlags(w, st, m, one);
    assert forall x :: x in st'.done <==> x in st.done || x == m;
    forall x, e | x in st'.done && x < |w| && !w[x].virtual && 0 <= e < |w[x].deps|
      ensures Settled(w, st', w[x].deps[e])
    {
      assert Settled(w, st, w[x].deps[e]);
      assert w[x].deps[e].target in st.done by {
        if x in st.done {
          var i :| 0 <= i < |st.done| && st.done[i] == x;
          assert w[st.done[i]].deps[e].target in st.done[..i];
        }
      }
    }
  }

  lemma CompleteLogged(w: World, st: St, m: nat, one: bool)
    requires m < |w| && FlagsRight(w, st) && Logged(w, st) && m !in st.visited
    requires Complete(w, st, m, one).1 == Ok
    ensures Logged(w, Complete(w, st, m, one).0)
  {
    var st' := Complete(w, st, m, one).0;
    if m !in st.done {
      assert st'.done[..|st'.done| - 1] == st.done;
      if Called(w, m) {
        assert st'.order[..|st'.order| - 1] == st.order;
      }
    }
  }

  lemma NextDep(w: World, st: St, m: nat, i: nat, one: bool)
    requires m < |w| && i < |w[m].deps| && DepsProcessed(w, st, m, i, one)
    requires w[m].deps[i].target in st.done && (w[m].virtual || Settled(w, st, w[m].deps[i]))
    ensures DepsProcessed(w, st, m, i + 1, one || w[m].deps[i].target in st.initialized)
  {
  }

  // ---------------------------------------------------------------- the traversal keeps the invariant

  lemma {:induction false} VisitKeeps(w: World, st: St, m: nat)
    requires Valid(w) && m < |w| && st.inProgress <= Indices(w) && Inv(w, st) && m !in st.visited
    requires Visit(w, st, m).1 == Ok
    ensures Inv(w, Visit(w, st, m).0) && Extends(st, Visit(w, st, m).0) && m in Visit(w, st, m).0.done
    ensures Spares(st, Visit(w, st, m).0)
    decreases Indices(w) - st.inProgress, 0
  {
    var st0 := st.(inProgress := st.inProgress + {m});
    assert m in Indices(w);
    var (st1, out, one) := VisitDeps(w, st0, m, 0, false);
    EnterKeeps(w, st, m);
    DepsKeep(w, st0, m, 0, false);
    assert m !in st1.visited;
    CompleteTopological(w, st1, m, one);
    CompleteFlags(w, st1, m, one);
    CompleteChecked(w, st1, m, one);
    CompleteLogged(w, st1, m, one);
    ExtendsTransitive(st, st1, Complete(w, st1, m, one).0);
  }

  lemma {:induction false} DepsKeep(w: World, st: St, m: nat, i: nat, one: bool)
    requires Valid(w) && m < |w| && st.inProgress <= Indices(w) && Inv(w, st) && i <= |w[m].deps|
    requires DepsProcessed(w, st, m, i, one)
    requires VisitDeps(w, st, m, i, one).1 == Ok
    ensures var (st', _, one') := VisitDeps(w, st, m, i, one);
      Inv(w, st') && Extends(st, st') && Spares(st, st') && DepsProcessed(w, st', m, |w[m].deps|, one')
    decreases Indices(w) - st.inProgress, 2 * (|w[m].deps| - i) + 1
  {
    if i < |w[m].deps| {
      var (st1, one1) := AfterDep(w, st, m, i, one);
      DepKept(w, st, m, i, one);
      DepsKeep(w, st1, m, i + 1, one1);
      var st2 := VisitDeps(w, st1, m, i + 1, one1).0;
      assert Extends(st, st2) by {
        ExtendsTransitive(st, st1, st2);
      }
      assert Spares(st, st2) by {
        SparesTransitive(st, st1, st2);
      }
    }
  }

  /** The loop state after the i-th dependency. */
  function AfterDep(w: World, st: St, m: nat, i: nat, one: bool): (St, bool)
    requires Valid(w) && m < |w| && st.inProgress <= Indices(w) && i < |w[m].deps|
  {
    var d := w[m].deps[i].target;
    var st1 := if d in st.visited then st else Visit(w, st, d).0;
    (st1, one || d in st1.initialized)
  }

  lemma {:induction false} DepKept(w: World, st: St, m: nat, i: nat, one: bool)
    requires Valid(w) && m < |w| && st.inProgress <= Indices(w) && Inv(w, st) && i < |w[m].deps|
    requires DepsProcessed(w, st, m, i, one)
    requires VisitDeps(w, st, m, i, one).1 == Ok
    ensures var (st1, one1) := AfterDep(w, st, m, i, one);
      && Inv(w, st1) && Extends(st, st1) && Spares(st, st1) && st1.inProgress == st.inProgress
      && DepsProcessed(w, st1, m, i + 1, one1)
      && VisitDeps(w, st, m, i, one) == VisitDeps(w, st1, m, i + 1, one1)
    decreases Indices(w) - st.inProgress, 2 * (|w[m].deps| - i)
  {
    var d := w[m].deps[i];
    var st1 := AfterDep(w, st, m, i, one).0;
    if d.target in st.visited {
      assert d.target in st.done by {
        VisitedIsDone(w, st, d.target);
      }
    } else {
      VisitKeeps(w, st, d.target);
      DepsProcessedExtends(w, st, st1, m, i, one);
    }
    DepSettled(w, st, st1, m, i, one);
    NextDep(w, st1, m, i, one);
  }

  lemma VisitedIsDone(w: World, st: St, m: nat)
    requires FlagsRight(w, st) && m in st.visited
    ensures m in st.done
  {
    assert m in st.done || m !in st.done;
    assert FlagRight(w, st, m);
  }

  /** What the check at the i-th dependency has established when the loop goes on. */
  lemma DepSettled(w: World, st: St, st1: St, m: nat, i: nat, one: bool)
    requires Valid(w) && m < |w| && st.inProgress <= Indices(w) && i < |w[m].deps| && FlagsRight(w, st)
    requires VisitDeps(w, st, m, i, one).1 == Ok && st1 == AfterDep(w, st, m, i, one).0
    ensures w[m].virtual || Settled(w, st1, w[m].deps[i])
  {
    var d := w[m].deps[i].target;
    if d in st.visited {
      VisitedIsDone(w, st, d);
      assert FlagRight(w, st, d);
    }
  }

  lemma SparesTransitive(a: St, b: St, c: St)
    requires Spares(a, b) && Spares(b, c) && a.inProgress == b.inProgress
    ensures Spares(a, c)
  {
  }

  ghost predicate DoneBelow(st: St, k: nat) {
    forall m :: 0 <= m < k ==> m in st.done
  }

  /** One turn of the loop over the world. */
  lemma TurnKeeps(w: World, st: St, k: nat)
    requires Valid(w) && k < |w| && st.inProgress == {} && Inv(w, st) && DoneBelow(st, k)
    requires k !in st.visited ==> Visit(w, st, k).1 == Ok
    ensures var st1 := if k in st.visited then st else Visit(w, st, k).0;
      Inv(w, st1) && st1.inProgress == {} && DoneBelow(st1, k + 1)
  {
    if k in st.visited {
      VisitedIsDone(w, st, k);
    } else {
      VisitKeeps(w, st, k);
      var st1 := Visit(w, st, k).0;
      assert forall m :: m in st.done ==> m in st1.done;
    }
  }

  lemma {:induction false} RunKeeps(w: World, st: St, k: nat)
    requires Valid(w) && k <= |w| && st.inProgress == {} && Inv(w, st) && DoneBelow(st, k)
    requires RunFrom(w, st, k).1 == Ok
    ensures Inv(w, RunFrom(w, st, k).0) && DoneBelow(RunFrom(w, st, k).0, |w|)
    decreases |w| - k
  {
    if k < |w| {
      TurnKeeps(w, st, k);
      RunKeeps(w, if k in st.visited then st else Visit(w, st, k).0, k + 1);
    }
  }

  // ---------------------------------------------------------------- what is initialised

  /** Among processed modules, the initialised ones are exactly those that come up. */
  lemma {:induction false} InitializedIffUp(w: World, st: St, i: nat)
    requires Valid(w) && Topological(w, st.done) && FlagsRight(w, st) && i < |st.done|
    ensures st.done[i] in st.initialized <==> Up(w, st.done[i])
    decreases i
  {
    var m := st.done[i];
    forall e | 0 <= e < |w[m].deps|
      ensures w[m].deps[e].target in st.initialized <==> Up(w, w[m].deps[e].target)
    {
      var d := w[m].deps[e].target;
      assert d in st.done[..i];
      var j :| 0 <= j < i && st.done[j] == d;
      InitializedIffUp(w, st, j);
    }
    if w[m].virtual && w[m].enabled {
      if e :| 0 <= e < |w[m].deps| && w[m].deps[e].target in st.initialized {
        var n: nat :| UpWithin(w, w[m].deps[e].target, n);
        assert UpWithin(w, m, n + 1);
      } else {
        forall n: nat ensures !UpWithin(w, m, n) {
          assert forall e :: 0 <= e < |w[m].deps| ==> !Up(w, w[m].deps[e].target);
        }
      }
    } else {
      assert UpWithin(w, m, 0) <==> w[m].enabled && !w[m].virtual;
    }
    assert FlagRight(w, st, m);
  }

  // ---------------------------------------------------------------- why a traversal stops

  /** What each failure says about the world. */
  ghost predicate Justified(w: World, out: Outcome)
    requires Valid(w)
  {
    match out
    case Ok => true
    case Circular(m) => OnCycle(w, m) && m < |w| && !w[m].virtual
    case CircularVirtual(m) => OnCycle(w, m) && m < |w| && w[m].virtual
    case Unresolved(from, upon) => HardDep(w, from, upon) && upon < |w| && !Up(w, upon)
    case InitRaised(m) => m < |w| && w[m].enabled && !w[m].virtual && w[m].raises
  }

  /** The call stack is a path of the graph. */
  ghost predicate Stacked(w: World, st: St, stack: seq<nat>) {
    IsPath(w, stack) && forall m :: m in st.inProgress <==> m in stack
  }

  lemma StackPush(w: World, stack: seq<nat>, m: nat)
    requires IsPath(w, stack) && (stack != [] ==> Edge(w, stack[|stack| - 1], m))
    ensures IsPath(w, stack + [m])
  {
    var p := stack + [m];
    forall i | 0 <= i < |p| - 1 ensures Edge(w, p[i], p[i + 1]) {
      if i < |stack| - 1 {
        assert p[i] == stack[i] && p[i + 1] == stack[i + 1];
      }
    }
  }

  lemma CycleFound(w: World, stack: seq<nat>, m: nat)
    requires IsPath(w, stack) && m in stack && Edge(w, stack[|stack| - 1], m)
    ensures OnCycle(w, m)
  {
    StackPush(w, stack, m);
    var i :| 0 <= i < |stack| && stack[i] == m;
    var p := (stack + [m])[i..];
    assert IsPath(w, p) by {
      forall j | 0 <= j < |p| - 1 ensures Edge(w, p[j], p[j + 1]) {
        assert p[j] == (stack + [m])[i + j] && p[j + 1] == (stack + [m])[i + j + 1];
      }
    }
  }

  lemma {:induction false} VisitJustified(w: World, st: St, stack: seq<nat>, m: nat)
    requires Valid(w) && m < |w| && st.inProgress <= Indices(w) && Inv(w, st) && m !in st.visited
    requires Stacked(w, st, stack) && (stack != [] ==> Edge(w, stack[|stack| - 1], m))
    ensures Justified(w, Visit(w, st, m).1)
    decreases Indices(w) - st.inProgress, 0
  {
    if m in st.inProgress {
      CycleFound(w, stack, m);
    } else {
      var st0 := st.(inProgress := st.inProgress + {m});
      assert m in Indices(w);
      StackPush(w, stack, m);
      EnterKeeps(w, st, m);
      DepsJustified(w, st0, stack + [m], m, 0, false);
    }
  }

  lemma {:induction false} DepsJustified(w: World, st: St, stack: seq<nat>, m: nat, i: nat, one: bool)
    requires Valid(w) && m < |w| && st.inProgress <= Indices(w) && Inv(w, st) && i <= |w[m].deps|
    requires Stacked(w, st, stack) && stack != [] && stack[|stack| - 1] == m
    ensures Justified(w, VisitDeps(w, st, m, i, one).1)
    decreases Indices(w) - st.inProgress, |w[m].deps| - i + 1
  {
    if i < |w[m].deps| {
      var d := w[m].deps[i];
      assert Edge(w, m, d.target);
      if d.target in st.visited {
        DepsJustified(w, st, stack, m, i + 1, one || d.target in st.initialized);
      } else {
        VisitJustified(w, st, stack, d.target);
        var (st1, out) := Visit(w, st, d.target);
        if out == Ok {
          VisitKeeps(w, st, d.target);
          if d.optional || w[m].virtual || d.target in st1.initialized {
            DepsJustified(w, st1, stack, m, i + 1, one || d.target in st1.initialized);
          } else {
            assert w[m].deps[i] == Dep(d.target, false);
            var j :| 0 <= j < |st1.done| && st1.done[j] == d.target;
            InitializedIffUp(w, st1, j);
          }
        }
      }
    }
  }

  lemma {:induction false} RunJustified(w: World, st: St, k: nat)
    requires Valid(w) && k <= |w| && st.inProgress == {} && Inv(w, st)
    ensures Justified(w, RunFrom(w, st, k).1)
    decreases |w| - k
  {
    if k < |w| {
      if k in st.visited {
        RunJustified(w, st, k + 1);
      } else {
        var (st1, out) := Visit(w, st, k);
        assert Justified(w, out) by {
          VisitJustified(w, st, [], k);
        }
        if out == Ok {
          assert Inv(w, st1) by {
            VisitKeeps(w, st, k);
          }
          RunJustified(w, st1, k + 1);
        }
      }
    }
  }

  // ---------------------------------------------------------------- order

  ghost predicate Precedes(s: seq<nat>, a: nat, b: nat) {
    exists i, j :: 0 <= i < j < |s| && s[i] == a && s[j] == b
  }

  /** Along any path of dependencies the end was completed before the start. */
  lemma {:induction false} PathPrecedes(w: World, done: seq<nat>, p: seq<nat>)
    requires Topological(w, done) && IsPath(w, p) && |p| > 1 && p[0] in done
    ensures Precedes(done, p[|p| - 1], p[0])
  {
    var j :| 0 <= j < |done| && done[j] == p[0];
    assert Edge(w, p[0], p[1]);
    var e :| 0 <= e < |w[p[0]].deps| && w[p[0]].deps[e].target == p[1];
    assert p[1] in done[..j];
    var i :| 0 <= i < j && done[i] == p[1];
    if |p| > 2 {
      var q := p[1..];
      forall i | 0 <= i < |q| - 1 ensures Edge(w, q[i], q[i + 1]) {
        assert Edge(w, p[i + 1], p[i + 2]);
      }
      PathPrecedes(w, done, q);
      var a, b :| 0 <= a < b < |done| && done[a] == q[|q| - 1] && done[b] == q[0];
      assert b == i;
    }
  }

  lemma {:induction false} CallsMembers(w: World, done: seq<nat>, m: nat)
    ensures m in Calls(w, done) <==> m in done && Called(w, m)
  {
    if done != [] {
      CallsMembers(w, done[..|done| - 1], m);
      assert done == done[..|done| - 1] + [done[|done| - 1]];
    }
  }

  lemma {:induction false} CallsOrder(w: World, done: seq<nat>, a: nat, b: nat)
    requires forall i, j :: 0 <= i < j < |done| ==> done[i] != done[j]
    requires Called(w, a) && Called(w, b)
    ensures Precedes(done, a, b) <==> Precedes(Calls(w, done), a, b)
  {
    if done != [] {
      var init, z := done[..|done| - 1], done[|done| - 1];
      CallsOrder(w, init, a, b);
      CallsMembers(w, init, a);
      LastPrecedes(init, z, a, b);
      LastPrecedes(Calls(w, init), z, a, b);
      assert done == init + [z];
      assert !Called(w, z) ==> Calls(w, done) == Calls(w, init);
    }
  }

  lemma LastPrecedes(s: seq<nat>, z: nat, a: nat, b: nat)
    ensures Precedes(s + [z], a, b) <==> Precedes(s, a, b) || (b == z && a in s)
  {
    var t := s + [z];
    if Precedes(s, a, b) {
      var i, j :| 0 <= i < j < |s| && s[i] == a && s[j] == b;
      assert t[i] == a && t[j] == b;
    }
    if b == z && a in s {
      var i :| 0 <= i < |s| && s[i] == a;
      assert t[i] == a && t[|s|] == b;
    }
    if Precedes(t, a, b) {
      var i, j :| 0 <= i < j < |t| && t[i] == a && t[j] == b;
      assert t[i] == s[i];
      assert j < |s| ==> t[j] == s[j];
    }
  }

  lemma FirstPrecedes(s: seq<nat>, z: nat, a: nat, b: nat)
    ensures Precedes([z] + s, a, b) <==> Precedes(s, a, b) || (a == z && b in s)
  {
    var t := [z] + s;
    if Precedes(s, a, b) {
      var i, j :| 0 <= i < j < |s| && s[i] == a && s[j] == b;
      assert t[i + 1] == a && t[j + 1] == b;
    }
    if a == z && b in s {
      var j :| 0 <= j < |s| && s[j] == b;
      assert t[0] == a && t[j + 1] == b;
    }
    if Precedes(t, a, b) {
      var i, j :| 0 <= i < j < |t| && t[i] == a && t[j] == b;
      assert t[j] == s[j - 1];
      assert i > 0 ==> t[i] == s[i - 1];
    }
  }

  lemma {:induction false} ShutdownMembers(w: World, order: seq<nat>, m: nat)
    ensures m in Shutdowns(w, order) <==> m in order && m < |w| && w[m].hasShutdown
  {
    if order != [] {
      ShutdownMembers(w, order[..|order| - 1], m);
      assert order == order[..|order| - 1] + [order[|order| - 1]];
    }
  }

  /** Modules are shut down in the reverse of the order in which they were initialised. */
  lemma {:induction false} ShutdownReverses(w: World, order: seq<nat>, a: nat, b: nat)
    requires a < |w| && b < |w| && w[a].hasShutdown && w[b].hasShutdown
    ensures Precedes(order, a, b) <==> Precedes(Shutdowns(w, order), b, a)
  {
    if order != [] {
      var init, z := order[..|order| - 1], order[|order| - 1];
      ShutdownReverses(w, init, a, b);
      ShutdownMembers(w, init, a);
      LastPrecedes(init, z, a, b);
      assert order == init + [z];
      if z < |w| && w[z].hasShutdown {
        FirstPrecedes(Shutdowns(w, init), z, b, a);
      } else {
        assert [] + Shutdowns(w, init) == Shutdowns(w, init);
      }
    }
  }
}
