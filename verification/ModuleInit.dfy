/** PolyORB.Initialization: the depth-first traversal that initialises the
    registered modules after their dependencies. */
module ModuleInit {

  /** A dependency on the module at position `target` of the world list. */
  datatype Dep = Dep(target: nat, optional: bool)

  /** A registered module, or a virtual one whose dependencies are its providers.
      `enabled` is the answer of the configuration hook, `raises` says that the
      Init procedure ends with an exception. */
  datatype Module = Module(virtual: bool, deps: seq<Dep>, enabled: bool, raises: bool, hasShutdown: bool)

  type World = seq<Module>

  predicate Valid(w: World) {
    forall m, i :: 0 <= m < |w| && 0 <= i < |w[m].deps| ==> w[m].deps[i].target < |w|
  }

  datatype Outcome =
    | Ok
    | Circular(m: nat)             // reported, then Program_Error
    | CircularVirtual(m: nat)      // Constraint_Error: the report reads Info of a virtual module
    | Unresolved(from: nat, upon: nat)
    | InitRaised(m: nat)

  /** The flags of all modules, the Init calls made, the shutdown list, and the
      modules whose dependencies have been processed, oldest first. */
  datatype St = St(visited: set<nat>, initialized: set<nat>, inProgress: set<nat>,
                   order: seq<nat>, shutdown: seq<nat>, done: seq<nat>)

  const START := St({}, {}, {}, [], [], [])

  function Indices(w: World): set<nat> {
    set m: nat {:trigger w[m]} | m < |w|
  }

  // ---------------------------------------------------------------- the traversal

  /** What follows the loop over the dependencies of `m`. */
  function Complete(w: World, st: St, m: nat, oneDep: bool): (St, Outcome)
    requires m < |w|
  {
    var st1 := st.(inProgress := st.inProgress - {m}, done := if m in st.done then st.done else st.done + [m]);
    if !w[m].enabled then (st1, Ok)
    else if w[m].virtual then
      (st1.(visited := st1.visited + {m},
            initialized := if oneDep then st1.initialized + {m} else st1.initialized - {m}), Ok)
    else if w[m].raises then (st1, InitRaised(m))
    else
      (st1.(visited := st1.visited + {m}, initialized := st1.initialized + {m}, order := st1.order + [m],
            shutdown := if w[m].hasShutdown then [m] + st1.shutdown else st1.shutdown), Ok)
  }

  function Visit(w: World, st: St, m: nat): (r: (St, Outcome))
    requires Valid(w) && m < |w| && st.inProgress <= Indices(w)
    ensures r.0.inProgress <= Indices(w) && (r.1 == Ok ==> r.0.inProgress == st.inProgress)
    decreases Indices(w) - st.inProgress, 0
  {
    if m in st.inProgress then (st, if w[m].virtual then CircularVirtual(m) else Circular(m))
    else
      assert m in Indices(w);
      var (st1, out, one) := VisitDeps(w, st.(inProgress := st.inProgress + {m}), m, 0, false);
      if out != Ok then (st1, out) else Complete(w, st1, m, one)
  }

  /** The loop over the dependencies of `m`, from the i-th on. */
  function VisitDeps(w: World, st: St, m: nat, i: nat, one: bool): (r: (St, Outcome, bool))
    requires Valid(w) && m < |w| && st.inProgress <= Indices(w) && i <= |w[m].deps|
    ensures r.0.inProgress <= Indices(w) && (r.1 == Ok ==> r.0.inProgress == st.inProgress)
    decreases Indices(w) - st.inProgress, |w[m].deps| - i + 1
  {
    if i == |w[m].deps| then (st, Ok, one)
    else
      var d := w[m].deps[i];
      var (st1, out) := if d.target in st.visited then (st, Ok) else Visit(w, st, d.target);
      if out != Ok then (st1, out, one)
      else if d.target !in st.visited && !(d.optional || w[m].virtual || d.target in st1.initialized) then
        (st1, Unresolved(m, d.target), one)
      else VisitDeps(w, st1, m, i + 1, one || d.target in st1.initialized)
  }

  /** `Run_Initializers` from the k-th module of the world on. */
  function RunFrom(w: World, st: St, k: nat): (St, Outcome)
    requires Valid(w) && k <= |w| && st.inProgress <= Indices(w)
    decreases |w| - k
  {
    if k == |w| then (st, Ok)
    else
      var (st1, out) := if k in st.visited then (st, Ok) else Visit(w, st, k);
      if out != Ok then (st1, out) else RunFrom(w, st1, k + 1)
  }

  function Run(w: World): (St, Outcome)
    requires Valid(w)
  {
    RunFrom(w, START, 0)
  }

  /** The module records and the shutdown list, updated in place. */
  class Initializer {
    const world: World
    var visited: set<nat>
    var initialized: set<nat>
    var inProgress: set<nat>
    var order: seq<nat>
    var shutdown: seq<nat>
    ghost var done: seq<nat>

    ghost function Snapshot(): St
      reads this
    {
      St(visited, initialized, inProgress, order, shutdown, done)
    }

    constructor (w: World)
      ensures world == w && Snapshot() == START
    {
      world := w;
      visited, initialized, inProgress, order, shutdown, done := {}, {}, {}, [], [], [];
    }

    method VisitModule(m: nat) returns (out: Outcome)
      requires Valid(world) && m < |world| && inProgress <= Indices(world)
      modifies this
      ensures (Snapshot(), out) == Visit(world, old(Snapshot()), m)
      decreases Indices(world) - inProgress
    {
      if m in inProgress {
        return if world[m].virtual then CircularVirtual(m) else Circular(m);
      }
      ghost var st0 := Snapshot();
      inProgress := inProgress + {m};
      ghost var st1 := Snapshot();
      var one := false;
      var i := 0;
      assert m in Indices(world);
      while i < |world[m].deps|
        invariant 0 <= i <= |world[m].deps| && inProgress == st1.inProgress
        invariant VisitDeps(world, Snapshot(), m, i, one) == VisitDeps(world, st1, m, 0, false)
      {
        var d := world[m].deps[i];
        if d.target !in visited {
          out := VisitModule(d.target);
          if out != Ok {
            return;
          }
          if !(d.optional || world[m].virtual || d.target in initialized) {
            return Unresolved(m, d.target);
          }
        }
        if d.target in initialized {
          one := true;
        }
        i := i + 1;
      }
      inProgress := inProgress - {m};
      if m !in done {
        done := done + [m];
      }
      if !world[m].enabled {
        return Ok;
      }
      if world[m].virtual {
        initialized := if one then initialized + {m} else initialized - {m};
      } else {
        if world[m].raises {
          return InitRaised(m);
        }
        order := order + [m];
        initialized := initialized + {m};
        if world[m].hasShutdown {
          shutdown := [m] + shutdown;
        }
      }
      visited := visited + {m};
      return Ok;
    }

    method RunInitializers() returns (out: Outcome)
      requires Valid(world) && Snapshot() == START
      modifies this
      ensures (Snapshot(), out) == Run(world)
    {
      var k := 0;
      while k < |world|
        invariant 0 <= k <= |world| && inProgress == {}
        invariant RunFrom(world, Snapshot(), k) == Run(world)
      {
        if k !in visited {
          out := VisitModule(k);
          if out != Ok {
            return;
          }
        }
        k := k + 1;
      }
      return Ok;
    }
  }

  // ---------------------------------------------------------------- the dependency graph

  ghost predicate Edge(w: World, m: nat, d: nat) {
    m < |w| && exists i :: 0 <= i < |w[m].deps| && w[m].deps[i].target == d
  }

  ghost predicate IsPath(w: World, p: seq<nat>) {
    forall i :: 0 <= i < |p| - 1 ==> Edge(w, p[i], p[i + 1])
  }

  /** A path of dependencies leads from `m` back to `m`. */
  ghost predicate OnCycle(w: World, m: nat) {
    exists p :: |p| > 1 && IsPath(w, p) && p[0] == m && p[|p| - 1] == m
  }

  ghost predicate HasCycle(w: World) {
    exists p :: |p| > 1 && IsPath(w, p) && p[0] == p[|p| - 1]
  }

  /** `m` comes up: it is enabled and, if virtual, so does one of its providers;
      `n` bounds the length of the chain of providers. */
  predicate UpWithin(w: World, m: nat, n: nat)
    requires Valid(w) && m < |w|
    decreases n
  {
    w[m].enabled && (!w[m].virtual ||
      (n > 0 && exists i :: 0 <= i < |w[m].deps| && UpWithin(w, w[m].deps[i].target, n - 1)))
  }

  ghost predicate Up(w: World, m: nat)
    requires Valid(w) && m < |w|
  {
    exists n: nat :: UpWithin(w, m, n)
  }

  /** An enabled virtual module none of whose providers comes up. */
  ghost predicate DeadVirtual(w: World, m: nat)
    requires Valid(w) && m < |w|
  {
    w[m].virtual && w[m].enabled && !Up(w, m)
  }

  ghost predicate HardDep(w: World, m: nat, d: nat) {
    m < |w| && !w[m].virtual && exists i :: 0 <= i < |w[m].deps| && w[m].deps[i] == Dep(d, false)
  }
}
