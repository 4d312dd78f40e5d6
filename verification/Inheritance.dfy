/** `get_fields` and the parent relation it climbs. */
module Inheritance {
  import opened Text
  import opened SchemaReader

  datatype Result<+T> = Ok(value: T) | Err(error: Error)

  /** The ways generation stops: a parent that was never declared, a parent
      cycle (unbounded recursion), or two types for one field name. */
  datatype Error = Undeclared(name: string) | Cyclic(name: string) | Conflict(field: string)

  /** `get_fields (Node.nodes [k])`; `seen` holds the callers still active. */
  function GetFields(nodes: Nodes, k: string, seen: set<string>): Result<seq<Field>>
    decreases nodes.Keys - seen
  {
    if k !in nodes then Err(Undeclared(k))
    else if k in seen then Err(Cyclic(k))
    else
      var n := nodes[k];
      if n.parent.None? then Ok(n.fields)
      else
        match GetFields(nodes, n.parent.value, seen + {k})
        case Err(e) => Err(e)
        case Ok(fs) => Ok(fs + n.fields)
  }

  /** Following the parent link `n` times. */
  function Ancestor(nodes: Nodes, k: string, n: nat): Option<string>
    decreases n
  {
    if k !in nodes then None
    else if n == 0 then Some(k)
    else if nodes[k].parent.None? then None
    else Ancestor(nodes, nodes[k].parent.value, n - 1)
  }

  /** `k` is `x` or reaches `x` by following parent links. */
  ghost predicate Reaches(nodes: Nodes, k: string, x: string) {
    exists n: nat :: Ancestor(nodes, k, n) == Some(x)
  }

  ghost predicate Rooted(nodes: Nodes, k: string) {
    GetFields(nodes, k, {}).Ok?
  }

  /** The fields visible in `k`, inherited ones first. */
  ghost function FieldsOf(nodes: Nodes, k: string): seq<Field>
    requires Rooted(nodes, k)
  {
    GetFields(nodes, k, {}).value
  }

  /** Number of nodes on the way from `k` to the root, or 0 if there is no such way. */
  function Depth(nodes: Nodes, k: string, seen: set<string>): nat
    decreases nodes.Keys - seen
  {
    if k !in nodes || k in seen then 0
    else if nodes[k].parent.None? then 1
    else 1 + Depth(nodes, nodes[k].parent.value, seen + {k})
  }

  /** The guard against re-entry is never what a successful walk depends on. */
  lemma {:induction false} SeenIrrelevant(nodes: Nodes, k: string, small: set<string>, big: set<string>)
    requires small <= big && GetFields(nodes, k, big).Ok?
    ensures GetFields(nodes, k, small) == GetFields(nodes, k, big)
    ensures Depth(nodes, k, small) == Depth(nodes, k, big)
    decreases nodes.Keys - big
  {
    if nodes[k].parent.Some? {
      SeenIrrelevant(nodes, nodes[k].parent.value, small + {k}, big + {k});
    }
  }

  lemma {:induction false} DepthBound(nodes: Nodes, k: string, seen: set<string>)
    ensures Depth(nodes, k, seen) <= |nodes.Keys - seen|
    decreases nodes.Keys - seen
  {
    if k in nodes && k !in seen {
      assert nodes.Keys - seen == (nodes.Keys - (seen + {k})) + {k};
      if nodes[k].parent.Some? {
        DepthBound(nodes, nodes[k].parent.value, seen + {k});
      }
    }
  }

  /** One step up: the parent is rooted, its fields come first, and it is one level closer. */
  lemma StepUp(nodes: Nodes, k: string)
    requires Rooted(nodes, k) && nodes[k].parent.Some?
    ensures Rooted(nodes, nodes[k].parent.value)
    ensures FieldsOf(nodes, k) == FieldsOf(nodes, nodes[k].parent.value) + nodes[k].fields
    ensures Depth(nodes, k, {}) == Depth(nodes, nodes[k].parent.value, {}) + 1
  {
    SeenIrrelevant(nodes, nodes[k].parent.value, {}, {} + {k});
  }

  lemma {:induction false} AncestorFields(nodes: Nodes, k: string, n: nat)
    requires Rooted(nodes, k) && Ancestor(nodes, k, n).Some?
    ensures var x := Ancestor(nodes, k, n).value;
      && Rooted(nodes, x)
      && FieldsOf(nodes, x) <= FieldsOf(nodes, k)
      && Depth(nodes, k, {}) == Depth(nodes, x, {}) + n
    decreases n
  {
    if n > 0 {
      StepUp(nodes, k);
      AncestorFields(nodes, nodes[k].parent.value, n - 1);
    }
  }

  /** What an ancestor declares is a prefix of what its descendant sees. */
  lemma InheritedPrefix(nodes: Nodes, k: string, x: string)
    requires Rooted(nodes, k) && Reaches(nodes, k, x)
    ensures Rooted(nodes, x) && FieldsOf(nodes, x) <= FieldsOf(nodes, k)
    ensures Depth(nodes, x, {}) <= Depth(nodes, k, {})
    ensures k != x ==> Depth(nodes, x, {}) < Depth(nodes, k, {})
  {
    var n: nat :| Ancestor(nodes, k, n) == Some(x);
    AncestorFields(nodes, k, n);
  }

  lemma {:induction false} AncestorCompose(nodes: Nodes, k: string, m: nat, n: nat)
    requires Ancestor(nodes, k, m).Some?
    ensures Ancestor(nodes, k, m + n) == Ancestor(nodes, Ancestor(nodes, k, m).value, n)
    decreases m
  {
    if m > 0 {
      AncestorCompose(nodes, nodes[k].parent.value, m - 1, n);
    }
  }

  lemma ReachesTransitive(nodes: Nodes, k: string, y: string, x: string)
    requires Reaches(nodes, k, y) && Reaches(nodes, y, x)
    ensures Reaches(nodes, k, x)
  {
    var m: nat :| Ancestor(nodes, k, m) == Some(y);
    var n: nat :| Ancestor(nodes, y, n) == Some(x);
    AncestorCompose(nodes, k, m, n);
  }

  /** A kind below `x` is below one of the nodes whose parent link is `x`. */
  lemma LastStep(nodes: Nodes, k: string, x: string) returns (c: string)
    requires Reaches(nodes, k, x) && k != x
    ensures Reaches(nodes, k, c) && c in nodes && nodes[c].parent == Some(x) && x in nodes
  {
    var n: nat :| Ancestor(nodes, k, n) == Some(x);
    assert n > 0;
    AncestorDefined(nodes, k, n - 1, n);
    c := Ancestor(nodes, k, n - 1).value;
    AncestorCompose(nodes, k, n - 1, 1);
    assert Ancestor(nodes, c, 1) == Some(x);
    assert nodes[c].parent.Some? && Ancestor(nodes, nodes[c].parent.value, 0) == Some(x);
  }

  lemma {:induction false} AncestorDefined(nodes: Nodes, k: string, m: nat, n: nat)
    requires m <= n && Ancestor(nodes, k, n).Some?
    ensures Ancestor(nodes, k, m).Some? && Ancestor(nodes, k, m).value in nodes
    decreases m
  {
    if m > 0 {
      AncestorDefined(nodes, nodes[k].parent.value, m - 1, n - 1);
    }
  }

  /** A field is visible in `k` exactly when `k` is, or descends from, a node declaring it. */
  lemma {:induction false} VisibleIffDeclaredAbove(nodes: Nodes, k: string, f: Field)
    requires Rooted(nodes, k)
    ensures f in FieldsOf(nodes, k) <==>
      exists x :: Reaches(nodes, k, x) && x in nodes && f in nodes[x].fields
    decreases Depth(nodes, k, {})
  {
    assert Ancestor(nodes, k, 0) == Some(k);
    if nodes[k].parent.Some? {
      var p := nodes[k].parent.value;
      StepUp(nodes, k);
      VisibleIffDeclaredAbove(nodes, p, f);
      assert Reaches(nodes, k, p) by {
        assert p in nodes;
        assert Ancestor(nodes, p, 0) == Some(p);
        assert Ancestor(nodes, k, 1) == Some(p);
      }
      if x :| Reaches(nodes, p, x) && x in nodes && f in nodes[x].fields {
        ReachesTransitive(nodes, k, p, x);
      }
      forall x | Reaches(nodes, k, x) && x != k
        ensures Reaches(nodes, p, x)
      {
        var n: nat :| Ancestor(nodes, k, n) == Some(x);
        assert Ancestor(nodes, p, n - 1) == Some(x);
      }
    } else {
      forall x | Reaches(nodes, k, x)
        ensures x == k
      {
        var n: nat :| Ancestor(nodes, k, n) == Some(x);
      }
    }
  }

  // ---------------------------------------------------------------- what the reader guarantees

  /** Facts about the two dictionaries that hold after reading any input at all. */
  ghost predicate Readable(reg: Registry) {
    && "" !in reg.nodes
    && (forall p, i :: p in reg.children && 0 <= i < |reg.children[p]| ==> reg.children[p][i] in reg.nodes)
    && (forall k :: k in reg.nodes && reg.nodes[k].parent.Some? ==>
          reg.nodes[k].parent.value in reg.children && k in reg.children[reg.nodes[k].parent.value])
    && (forall k :: k in reg.nodes && reg.nodes[k].parent.None? ==> k == ROOT)
  }

  lemma DeclareKeepsReadable(reg: Registry, name: string, parent: Option<string>)
    requires Readable(reg) && IsWord(name)
    ensures Readable(Declare(reg, name, parent))
  {
    var r := Declare(reg, name, parent);
    var p := EffectiveParent(name, parent);
    if p.Some? {
      assert r.children[p.value][|r.children[p.value]| - 1] == name;
      forall q | q in reg.children
        ensures q in r.children && reg.children[q] <= r.children[q]
      {}
    }
  }

  lemma {:induction false} InterpretKeepsReadable(wss: seq<seq<string>>, st: State)
    requires forall i :: 0 <= i < |wss| ==> wss[i] != [] && forall w :: w in wss[i] ==> IsWord(w)
    requires st.current.Some? ==> st.current.value in st.reg.nodes
    requires Readable(st.reg)
    ensures Interpret(wss, st).Parsed? ==> Readable(Interpret(wss, st).reg)
    decreases |wss|
  {
    if wss != [] {
      var ws := wss[0];
      if !st.started {
        InterpretKeepsReadable(wss[1..], st.(started := ws == ["START"]));
      } else if ws == ["END"] {
      } else if IsFieldLine(ws) {
        if st.current.Some? {
          InterpretKeepsReadable(wss[1..], st.(reg := AddField(st.reg, st.current.value, FieldOf(ws))));
        }
      } else {
        DeclareKeepsReadable(st.reg, ws[0], ParentOf(ws));
        InterpretKeepsReadable(wss[1..], State(true, Some(ws[0]), Declare(st.reg, ws[0], ParentOf(ws))));
      }
    }
  }

  /** Whatever the input, `children` lists every declared node under its parent. */
  lemma ReadIsReadable(ls: seq<string>)
    ensures Read(ls).Parsed? ==> Readable(Read(ls).reg)
  {
    InterpretKeepsReadable(Significant(ls), State(false, None, EMPTY));
  }

  // ---------------------------------------------------------------- why a kind has no way to the root

  /** The name reached by following the parent link `n` times, declared or not. */
  function Climb(nodes: Nodes, k: string, n: nat): Option<string>
    decreases n
  {
    if n == 0 then Some(k)
    else if k !in nodes || nodes[k].parent.None? then None
    else Climb(nodes, nodes[k].parent.value, n - 1)
  }

  ghost predicate Above(nodes: Nodes, k: string, x: string) {
    exists n: nat :: Climb(nodes, k, n) == Some(x)
  }

  ghost predicate ProperlyAbove(nodes: Nodes, k: string, x: string) {
    exists n: nat :: n > 0 && Climb(nodes, k, n) == Some(x)
  }

  /** The error says truly what is met above `k`: a name that is not declared, or a node
      that is its own ancestor. */
  ghost predicate ErrorAbove(nodes: Nodes, k: string, e: Error) {
    match e
    case Undeclared(x) => x !in nodes && Above(nodes, k, x)
    case Cyclic(x) => x in nodes && Above(nodes, k, x) && ProperlyAbove(nodes, x, x)
    case Conflict(_) => false
  }

  lemma {:induction false} ClimbOn(nodes: Nodes, k: string, n: nat, x: string)
    requires Climb(nodes, k, n) == Some(x) && x in nodes && nodes[x].parent.Some?
    ensures Climb(nodes, k, n + 1) == nodes[x].parent
    decreases n
  {
    if n == 0 {
      assert Climb(nodes, nodes[x].parent.value, 0) == nodes[x].parent;
    } else {
      ClimbOn(nodes, nodes[k].parent.value, n - 1, x);
    }
  }

  lemma ParentAbove(nodes: Nodes, k: string, seen: set<string>)
    requires k in nodes && nodes[k].parent.Some? && forall y :: y in seen ==> ProperlyAbove(nodes, y, k)
    ensures var p := nodes[k].parent.value;
      && (forall y :: y in seen + {k} ==> ProperlyAbove(nodes, y, p))
      && (forall x :: Above(nodes, p, x) ==> Above(nodes, k, x))
  {
    var p := nodes[k].parent.value;
    forall y | y in seen + {k} ensures ProperlyAbove(nodes, y, p) {
      if y == k {
        assert Climb(nodes, p, 0) == Some(p) && Climb(nodes, k, 1) == Some(p);
      } else {
        var n: nat :| n > 0 && Climb(nodes, y, n) == Some(k);
        ClimbOn(nodes, y, n, k);
      }
    }
    forall x | Above(nodes, p, x) ensures Above(nodes, k, x) {
      var n: nat :| Climb(nodes, p, n) == Some(x);
      assert Climb(nodes, k, n + 1) == Some(x);
    }
  }

  lemma {:induction false} ErrorsAreTrue(nodes: Nodes, k: string, seen: set<string>)
    requires forall y :: y in seen ==> ProperlyAbove(nodes, y, k)
    ensures GetFields(nodes, k, seen).Err? ==> ErrorAbove(nodes, k, GetFields(nodes, k, seen).error)
    decreases nodes.Keys - seen
  {
    assert Climb(nodes, k, 0) == Some(k);
    if k in nodes && k !in seen && nodes[k].parent.Some? {
      ParentAbove(nodes, k, seen);
      ErrorsAreTrue(nodes, nodes[k].parent.value, seen + {k});
    }
  }
}
