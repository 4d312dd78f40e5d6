/** What a node holds right after its `Make_` function, told by the description alone:
    the type and the initialisers of each field. */
module FreshNodes {
  import opened Text
  import opened SchemaReader
  import opened Inheritance
  import opened FieldTables
  import opened ClassTests
  import opened NodeStore
  import opened NodeFraming

  /** No declaration of the field has an initialiser. */
  ghost predicate Uninitialised(fs: seq<Field>, f: string) {
    forall i :: 0 <= i < |fs| && fs[i].name == f ==> fs[i].init.None?
  }

  /** The i-th declaration initialises the field to `e` and no later one initialises it. */
  ghost predicate LastAt(fs: seq<Field>, f: string, e: string, i: int) {
    && 0 <= i < |fs| && fs[i].name == f && fs[i].init == Some(e)
    && forall j :: i < j < |fs| && fs[j].name == f ==> fs[j].init.None?
  }

  /** `e` is the initialiser of the last declaration of the field that has one. */
  ghost predicate LastInitialiser(fs: seq<Field>, f: string, e: string) {
    exists i :: LastAt(fs, f, e, i)
  }

  lemma {:induction false} LastInitMeans(fs: seq<Field>, f: string)
    ensures LastInit(fs, f).None? <==> Uninitialised(fs, f)
    ensures forall e :: LastInit(fs, f) == Some(e) <==> LastInitialiser(fs, f, e)
  {
    if fs != [] {
      var init, g := fs[..|fs| - 1], fs[|fs| - 1];
      LastInitMeans(init, f);
      assert fs == init + [g];
      if g.name == f && g.init.Some? {
        assert LastAt(fs, f, g.init.value, |fs| - 1);
        forall e, i | LastAt(fs, f, e, i) ensures i == |fs| - 1 {
        }
      } else {
        forall e, i ensures LastAt(init, f, e, i) <==> LastAt(fs, f, e, i) {
          assert forall j :: 0 <= j < |init| ==> init[j] == fs[j];
        }
      }
    }
  }

  /** Kind survives construction exactly if it is not initialised, or lastly to K_<k>. */
  lemma KindKeptIff(nodes: Nodes, k: string)
    requires Rooted(nodes, k) && k != ""
    ensures KindKept(nodes, k) <==>
      Uninitialised(FieldsOf(nodes, k), "Kind") || LastInitialiser(FieldsOf(nodes, k), "Kind", "K_" + k)
  {
    LastInitMeans(FieldsOf(nodes, k), "Kind");
    var init := LastInit(FieldsOf(nodes, k), "Kind");
    if init.Some? {
      KindNamed(init.value, k);
    }
  }

  lemma KindNamed(e: string, k: string)
    requires k != ""
    ensures ValueOf(e) == KindValue(k) <==> e == "K_" + k
  {
    if e == "K_" + k {
      assert e[..2] == "K_" && e[2..] == k && e[0] == 'K';
    } else if |e| > 2 && e[..2] == "K_" {
      assert e == "K_" + e[2..];
    }
  }

  lemma GetAfterMake(reg: Registry, t: Tables, ops: seq<Op>, k: string, loc: int, f: string)
    requires Compiles(reg, t) && Concrete(reg.nodes, k) && KindKept(reg.nodes, k) && Sees(reg.nodes, k, f)
    ensures var n := |Run(reg, t, ops).0.table| + 1; var (s, replies) := Run(reg, t, ops + [Make(k, loc)]);
      && replies[|ops|] == Created(n) && |s.table| == n
      && f in t.types && f in s.table[n - 1]
      && s.table[n - 1][f] == InitialValue(t, k, FieldsOf(reg.nodes, k), loc, f)
      && Step(reg, t, s, Get(n, f)).1 == Got(s.table[n - 1][f])
  {
    var all := ops + [Make(k, loc)];
    assert all[..|all| - 1] == ops;
    MakeKindIff(reg, t, k, loc);
    SeenIsTabulated(reg, t, k, f);
    MakeFills(reg, t, k, loc, f);
    var s := Run(reg, t, all).0;
    var r := MadeRecord(reg.nodes, t, k, loc);
    assert s.table[|s.table| - 1] == r;
    var i :| 0 <= i < |t.kinds[f]| && t.kinds[f][i] == k;
    assert KindAssertion(t, f, r);
  }

  /** The value a field of type `typ` starts with when nothing initialises it. */
  ghost predicate StartsUnset(typ: string, v: Value) {
    && (typ == "Node_Id" ==> v == NoNode)
    && (typ == "Node_List" ==> v == List(0))
    && (typ != "Node_Id" && typ != "Node_List" ==> v == Unset)
  }

  /** The value of the initialiser `e`. */
  ghost predicate StartsAs(e: string, v: Value) {
    && (e == "No_Node" ==> v == NoNode)
    && (e == "Nil_List" ==> v == List(0))
    && (forall x :: x != "" && e == "K_" + x ==> v == KindValue(x))
    && (e != "No_Node" && e != "Nil_List" && !("K_" <= e) ==> v == Initial(e))
  }

  lemma ValueOfStarts(e: string)
    ensures StartsAs(e, ValueOf(e))
  {
    if "K_" <= e {
      assert e[0] == 'K';
    }
    forall x | x != "" && e == "K_" + x ensures ValueOf(e) == KindValue(x) {
      assert e[..2] == "K_" && e[2..] == x;
    }
    if |e| > 2 && e[..2] == "K_" {
      assert "K_" <= e;
    }
  }

  /** After any run, the getters of the node that `Make_<k>` has just made reply: the
      kind; the location argument, unless Loc is initialised; No_Node or the empty list
      for uninitialised fields of those types; and otherwise the last initialiser. */
  lemma NewNodeHolds(reg: Registry, t: Tables, ops: seq<Op>, k: string, loc: int, f: string)
    requires Compiles(reg, t) && Concrete(reg.nodes, k) && KindKept(reg.nodes, k) && Sees(reg.nodes, k, f)
    ensures var n := |Run(reg, t, ops).0.table| + 1; var (s, replies) := Run(reg, t, ops + [Make(k, loc)]);
      var fs := FieldsOf(reg.nodes, k); var reply := Step(reg, t, s, Get(n, f)).1;
      && replies[|ops|] == Created(n) && reply.Got? && f in t.types
      && (f == "Kind" ==> reply.v == KindValue(k))
      && (f == "Loc" && Uninitialised(fs, f) ==> reply.v == LocValue(loc))
      && (f != "Kind" && f != "Loc" && Uninitialised(fs, f) ==> StartsUnset(t.types[f], reply.v))
      && (forall e :: f != "Kind" && LastInitialiser(fs, f, e) ==> StartsAs(e, reply.v))
  {
    GetAfterMake(reg, t, ops, k, loc, f);
    LastInitMeans(FieldsOf(reg.nodes, k), f);
    var init := LastInit(FieldsOf(reg.nodes, k), f);
    if init.Some? {
      ValueOfStarts(init.value);
    }
  }

  /** In particular a list field that starts with List(0) reads as empty. */
  lemma NewListIsEmpty(reg: Registry, t: Tables, ops: seq<Op>, k: string, loc: int, f: string)
    requires Compiles(reg, t) && Concrete(reg.nodes, k) && KindKept(reg.nodes, k) && Sees(reg.nodes, k, f)
    requires f != "Kind" && f != "Loc"
    requires (f in t.types && t.types[f] == "Node_List" && Uninitialised(FieldsOf(reg.nodes, k), f))
      || LastInitialiser(FieldsOf(reg.nodes, k), f, "Nil_List")
    ensures ReadList(reg, t, Run(reg, t, ops + [Make(k, loc)]).0, |Run(reg, t, ops).0.table| + 1, f) == Some([])
  {
    NewNodeHolds(reg, t, ops, k, loc, f);
  }
}
