/** `append` and the generator loop over the node kinds: which kinds carry each
    field name, and the one type the name must have. */
module FieldTables {
  import opened Text
  import opened SchemaReader
  import opened Inheritance
  import opened SortedNames

  /** One call of `append (kind, name, type)`. */
  datatype Use = Use(kind: string, name: string, typ: string)

  /** `fields` and `typess`. */
  datatype Tables = Tables(kinds: map<string, seq<string>>, types: map<string, string>)

  // ---------------------------------------------------------------- specification

  ghost predicate AllRooted(nodes: Nodes) {
    forall k {:trigger Rooted(nodes, k)} :: k in nodes && k != ROOT ==> Rooted(nodes, k)
  }

  function KindUses(k: string, fs: seq<Field>): (us: seq<Use>)
    ensures |us| == |fs|
    ensures forall i :: 0 <= i < |us| ==> us[i] == Use(k, fs[i].name, fs[i].typ)
  {
    seq(|fs|, i requires 0 <= i < |fs| => Use(k, fs[i].name, fs[i].typ))
  }

  /** The calls made for the kinds of `order`, in order; Root is not a kind. */
  ghost function Uses(nodes: Nodes, order: seq<string>): seq<Use>
    requires forall i :: 0 <= i < |order| && order[i] != ROOT ==> Rooted(nodes, order[i])
  {
    if order == [] then []
    else
      Uses(nodes, order[..|order| - 1]) +
      var k := order[|order| - 1];
      if k == ROOT then [] else KindUses(k, FieldsOf(nodes, k))
  }

  function KindsUsing(us: seq<Use>, f: string): seq<string> {
    if us == [] then []
    else KindsUsing(us[..|us| - 1], f) + if us[|us| - 1].name == f then [us[|us| - 1].kind] else []
  }

  predicate Consistent(us: seq<Use>) {
    forall i, j :: 0 <= i < |us| && 0 <= j < |us| && us[i].name == us[j].name ==> us[i].typ == us[j].typ
  }

  ghost predicate Tabulates(t: Tables, us: seq<Use>) {
    && t.types.Keys == t.kinds.Keys
    && (forall i :: 0 <= i < |us| ==> us[i].name in t.types && t.types[us[i].name] == us[i].typ)
    && (forall f :: f in t.kinds ==> t.kinds[f] == KindsUsing(us, f))
    && (forall f :: f in t.kinds <==> KindsUsing(us, f) != [])
  }

  ghost function AllUses(nodes: Nodes): seq<Use>
    requires AllRooted(nodes)
  {
    Uses(nodes, Sorted(nodes.Keys))
  }

  /** Two kinds see the same field name with different types. */
  ghost predicate Clash(nodes: Nodes, f: string) {
    exists k1, k2, f1, f2 ::
      && VisibleIn(nodes, k1, f1) && VisibleIn(nodes, k2, f2)
      && f1.name == f == f2.name && f1.typ != f2.typ
  }

  ghost predicate VisibleIn(nodes: Nodes, k: string, f: Field) {
    k in nodes && k != ROOT && Rooted(nodes, k) && f in FieldsOf(nodes, k)
  }

  // ---------------------------------------------------------------- the tables

  /** The tables after a sequence of calls none of which conflicts. */
  function TableOf(us: seq<Use>): Tables {
    if us == [] then Tables(map[], map[])
    else
      var t, u := TableOf(us[..|us| - 1]), us[|us| - 1];
      Tables(t.kinds[u.name := (if u.name in t.kinds then t.kinds[u.name] else []) + [u.kind]],
             t.types[u.name := u.typ])
  }

  /** No call of the sequence conflicts with the calls before it. */
  predicate Accepted(us: seq<Use>) {
    us == [] || (Accepted(us[..|us| - 1]) && Fits(us[..|us| - 1], us[|us| - 1]))
  }

  predicate Fits(us: seq<Use>, u: Use) {
    u.name in TableOf(us).types ==> TableOf(us).types[u.name] == u.typ
  }

  lemma {:induction false} TableOfTabulates(us: seq<Use>)
    ensures Accepted(us) ==> Tabulates(TableOf(us), us)
    ensures Accepted(us) <==> Consistent(us)
  {
    if us != [] {
      var init, u := us[..|us| - 1], us[|us| - 1];
      assert us == init + [u];
      TableOfTabulates(init);
      ConsistentPrefix(init, u);
      UsingSomewhere(init, u.name);
      if Accepted(init) {
        FitsIff(init, u);
        if Fits(init, u) {
          TabulateNext(init, u);
        }
      }
    }
  }

  lemma ConsistentPrefix(us: seq<Use>, u: Use)
    ensures Consistent(us + [u]) <==>
      Consistent(us) && forall i :: 0 <= i < |us| && us[i].name == u.name ==> us[i].typ == u.typ
  {
    var vs := us + [u];
    assert forall i :: 0 <= i < |us| ==> vs[i] == us[i];
    assert vs[|us|] == u;
  }

  lemma FitsIff(us: seq<Use>, u: Use)
    requires Tabulates(TableOf(us), us)
    ensures Fits(us, u) <==> forall i :: 0 <= i < |us| && us[i].name == u.name ==> us[i].typ == u.typ
  {
    UsingSomewhere(us, u.name);
  }

  lemma TabulateNext(us: seq<Use>, u: Use)
    requires Tabulates(TableOf(us), us) && Fits(us, u)
    ensures Tabulates(TableOf(us + [u]), us + [u])
  {
    var vs, t := us + [u], TableOf(us);
    assert vs[..|vs| - 1] == us && vs[|vs| - 1] == u;
    var t' := TableOf(vs);
    assert t'.types == t.types[u.name := u.typ];
    forall f
      ensures f in t'.kinds <==> KindsUsing(vs, f) != []
      ensures f in t'.kinds ==> t'.kinds[f] == KindsUsing(vs, f)
    {
      assert KindsUsing(vs, f) == KindsUsing(us, f) + if u.name == f then [u.kind] else [];
    }
    forall i | 0 <= i < |vs|
      ensures vs[i].name in t'.types && t'.types[vs[i].name] == vs[i].typ
    {
      assert i < |us| ==> vs[i] == us[i];
    }
  }

  class FieldTable {
    var fields: map<string, seq<string>>
    var typess: map<string, string>

    ghost function Value(): Tables
      reads this
    {
      Tables(fields, typess)
    }

    constructor ()
      ensures Value() == TableOf([])
    {
      fields, typess := map[], map[];
    }

    /** `append`; `ok` is false where the script reports conflicting types and exits. */
    method Append(u: Use, ghost us: seq<Use>) returns (ok: bool)
      requires Value() == TableOf(us)
      modifies this
      ensures ok <==> Fits(us, u)
      ensures Value() == if ok then TableOf(us + [u]) else old(Value())
    {
      assert (us + [u])[..|us + [u]| - 1] == us;
      TypedIffUsed(us);
      if u.name in fields {
        if typess[u.name] != u.typ {
          return false;
        }
        fields := fields[u.name := fields[u.name] + [u.kind]];
        assert typess == typess[u.name := u.typ];
      } else {
        assert [] + [u.kind] == [u.kind];
        fields := fields[u.name := [u.kind]];
        typess := typess[u.name := u.typ];
      }
      return true;
    }

    /** The inner loop: one `append` per visible field of kind `k`, up to the first conflict. */
    method AppendAll(k: string, fs: seq<Field>, ghost us: seq<Use>) returns (conflict: Option<string>)
      requires Value() == TableOf(us) && Accepted(us)
      modifies this
      ensures conflict.None? ==> Value() == TableOf(us + KindUses(k, fs)) && Accepted(us + KindUses(k, fs))
      ensures conflict.Some? ==> Conflicting(us + KindUses(k, fs), conflict.value)
    {
      ghost var added := KindUses(k, fs);
      var i := 0;
      assert us + added[..0] == us;
      while i < |fs|
        invariant 0 <= i <= |fs|
        invariant Value() == TableOf(us + added[..i]) && Accepted(us + added[..i])
      {
        var ok := AppendNext(Use(k, fs[i].name, fs[i].typ), us, added, i);
        if !ok {
          return Some(fs[i].name);
        }
        i := i + 1;
      }
      assert added[..i] == added;
      return None;
    }

    /** One turn of that loop. */
    method AppendNext(u: Use, ghost us: seq<Use>, ghost added: seq<Use>, ghost i: nat) returns (ok: bool)
      requires i < |added| && added[i] == u
      requires Value() == TableOf(us + added[..i]) && Accepted(us + added[..i])
      modifies this
      ensures ok ==> Value() == TableOf(us + added[..i + 1]) && Accepted(us + added[..i + 1])
      ensures !ok ==> Conflicting(us + added, u.name)
    {
      ok := Append(u, us + added[..i]);
      if ok {
        AcceptedNext(us, added, i);
      } else {
        ConflictAt(us, added, i);
      }
    }
  }

  lemma AcceptedNext(us: seq<Use>, added: seq<Use>, i: nat)
    requires i < |added| && Accepted(us + added[..i]) && Fits(us + added[..i], added[i])
    ensures us + added[..i + 1] == us + added[..i] + [added[i]] && Accepted(us + added[..i + 1])
  {
    var vs := us + added[..i + 1];
    assert vs == us + added[..i] + [added[i]];
    assert vs[..|vs| - 1] == us + added[..i];
  }

  lemma {:induction false} TypedIffUsed(us: seq<Use>)
    ensures TableOf(us).types.Keys == TableOf(us).kinds.Keys
  {
    if us != [] {
      TypedIffUsed(us[..|us| - 1]);
    }
  }

  ghost predicate Conflicting(us: seq<Use>, f: string) {
    exists i, j :: 0 <= i < |us| && 0 <= j < |us| && us[i].name == f == us[j].name && us[i].typ != us[j].typ
  }

  lemma ConflictAt(us: seq<Use>, added: seq<Use>, i: int)
    requires 0 <= i < |added| && Accepted(us + added[..i]) && !Fits(us + added[..i], added[i])
    ensures Conflicting(us + added, added[i].name)
  {
    var vs := us + added[..i];
    TableOfTabulates(vs);
    FitsIff(vs, added[i]);
    var j :| 0 <= j < |vs| && vs[j].name == added[i].name && vs[j].typ != added[i].typ;
    assert (us + added)[j] == vs[j] && (us + added)[|us| + i] == added[i];
  }

  lemma {:induction false} UsingSomewhere(us: seq<Use>, f: string)
    ensures KindsUsing(us, f) != [] <==> exists i :: 0 <= i < |us| && us[i].name == f
  {
    if us != [] {
      UsingSomewhere(us[..|us| - 1], f);
      assert forall i :: 0 <= i < |us| - 1 ==> us[..|us| - 1][i] == us[i];
    }
  }

  /** One turn of the outer loop: the fields visible in kind `k` enter the tables. */
  method AddKind(nodes: Nodes, k: string, table: FieldTable, ghost us: seq<Use>) returns (stop: Option<Error>)
    requires table.Value() == TableOf(us) && Accepted(us)
    modifies table
    ensures Rooted(nodes, k) <==> stop.None? || stop.value.Conflict?
    ensures !Rooted(nodes, k) ==> ErrorAbove(nodes, k, stop.value)
    ensures stop.None? ==> table.Value() == TableOf(us + KindUses(k, FieldsOf(nodes, k)))
    ensures stop.None? ==> Accepted(us + KindUses(k, FieldsOf(nodes, k)))
    ensures Rooted(nodes, k) && stop.Some? ==>
      Conflicting(us + KindUses(k, FieldsOf(nodes, k)), stop.value.field)
  {
    var visible := GetFields(nodes, k, {});
    if visible.Err? {
      ErrorsAreTrue(nodes, k, {});
      return Some(visible.error);
    }
    var conflict := table.AppendAll(k, visible.value, us);
    return if conflict.Some? then Some(Conflict(conflict.value)) else None;
  }

  ghost predicate RootedUpTo(nodes: Nodes, order: seq<string>, n: int) {
    0 <= n <= |order| && forall i :: 0 <= i < n && order[i] != ROOT ==> Rooted(nodes, order[i])
  }

  /** The outer loop over `order`; on a stop, `at` is the kind being processed. */
  method Collect(nodes: Nodes, order: seq<string>) returns (r: Result<Tables>, ghost at: int)
    ensures 0 <= at <= |order| && RootedUpTo(nodes, order, at)
    ensures r.Ok? ==> at == |order| && Accepted(Uses(nodes, order[..at])) && r.value == TableOf(Uses(nodes, order[..at]))
    ensures r.Err? && r.error.Conflict? ==> Conflicting(Uses(nodes, order[..at]), r.error.field)
    ensures r.Err? && !r.error.Conflict? ==>
      at < |order| && order[at] != ROOT && !Rooted(nodes, order[at]) && ErrorAbove(nodes, order[at], r.error)
  {
    var table := new FieldTable();
    var n := 0;
    assert order[..n] == [];
    while n < |order|
      invariant RootedUpTo(nodes, order, n)
      invariant Accepted(Uses(nodes, order[..n])) && table.Value() == TableOf(Uses(nodes, order[..n]))
    {
      var stop := AddNext(nodes, order, n, table);
      if stop.Some? {
        if stop.value.Conflict? {
          return Err(stop.value), n + 1;
        }
        return Err(stop.value), n;
      }
      n := n + 1;
    }
    return Ok(Tables(table.fields, table.typess)), n;
  }

  /** One turn of that loop; Root is passed over. */
  method AddNext(nodes: Nodes, order: seq<string>, n: nat, table: FieldTable) returns (stop: Option<Error>)
    requires n < |order| && RootedUpTo(nodes, order, n)
    requires Accepted(Uses(nodes, order[..n])) && table.Value() == TableOf(Uses(nodes, order[..n]))
    modifies table
    ensures stop.None? ==> RootedUpTo(nodes, order, n + 1)
    ensures stop.None? ==> Accepted(Uses(nodes, order[..n + 1])) && table.Value() == TableOf(Uses(nodes, order[..n + 1]))
    ensures stop.Some? && stop.value.Conflict? ==>
      RootedUpTo(nodes, order, n + 1) && Conflicting(Uses(nodes, order[..n + 1]), stop.value.field)
    ensures stop.Some? && !stop.value.Conflict? ==>
      order[n] != ROOT && !Rooted(nodes, order[n]) && ErrorAbove(nodes, order[n], stop.value)
  {
    stop := None;
    if order[n] != ROOT {
      stop := AddKind(nodes, order[n], table, Uses(nodes, order[..n]));
    }
    if stop.None? || stop.value.Conflict? {
      UsesStep(nodes, order, n);
    }
  }

  /** The table-building part of generation succeeds exactly when every kind is
      rooted and no field name has two types, and then the tables are those of
      all the calls; a failure says truly what is wrong. */
  method Elaborate(nodes: Nodes) returns (r: Result<Tables>)
    ensures r.Ok? <==> AllRooted(nodes) && Consistent(AllUses(nodes))
    ensures r.Ok? ==> Tabulates(r.value, AllUses(nodes))
    ensures r.Err? && r.error.Conflict? ==> Clash(nodes, r.error.field)
    ensures r.Err? && !r.error.Conflict? ==> exists k :: k in nodes && k != ROOT && ErrorAbove(nodes, k, r.error)
  {
    var order := Sorted(nodes.Keys);
    ghost var at;
    r, at := Collect(nodes, order);
    if r.Ok? {
      assert order[..at] == order;
      TableOfTabulates(Uses(nodes, order));
    } else if r.error.Conflict? {
      ConflictIsClash(nodes, order, at, r.error.field);
    } else {
      assert order[at] in nodes;
    }
  }

  lemma UsesStep(nodes: Nodes, order: seq<string>, n: nat)
    requires n < |order|
    requires forall i :: 0 <= i <= n && order[i] != ROOT ==> Rooted(nodes, order[i])
    ensures Uses(nodes, order[..n + 1]) == if order[n] == ROOT then Uses(nodes, order[..n])
      else Uses(nodes, order[..n]) + KindUses(order[n], FieldsOf(nodes, order[n]))
  {
    assert order[..n + 1][..n] == order[..n];
  }

  /** Where each call comes from. */
  lemma {:induction false} UseOrigin(nodes: Nodes, order: seq<string>, i: int) returns (k: string, f: Field)
    requires forall i :: 0 <= i < |order| ==> order[i] in nodes && (order[i] != ROOT ==> Rooted(nodes, order[i]))
    requires 0 <= i < |Uses(nodes, order)|
    ensures VisibleIn(nodes, k, f) && k in order && Uses(nodes, order)[i] == Use(k, f.name, f.typ)
  {
    var init := order[..|order| - 1];
    var us := Uses(nodes, init);
    if i < |us| {
      k, f := UseOrigin(nodes, init, i);
    } else {
      k := order[|order| - 1];
      f := FieldsOf(nodes, k)[i - |us|];
    }
  }

  /** Every visible field of every kind gives rise to a call. */
  lemma {:induction false} UseExists(nodes: Nodes, order: seq<string>, k: string, f: Field) returns (i: int)
    requires forall i :: 0 <= i < |order| && order[i] != ROOT ==> Rooted(nodes, order[i])
    requires k in order && VisibleIn(nodes, k, f)
    ensures 0 <= i < |Uses(nodes, order)| && Uses(nodes, order)[i] == Use(k, f.name, f.typ)
  {
    var init := order[..|order| - 1];
    if k in init {
      i := UseExists(nodes, init, k, f);
    } else {
      assert k == order[|order| - 1];
      var fs := FieldsOf(nodes, k);
      var j :| 0 <= j < |fs| && fs[j] == f;
      i := |Uses(nodes, init)| + j;
      assert KindUses(k, fs)[j] == Use(k, f.name, f.typ);
    }
  }

  lemma ConflictIsClash(nodes: Nodes, order: seq<string>, n: int, f: string)
    requires order == Sorted(nodes.Keys) && 0 <= n <= |order|
    requires forall i :: 0 <= i < n && order[i] != ROOT ==> Rooted(nodes, order[i])
    requires Conflicting(Uses(nodes, order[..n]), f)
    ensures Clash(nodes, f)
    ensures !(AllRooted(nodes) && Consistent(AllUses(nodes)))
  {
    var us := Uses(nodes, order[..n]);
    var i, j :| 0 <= i < |us| && 0 <= j < |us| && us[i].name == f == us[j].name && us[i].typ != us[j].typ;
    forall i | 0 <= i < n ensures order[..n][i] in nodes { assert order[i] in order; }
    var k1, f1 := UseOrigin(nodes, order[..n], i);
    var k2, f2 := UseOrigin(nodes, order[..n], j);
    if AllRooted(nodes) {
      ClashIsInconsistent(nodes, f);
    }
  }

  lemma ClashIsInconsistent(nodes: Nodes, f: string)
    requires AllRooted(nodes) && Clash(nodes, f)
    ensures !Consistent(AllUses(nodes))
  {
    var order := Sorted(nodes.Keys);
    var k1, k2, f1, f2 :|
      && VisibleIn(nodes, k1, f1) && VisibleIn(nodes, k2, f2)
      && f1.name == f == f2.name && f1.typ != f2.typ;
    var i := UseExists(nodes, order, k1, f1);
    var j := UseExists(nodes, order, k2, f2);
  }

  /** Type checking is complete: the tables exist exactly when no name clashes. */
  lemma ConsistentIffNoClash(nodes: Nodes)
    requires AllRooted(nodes)
    ensures Consistent(AllUses(nodes)) <==> forall f :: !Clash(nodes, f)
  {
    var order := Sorted(nodes.Keys);
    var us := AllUses(nodes);
    assert order[..|order|] == order;
    if !Consistent(us) {
      var i, j :| 0 <= i < |us| && 0 <= j < |us| && us[i].name == us[j].name && us[i].typ != us[j].typ;
      assert Conflicting(us, us[i].name);
      ConflictIsClash(nodes, order, |order|, us[i].name);
    } else {
      forall f ensures !Clash(nodes, f) {
        if Clash(nodes, f) {
          ClashIsInconsistent(nodes, f);
        }
      }
    }
  }

  // ---------------------------------------------------------------- the kind lists

  function Occurrences(fs: seq<Field>, f: string): nat {
    if fs == [] then 0
    else Occurrences(fs[..|fs| - 1], f) + if fs[|fs| - 1].name == f then 1 else 0
  }

  lemma {:induction false} KindsUsingConcat(a: seq<Use>, b: seq<Use>, f: string)
    ensures KindsUsing(a + b, f) == KindsUsing(a, f) + KindsUsing(b, f)
  {
    if b == [] {
      assert a + b == a;
    } else {
      KindsUsingConcat(a, b[..|b| - 1], f);
      assert (a + b)[..|a + b| - 1] == a + b[..|b| - 1];
    }
  }

  lemma {:induction false} KindUsesCount(k: string, fs: seq<Field>, f: string, x: string)
    ensures multiset(KindsUsing(KindUses(k, fs), f))[x] == if x == k then Occurrences(fs, f) else 0
  {
    if fs != [] {
      var init := fs[..|fs| - 1];
      KindUsesCount(k, init, f, x);
      assert KindUses(k, fs)[..|fs| - 1] == KindUses(k, init);
    }
  }

  lemma UsesCountNext(us: seq<Use>, k: string, fs: seq<Field>, f: string, x: string)
    ensures multiset(KindsUsing(us + KindUses(k, fs), f))[x] ==
      multiset(KindsUsing(us, f))[x] + if x == k then Occurrences(fs, f) else 0
  {
    KindsUsingConcat(us, KindUses(k, fs), f);
    KindUsesCount(k, fs, f, x);
  }

  lemma {:induction false} UsesCount(nodes: Nodes, order: seq<string>, f: string, x: string)
    requires forall i :: 0 <= i < |order| && order[i] != ROOT ==> Rooted(nodes, order[i])
    requires forall i, j :: 0 <= i < j < |order| ==> order[i] != order[j]
    ensures multiset(KindsUsing(Uses(nodes, order), f))[x] ==
      if x in order && x != ROOT then Occurrences(FieldsOf(nodes, x), f) else 0
  {
    if order != [] {
      var init := order[..|order| - 1];
      var k := order[|order| - 1];
      UsesCount(nodes, init, f, x);
      LastIsNew(order, x);
      if k == ROOT {
        assert Uses(nodes, order) == Uses(nodes, init);
      } else {
        UsesCountNext(Uses(nodes, init), k, FieldsOf(nodes, k), f, x);
      }
    }
  }

  lemma LastIsNew(order: seq<string>, x: string)
    requires order != [] && forall i, j :: 0 <= i < j < |order| ==> order[i] != order[j]
    ensures var init, k := order[..|order| - 1], order[|order| - 1];
      (x in order <==> x in init || x == k) && k !in init
  {
    assert order == order[..|order| - 1] + [order[|order| - 1]];
  }

  lemma {:induction false} OccurrencesPositive(fs: seq<Field>, f: string)
    ensures Occurrences(fs, f) > 0 <==> exists i :: 0 <= i < |fs| && fs[i].name == f
  {
    if fs != [] {
      OccurrencesPositive(fs[..|fs| - 1], f);
      assert forall i :: 0 <= i < |fs| - 1 ==> fs[..|fs| - 1][i] == fs[i];
    }
  }

  ghost predicate Sees(nodes: Nodes, k: string, f: string)
    requires Rooted(nodes, k)
  {
    exists i :: 0 <= i < |FieldsOf(nodes, k)| && FieldsOf(nodes, k)[i].name == f
  }

  /** The accessor of field `f` lists kind `x` once for each time `f` occurs in
      `get_fields (x)`; so it lists `x` at all exactly when `x` sees `f`. */
  lemma KindListExact(nodes: Nodes, f: string, x: string)
    requires AllRooted(nodes)
    ensures x in nodes && x != ROOT ==>
      multiset(KindsUsing(AllUses(nodes), f))[x] == Occurrences(FieldsOf(nodes, x), f)
    ensures x in KindsUsing(AllUses(nodes), f) <==> x in nodes && x != ROOT && Sees(nodes, x, f)
  {
    SortedIncreases(nodes.Keys);
    assert forall i, j :: 0 <= i < j < |Sorted(nodes.Keys)| ==> Sorted(nodes.Keys)[i] != Sorted(nodes.Keys)[j];
    UsesCount(nodes, Sorted(nodes.Keys), f, x);
    if x in nodes && x != ROOT {
      OccurrencesPositive(FieldsOf(nodes, x), f);
    }
    assert x in KindsUsing(AllUses(nodes), f) <==> multiset(KindsUsing(AllUses(nodes), f))[x] > 0;
  }
}
