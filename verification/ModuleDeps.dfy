/** Resolve_Dependencies: from the names in a module's Depends list, and the
    implicit dependencies, to the dependency list that the traversal follows. */
module ModuleDeps {
  import opened ModuleInit

  datatype Resolution = Resolved(deps: seq<Dep>) | UnknownModule(name: string)

  predicate IsOptional(name: string) {
    name != "" && name[|name| - 1] == '?'
  }

  function Target(name: string): string {
    if IsOptional(name) then name[..|name| - 1] else name
  }

  /** Position of the first module of that name, or the length of the list. */
  function Lookup(names: seq<string>, name: string): (i: nat)
    ensures i <= |names| && (i < |names| ==> names[i] == name)
    ensures forall j :: 0 <= j < i ==> names[j] != name
  {
    if names == [] then 0 else if names[0] == name then 0 else 1 + Lookup(names[1..], name)
  }

  // ---------------------------------------------------------------- specification

  predicate Missing(names: seq<string>, dep: string) {
    !IsOptional(dep) && Target(dep) !in names
  }

  /** None of the first `n` entries stops resolution. */
  predicate Known(names: seq<string>, depends: seq<string>, n: nat)
    requires n <= |depends|
  {
    forall i :: 0 <= i < n ==> !Missing(names, depends[i])
  }

  predicate FirstMissing(names: seq<string>, depends: seq<string>, i: int) {
    0 <= i < |depends| && Missing(names, depends[i]) && Known(names, depends, i)
  }

  /** The dependency an entry stands for, if its module is there. */
  function Found(names: seq<string>, dep: string): seq<Dep> {
    if Target(dep) in names then [Dep(Lookup(names, Target(dep)), IsOptional(dep))] else []
  }

  function Reversed(s: seq<Dep>): seq<Dep> {
    if s == [] then [] else [s[|s| - 1]] + Reversed(s[..|s| - 1])
  }

  function FoundAll(names: seq<string>, depends: seq<string>): (found: seq<seq<Dep>>)
    ensures |found| == |depends| && forall i :: 0 <= i < |depends| ==> found[i] == Found(names, depends[i])
  {
    seq(|depends|, i requires 0 <= i < |depends| => Found(names, depends[i]))
  }

  function Implied(isImplicit: bool, implicits: seq<Dep>): seq<Dep> {
    if isImplicit then [] else Reversed(implicits)
  }

  /** The list after the first `n` entries: each puts its own dependency in front of what
      is there, and then the implicit ones in front of that. */
  function Gather(found: seq<seq<Dep>>, n: nat, implied: seq<Dep>): seq<Dep>
    requires n <= |found|
  {
    if n == 0 then [] else implied + (found[n - 1] + Gather(found, n - 1, implied))
  }

  function DepsOf(names: seq<string>, depends: seq<string>, isImplicit: bool, implicits: seq<Dep>): seq<Dep> {
    Gather(FoundAll(names, depends), |depends|, Implied(isImplicit, implicits))
  }

  // ---------------------------------------------------------------- the loops

  /** One module: stops at the first mandatory name that is unknown, and otherwise
      leaves exactly the list that the prepends build. */
  method Resolve(names: seq<string>, depends: seq<string>, isImplicit: bool, implicits: seq<Dep>) returns (r: Resolution)
    ensures r.Resolved? <==> Known(names, depends, |depends|)
    ensures r.Resolved? ==> r.deps == DepsOf(names, depends, isImplicit, implicits)
    ensures r.UnknownModule? ==> exists i :: FirstMissing(names, depends, i) && depends[i] == r.name
  {
    var deps: seq<Dep> := [];
    ghost var found, implied := FoundAll(names, depends), Implied(isImplicit, implicits);
    var i := 0;
    while i < |depends|
      invariant 0 <= i <= |depends|
      invariant Known(names, depends, i)
      invariant deps == Gather(found, i, implied)
    {
      var ok;
      ok, deps := TakeEntry(names, depends[i], isImplicit, implicits, deps);
      if !ok {
        assert FirstMissing(names, depends, i);
        return UnknownModule(depends[i]);
      }
      KnownNext(names, depends, i);
      assert deps == implied + (found[i] + Gather(found, i, implied));
      i := i + 1;
    }
    return Resolved(deps);
  }

  lemma KnownNext(names: seq<string>, depends: seq<string>, i: nat)
    requires i < |depends|
    ensures Known(names, depends, i + 1) <==> Known(names, depends, i) && !Missing(names, depends[i])
  {
  }

  /** One turn: the entry itself, then the implicit dependencies. */
  method TakeEntry(names: seq<string>, name: string, isImplicit: bool, implicits: seq<Dep>, before: seq<Dep>)
    returns (ok: bool, deps: seq<Dep>)
    ensures ok <==> !Missing(names, name)
    ensures ok ==> deps == Implied(isImplicit, implicits) + (Found(names, name) + before)
  {
    ok, deps := ResolveEntry(names, name, before);
    if ok && !isImplicit {
      deps := PrependAll(implicits, deps);
    }
  }

  /** The block that looks one entry up, its question mark cut off. */
  method ResolveEntry(names: seq<string>, name: string, before: seq<Dep>) returns (ok: bool, deps: seq<Dep>)
    ensures ok <==> !Missing(names, name)
    ensures ok ==> deps == Found(names, name) + before
  {
    var last, optional := |name|, false;
    if last > 0 && name[last - 1] == '?' {
      optional := true;
      last := last - 1;
    }
    assert name[..|name|] == name;
    deps := before;
    var t := Lookup(names, name[..last]);
    if t < |names| {
      deps := [Dep(t, optional)] + deps;
    } else if !optional {
      return false, deps;
    }
    return true, deps;
  }

  /** The inner loop over the implicit dependencies, each prepended in turn. */
  method PrependAll(implicits: seq<Dep>, deps: seq<Dep>) returns (r: seq<Dep>)
    ensures r == Reversed(implicits) + deps
  {
    r := deps;
    for i := 0 to |implicits|
      invariant r == Reversed(implicits[..i]) + deps
    {
      assert implicits[..i + 1][..i] == implicits[..i];
      r := [implicits[i]] + r;
    }
    assert implicits[..|implicits|] == implicits;
  }

  // ---------------------------------------------------------------- what the entries mean

  lemma {:induction false} ReversedAt(s: seq<Dep>, k: nat)
    requires k < |s|
    ensures |Reversed(s)| == |s| && Reversed(s)[k] == s[|s| - 1 - k]
  {
    if |s| > 1 {
      ReversedAt(s[..|s| - 1], if k > 0 then k - 1 else 0);
    }
  }

  /** `i` is the place of the first module of that name. */
  predicate FirstNamed(names: seq<string>, s: string, i: nat) {
    i < |names| && names[i] == s && forall j :: 0 <= j < i ==> names[j] != s
  }

  /** An entry "s?" never stops resolution, and stands for the first module called s, as
      an optional dependency, exactly if there is one. */
  lemma OptionalEntry(names: seq<string>, s: string)
    ensures !Missing(names, s + "?")
    ensures s !in names ==> Found(names, s + "?") == []
    ensures forall i: nat :: FirstNamed(names, s, i) ==> Found(names, s + "?") == [Dep(i, true)]
  {
    assert (s + "?")[..|s|] == s;
  }

  /** An entry that does not end in a question mark stops resolution exactly if no module
      has that name, and otherwise stands for the first one, as a mandatory dependency. */
  lemma MandatoryEntry(names: seq<string>, s: string)
    requires s == "" || s[|s| - 1] != '?'
    ensures Missing(names, s) <==> s !in names
    ensures forall i: nat :: FirstNamed(names, s, i) ==> Found(names, s) == [Dep(i, false)]
  {
  }

  /** Every entry is of one of the two forms. */
  lemma EntryForms(e: string)
    ensures (e == "" || e[|e| - 1] != '?') <==> !exists s: string :: e == s + "?"
  {
    if e != "" && e[|e| - 1] == '?' {
      assert e == e[..|e| - 1] + "?";
    }
  }

  /** Who is in the list: the modules that entries stand for, and the implicit
      dependencies if the module is not implicit itself and has an entry at all. */
  lemma InDepsOf(names: seq<string>, depends: seq<string>, isImplicit: bool, implicits: seq<Dep>, d: Dep)
    ensures d in DepsOf(names, depends, isImplicit, implicits) <==>
      (exists i :: 0 <= i < |depends| && d in Found(names, depends[i])) || (!isImplicit && depends != [] && d in implicits)
  {
    InGather(FoundAll(names, depends), |depends|, Implied(isImplicit, implicits), d);
    InReversed(implicits, d);
  }

  lemma {:induction false} InGather(found: seq<seq<Dep>>, n: nat, implied: seq<Dep>, d: Dep)
    requires n <= |found|
    ensures d in Gather(found, n, implied) <==> (exists i :: 0 <= i < n && d in found[i]) || (n > 0 && d in implied)
  {
    if n > 0 {
      InGather(found, n - 1, implied, d);
    }
  }

  lemma {:induction false} InReversed(s: seq<Dep>, d: Dep)
    ensures d in Reversed(s) <==> d in s
  {
    if s != [] {
      InReversed(s[..|s| - 1], d);
      assert s == s[..|s| - 1] + [s[|s| - 1]];
    }
  }

  /** The documentation promises the implicit dependencies to every module that is not
      implicit itself. The list has them all exactly if the module has an entry, or there
      are none. */
  lemma ImplicitsIff(names: seq<string>, depends: seq<string>, implicits: seq<Dep>)
    ensures (forall d :: d in implicits ==> d in DepsOf(names, depends, false, implicits)) <==> depends != [] || implicits == []
  {
    forall d ensures d in DepsOf(names, depends, false, implicits) <==>
      (exists i :: 0 <= i < |depends| && d in Found(names, depends[i])) || (depends != [] && d in implicits)
    {
      InDepsOf(names, depends, false, implicits, d);
    }
    if depends == [] && implicits != [] {
      assert implicits[0] in implicits;
    }
  }

  /** A module without Depends entries, in a world with one implicit dependency: nothing
      is added, although the module is not implicit itself. */
  method EmptyDependsMissesImplicit() returns (r: Resolution)
    ensures r == Resolved([])
  {
    r := Resolve(["implicit", "current"], [], false, [Dep(0, false)]);
  }

  /** The one entry of the module initial_references, where the module it names is there. */
  method OptionalIsFound() returns (r: Resolution)
    ensures r == Resolved([Dep(0, true)])
  {
    OptionalEntry(["references"], "references");
    assert FirstNamed(["references"], "references", 0) && "references" + "?" == "references?";
    r := Resolve(["references"], ["references?"], true, []);
    assert Gather(FoundAll(["references"], ["references?"]), 0, []) == [];
  }
}
