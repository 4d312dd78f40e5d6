/** chk_distrib.py, `read_one_ali` and `read_allsrc`: a depth-first walk over the
    ALI files that may refer to each other in cycles, with one global list of the
    files already entered. */
module AliClosure {
  import opened Text

  /** A line of an ALI file: a unit, a unit line that its pattern does not match
      (the script dies on it), a dependency on another ALI file, or anything else. */
  datatype Entry = Unit(name: string) | BadUnit | With(ali: string) | Skip

  type Files = map<string, seq<Entry>>

  datatype Result = Units(units: seq<string>) | Died

  const ALLSRC := "allsrc.ali"

  // ---------------------------------------------------------------- specification

  function UnitsIn(es: seq<Entry>): seq<string> {
    if es == [] then []
    else UnitsIn(es[..|es| - 1]) + if es[|es| - 1].Unit? then ["src/" + es[|es| - 1].name] else []
  }

  /** A file that cannot be opened contributes nothing. */
  function EntriesOf(files: Files, f: string): seq<Entry> {
    if f in files then files[f] else []
  }

  function UnitsOf(files: Files, f: string): multiset<string> {
    multiset(UnitsIn(EntriesOf(files, f)))
  }

  /** The units of a list of files, with multiplicity. */
  function UnitsOfAll(files: Files, fs: seq<string>): multiset<string> {
    if fs == [] then multiset{} else UnitsOfAll(files, fs[..|fs| - 1]) + UnitsOf(files, fs[|fs| - 1])
  }

  predicate Refers(files: Files, f: string, g: string) {
    exists i :: 0 <= i < |EntriesOf(files, f)| && EntriesOf(files, f)[i] == With(g)
  }

  predicate Link(files: Files, p: seq<string>, i: int) {
    0 <= i < |p| - 1 && Refers(files, p[i], p[i + 1])
  }

  ghost predicate IsChain(files: Files, p: seq<string>) {
    forall i :: 0 <= i < |p| - 1 ==> Link(files, p, i)
  }

  /** `g` is reached from `f` by one or more references. */
  ghost predicate Reaches(files: Files, f: string, g: string) {
    exists p :: |p| > 1 && IsChain(files, p) && p[0] == f && p[|p| - 1] == g
  }

  /** One of the files has a unit line the pattern does not match. */
  ghost predicate Dies(files: Files, fs: seq<string>) {
    exists i :: 0 <= i < |fs| && BadUnit in EntriesOf(files, fs[i])
  }

  /** The same, for the first `i` lines of `file` and the files entered through them. */
  ghost predicate DiesSoFar(files: Files, file: string, i: nat, added: seq<string>)
    requires i <= |EntriesOf(files, file)|
  {
    (exists k :: 0 <= k < i && EntriesOf(files, file)[k] == BadUnit) || Dies(files, added)
  }

  lemma DiesJoin(files: Files, a: seq<string>, b: seq<string>)
    ensures Dies(files, a + b) <==> Dies(files, a) || Dies(files, b)
  {
    var c := a + b;
    if i :| 0 <= i < |c| && BadUnit in EntriesOf(files, c[i]) {
      assert if i < |a| then c[i] == a[i] else c[i] == b[i - |a|];
    }
    if i :| 0 <= i < |a| && BadUnit in EntriesOf(files, a[i]) {
      assert c[i] == a[i];
    }
    if i :| 0 <= i < |b| && BadUnit in EntriesOf(files, b[i]) {
      assert c[|a| + i] == b[i];
    }
  }

  lemma DiesAtEnd(files: Files, file: string, i: nat, added: seq<string>)
    requires i <= |EntriesOf(files, file)|
    ensures DiesSoFar(files, file, i, added) ==> Dies(files, [file] + added)
    ensures i == |EntriesOf(files, file)| ==> (DiesSoFar(files, file, i, added) <==> Dies(files, [file] + added))
  {
    DiesJoin(files, [file], added);
    assert Dies(files, [file]) <==> BadUnit in EntriesOf(files, file) by {
      assert [file][0] == file;
    }
  }

  lemma Regroup(a: seq<string>, b: seq<string>, c: seq<string>)
    ensures (a + b) + c == a + (b + c)
  {
  }

  /** Everything any file refers to. */
  ghost function Named(files: Files): set<string> {
    set f, i | f in files && 0 <= i < |files[f]| && files[f][i].With? :: files[f][i].ali
  }

  // ---------------------------------------------------------------- reachability

  lemma ReachStep(files: Files, f: string, g: string)
    requires Refers(files, f, g)
    ensures Reaches(files, f, g)
  {
    var p := [f, g];
    assert Link(files, p, 0);
    assert IsChain(files, p) && p[0] == f && p[|p| - 1] == g;
  }

  lemma ReachTransitive(files: Files, f: string, g: string, h: string)
    requires Reaches(files, f, g) && Reaches(files, g, h)
    ensures Reaches(files, f, h)
  {
    var p :| |p| > 1 && IsChain(files, p) && p[0] == f && p[|p| - 1] == g;
    var q :| |q| > 1 && IsChain(files, q) && q[0] == g && q[|q| - 1] == h;
    var r := p + q[1..];
    forall i | 0 <= i < |r| - 1 ensures Link(files, r, i) {
      if i < |p| - 1 {
        assert Link(files, p, i) && r[i] == p[i] && r[i + 1] == p[i + 1];
      } else {
        assert Link(files, q, i - |p| + 1) && r[i] == q[i - |p| + 1] && r[i + 1] == q[i - |p| + 2];
      }
    }
    assert IsChain(files, r) && r[0] == f && r[|r| - 1] == h;
  }

  /** Every file of `fs` has all its references in `seen`. */
  ghost predicate Closed(files: Files, fs: seq<string>, seen: seq<string>) {
    forall i, g :: 0 <= i < |fs| && Refers(files, fs[i], g) ==> g in seen
  }

  lemma {:induction false} ChainStaysInside(files: Files, root: string, seen: seq<string>, p: seq<string>)
    requires Closed(files, [root] + seen, seen)
    requires |p| > 1 && IsChain(files, p) && p[0] == root
    ensures p[|p| - 1] in seen
  {
    var q := p[..|p| - 1];
    var last := q[|q| - 1];
    if |q| > 1 {
      forall i | 0 <= i < |q| - 1 ensures Link(files, q, i) {
        assert Link(files, p, i);
      }
      ChainStaysInside(files, root, seen, q);
    }
    assert last in [root] + seen;
    assert Link(files, p, |p| - 2);
    var i :| 0 <= i < |[root] + seen| && ([root] + seen)[i] == last;
  }

  // ---------------------------------------------------------------- the walk

  class AliReader {
    const files: Files
    var seen: seq<string>    // alis_seen

    constructor (files: Files)
      ensures this.files == files && seen == []
    {
      this.files := files;
      seen := [];
    }

    /** Terminates on any graph. On success the files entered meanwhile are new,
        distinct, reachable from `file`, fully processed, and each contributes its
        units once, next to those of `file` itself. */
    method ReadOne(file: string) returns (r: Result, ghost added: seq<string>)
      requires NoRepeats(seen)
      modifies this
      ensures NoRepeats(seen) && seen == old(seen) + added
      ensures forall g :: g in added ==> Reaches(files, file, g)
      ensures r.Units? ==> multiset(r.units) == UnitsOf(files, file) + UnitsOfAll(files, added)
      ensures r.Units? ==> Closed(files, [file] + added, seen)
      ensures r.Died? <==> Dies(files, [file] + added)
      decreases Named(files) - set g | g in seen, 2
    {
      added := [];
      if file !in files {
        Begin(files, file, seen);
        Finished(files, file, seen, [], []);
        return Units([]), [];
      }
      var units: seq<string> := [];
      var i := 0;
      Begin(files, file, seen);
      while i < |files[file]|
        invariant 0 <= i <= |files[file]| && NoRepeats(seen) && seen == old(seen) + added
        invariant Progress(files, file, i, seen, added, units)
      {
        NeverGrows(files, old(seen), added);
        r, added := ReadLine(file, i, units, old(seen), added);
        if r.Died? {
          DiesAtEnd(files, file, i + 1, added);
          return;
        }
        units := r.units;
        i := i + 1;
      }
      Finished(files, file, seen, added, units);
      return Units(units), added;
    }

    /** One turn of the loop: line `i` of `file`. */
    method ReadLine(file: string, i: nat, units: seq<string>, ghost base: seq<string>, ghost added: seq<string>)
      returns (r: Result, ghost added': seq<string>)
      requires file in files && i < |files[file]| && NoRepeats(seen) && seen == base + added
      requires Progress(files, file, i, seen, added, units)
      modifies this
      ensures NoRepeats(seen) && seen == base + added'
      ensures forall g :: g in added' ==> Reaches(files, file, g)
      ensures r.Units? ==> Progress(files, file, i + 1, seen, added', r.units)
      ensures r.Died? <==> DiesSoFar(files, file, i + 1, added')
      decreases Named(files) - set g | g in seen, 1
    {
      added' := added;
      match files[file][i] {
        case Unit(name) =>
          UnitProgress(files, file, i, seen, added, units);
          r := Units(units + ["src/" + name]);
        case BadUnit =>
          r := Died;
        case Skip =>
          SkipProgress(files, file, i, seen, added, units);
          r := Units(units);
        case With(ali) =>
          if ali in seen {
            SkipProgress(files, file, i, seen, added, units);
            r := Units(units);
          } else {
            assert ali in Named(files);
            ghost var below;
            r, below := Enter(ali);
            added' := added + ([ali] + below);
            Regroup(base, added, [ali] + below);
            ReachAll(files, file, i, below);
            DiesJoin(files, added, [ali] + below);
            if r.Units? {
              WithProgress(files, file, i, base + added, seen, added, below, units, r.units);
              r := Units(units + r.units);
            }
          }
      }
    }

    /** A file met for the first time is recorded before it is read. */
    method Enter(ali: string) returns (r: Result, ghost more: seq<string>)
      requires NoRepeats(seen) && ali !in seen && ali in Named(files)
      modifies this
      ensures NoRepeats(seen) && seen == old(seen) + ([ali] + more)
      ensures forall g :: g in more ==> Reaches(files, ali, g)
      ensures r.Units? ==> multiset(r.units) == UnitsOf(files, ali) + UnitsOfAll(files, more)
      ensures r.Units? ==> Closed(files, [ali] + more, seen)
      ensures r.Died? <==> Dies(files, [ali] + more)
      decreases Named(files) - set g | g in seen, 0
    {
      Shrinks(files, ali, seen);
      assert (seen + [ali])[..|seen|] == seen;
      seen := seen + [ali];
      r, more := ReadOne(ali);
      Regroup(old(seen), [ali], more);
    }
  }

  /** The state of the loop after the first `i` lines of `file`. */
  ghost predicate Progress(files: Files, file: string, i: nat, seen: seq<string>, added: seq<string>, units: seq<string>)
    requires i <= |EntriesOf(files, file)|
  {
    var es := EntriesOf(files, file);
    && (forall g :: g in added ==> Reaches(files, file, g))
    && multiset(units) == multiset(UnitsIn(es[..i])) + UnitsOfAll(files, added)
    && Closed(files, added, seen)
    && (forall k :: 0 <= k < i && es[k].With? ==> es[k].ali in seen)
    && !DiesSoFar(files, file, i, added)
  }

  lemma Begin(files: Files, file: string, seen: seq<string>)
    ensures Progress(files, file, 0, seen, [], [])
  {
  }

  lemma UnitProgress(files: Files, file: string, i: nat, seen: seq<string>, added: seq<string>, units: seq<string>)
    requires i < |EntriesOf(files, file)| && EntriesOf(files, file)[i].Unit?
    requires Progress(files, file, i, seen, added, units)
    ensures Progress(files, file, i + 1, seen, added, units + ["src/" + EntriesOf(files, file)[i].name])
  {
    UnitAdded(EntriesOf(files, file), i, units, UnitsOfAll(files, added));
  }

  lemma UnitAdded(es: seq<Entry>, i: nat, units: seq<string>, more: multiset<string>)
    requires i < |es| && es[i].Unit? && multiset(units) == multiset(UnitsIn(es[..i])) + more
    ensures multiset(units + ["src/" + es[i].name]) == multiset(UnitsIn(es[..i + 1])) + more
  {
    UnitsInNext(es, i);
  }

  lemma UnitsInNext(es: seq<Entry>, i: nat)
    requires i < |es|
    ensures UnitsIn(es[..i + 1]) == if es[i].Unit? then UnitsIn(es[..i]) + ["src/" + es[i].name] else UnitsIn(es[..i])
  {
    assert es[..i + 1][..i] == es[..i];
  }

  lemma SkipProgress(files: Files, file: string, i: nat, seen: seq<string>, added: seq<string>, units: seq<string>)
    requires i < |EntriesOf(files, file)| && !EntriesOf(files, file)[i].Unit? && !EntriesOf(files, file)[i].BadUnit?
    requires EntriesOf(files, file)[i].With? ==> EntriesOf(files, file)[i].ali in seen
    requires Progress(files, file, i, seen, added, units)
    ensures Progress(files, file, i + 1, seen, added, units)
  {
    UnitsInNext(EntriesOf(files, file), i);
  }

  lemma ReachAll(files: Files, file: string, i: nat, more: seq<string>)
    requires i < |EntriesOf(files, file)| && EntriesOf(files, file)[i].With?
    requires forall g :: g in more ==> Reaches(files, EntriesOf(files, file)[i].ali, g)
    ensures forall g :: g in [EntriesOf(files, file)[i].ali] + more ==> Reaches(files, file, g)
  {
    var ali := EntriesOf(files, file)[i].ali;
    assert Refers(files, file, ali);
    ReachStep(files, file, ali);
    forall g | g in more ensures Reaches(files, file, g) {
      ReachTransitive(files, file, ali, g);
    }
  }

  lemma WithProgress(files: Files, file: string, i: nat, before: seq<string>, after: seq<string>,
                     added: seq<string>, more: seq<string>, units: seq<string>, sub: seq<string>)
    requires i < |EntriesOf(files, file)| && EntriesOf(files, file)[i].With?
    requires Progress(files, file, i, before, added, units)
    requires var ali := EntriesOf(files, file)[i].ali;
      && before + ([ali] + more) == after && Closed(files, [ali] + more, after)
      && multiset(sub) == UnitsOf(files, ali) + UnitsOfAll(files, more)
      && !Dies(files, [ali] + more)
      && forall g :: g in [ali] + more ==> Reaches(files, file, g)
    ensures Progress(files, file, i + 1, after, added + ([EntriesOf(files, file)[i].ali] + more), units + sub)
  {
    var es := EntriesOf(files, file);
    var ali := es[i].ali;
    var added' := added + ([ali] + more);
    WithUnits(files, es, i, added, more, units, sub);
    DiesJoin(files, added, [ali] + more);
    assert Closed(files, added', after) by {
      ClosedConcat(files, added, before, [ali] + more, after);
    }
    assert after[|before|] == ali;
    assert forall k :: 0 <= k < i + 1 && es[k].With? ==> es[k].ali in after by {
      PrefixMembers(before, after);
    }
  }

  lemma PrefixMembers(a: seq<string>, b: seq<string>)
    requires a <= b
    ensures forall x :: x in a ==> x in b
  {
    forall x | x in a ensures x in b {
      var i :| 0 <= i < |a| && a[i] == x;
      assert b[i] == x;
    }
  }

  /** Recording more files never enlarges what is left to enter. */
  lemma NeverGrows(files: Files, seen: seq<string>, more: seq<string>)
    ensures (Named(files) - set g | g in seen + more) <= (Named(files) - set g | g in seen)
  {
    assert forall g :: g in seen ==> g in seen + more;
  }

  lemma WithUnits(files: Files, es: seq<Entry>, i: nat, added: seq<string>, more: seq<string>, units: seq<string>, sub: seq<string>)
    requires i < |es| && es[i].With?
    requires multiset(units) == multiset(UnitsIn(es[..i])) + UnitsOfAll(files, added)
    requires multiset(sub) == UnitsOf(files, es[i].ali) + UnitsOfAll(files, more)
    ensures multiset(units + sub) == multiset(UnitsIn(es[..i + 1])) + UnitsOfAll(files, added + ([es[i].ali] + more))
  {
    UnitsInNext(es, i);
    UnitsOfAllInsert(files, added, es[i].ali, more);
  }

  lemma UnitsOfAllInsert(files: Files, added: seq<string>, ali: string, more: seq<string>)
    ensures UnitsOfAll(files, added + ([ali] + more))
         == UnitsOfAll(files, added) + (UnitsOf(files, ali) + UnitsOfAll(files, more))
  {
    UnitsOfAllConcat(files, added, [ali] + more);
    UnitsOfAllConcat(files, [ali], more);
    assert [ali][..0] == [] && UnitsOfAll(files, [ali]) == UnitsOf(files, ali);
  }

  lemma Finished(files: Files, file: string, seen: seq<string>, added: seq<string>, units: seq<string>)
    requires Progress(files, file, |EntriesOf(files, file)|, seen, added, units)
    ensures forall g :: g in added ==> Reaches(files, file, g)
    ensures multiset(units) == UnitsOf(files, file) + UnitsOfAll(files, added)
    ensures Closed(files, [file] + added, seen)
    ensures !Dies(files, [file] + added)
  {
    var es := EntriesOf(files, file);
    assert es[..|es|] == es;
    DiesAtEnd(files, file, |es|, added);
    ClosedCons(files, file, added, seen);
  }

  lemma Shrinks(files: Files, ali: string, seen: seq<string>)
    requires ali in Named(files) && ali !in seen
    ensures (Named(files) - set g | g in seen + [ali]) < (Named(files) - set g | g in seen)
  {
    var big := Named(files) - set g | g in seen;
    var small := Named(files) - set g | g in seen + [ali];
    assert ali in big && ali !in small;
    assert forall g :: g in small ==> g in big;
  }

  lemma {:induction false} UnitsOfAllConcat(files: Files, a: seq<string>, b: seq<string>)
    ensures UnitsOfAll(files, a + b) == UnitsOfAll(files, a) + UnitsOfAll(files, b)
  {
    if b == [] {
      assert a + b == a;
    } else {
      var init, z := b[..|b| - 1], b[|b| - 1];
      assert (a + b)[..|a + b| - 1] == a + init && (a + b)[|a + b| - 1] == z;
      assert UnitsOfAll(files, a + init) == UnitsOfAll(files, a) + UnitsOfAll(files, init) by {
        UnitsOfAllConcat(files, a, init);
      }
      assert UnitsOfAll(files, b) == UnitsOfAll(files, init) + UnitsOf(files, z);
    }
  }

  lemma ClosedConcat(files: Files, a: seq<string>, before: seq<string>, b: seq<string>, after: seq<string>)
    requires Closed(files, a, before) && before <= after && Closed(files, b, after)
    ensures Closed(files, a + b, after)
  {
    forall i, g | 0 <= i < |a + b| && Refers(files, (a + b)[i], g) ensures g in after {
      if i < |a| {
        assert (a + b)[i] == a[i] && g in before;
      } else {
        assert (a + b)[i] == b[i - |a|];
      }
    }
  }

  lemma ClosedCons(files: Files, file: string, added: seq<string>, seen: seq<string>)
    requires Closed(files, added, seen)
    requires forall k :: 0 <= k < |EntriesOf(files, file)| && EntriesOf(files, file)[k].With? ==> EntriesOf(files, file)[k].ali in seen
    ensures Closed(files, [file] + added, seen)
  {
    forall i, g | 0 <= i < |[file] + added| && Refers(files, ([file] + added)[i], g) ensures g in seen {
      if i > 0 {
        assert ([file] + added)[i] == added[i - 1];
      }
    }
  }

  /** The whole walk: `closure` lists without repetition exactly the files reachable
      from the root, and the units are those of the root plus one contribution per
      listed file (so the root counts twice exactly if it is reachable from itself). */
  method ReadAllsrc(files: Files) returns (r: Result, ghost closure: seq<string>)
    ensures NoRepeats(closure)
    ensures r.Units? ==> forall g :: g in closure <==> Reaches(files, ALLSRC, g)
    ensures r.Units? ==> multiset(r.units) == UnitsOf(files, ALLSRC) + UnitsOfAll(files, closure)
    ensures r.Units? ==> forall u :: u in r.units <==>
      exists f :: (f == ALLSRC || Reaches(files, ALLSRC, f)) && u in UnitsOf(files, f)
    ensures r.Died? <==> exists f :: (f == ALLSRC || Reaches(files, ALLSRC, f)) && BadUnit in EntriesOf(files, f)
  {
    var reader := new AliReader(files);
    r, closure := reader.ReadOne(ALLSRC);
    assert reader.seen == closure;
    if r.Died? {
      ghost var i :| 0 <= i < |[ALLSRC] + closure| && BadUnit in EntriesOf(files, ([ALLSRC] + closure)[i]);
      assert ([ALLSRC] + closure)[i] == ALLSRC || ([ALLSRC] + closure)[i] in closure;
    } else {
      WalkIsComplete(files, closure);
      NothingBad(files, closure);
      UnitsAreThose(files, closure, r.units);
    }
  }

  lemma NothingBad(files: Files, closure: seq<string>)
    requires !Dies(files, [ALLSRC] + closure)
    ensures forall f :: f == ALLSRC || f in closure ==> BadUnit !in EntriesOf(files, f)
  {
    var all := [ALLSRC] + closure;
    forall f | f == ALLSRC || f in closure ensures BadUnit !in EntriesOf(files, f) {
      assert f in all;
      var i :| 0 <= i < |all| && all[i] == f;
    }
  }

  lemma WalkIsComplete(files: Files, closure: seq<string>)
    requires Closed(files, [ALLSRC] + closure, closure)
    ensures forall g :: Reaches(files, ALLSRC, g) ==> g in closure
  {
    forall g | Reaches(files, ALLSRC, g) ensures g in closure {
      var p :| |p| > 1 && IsChain(files, p) && p[0] == ALLSRC && p[|p| - 1] == g;
      ChainStaysInside(files, ALLSRC, closure, p);
    }
  }

  lemma {:induction false} InUnitsOfAll(files: Files, fs: seq<string>, u: string)
    ensures u in UnitsOfAll(files, fs) <==> exists f :: f in fs && u in UnitsOf(files, f)
  {
    if fs != [] {
      InUnitsOfAll(files, fs[..|fs| - 1], u);
      assert forall f :: f in fs <==> f in fs[..|fs| - 1] || f == fs[|fs| - 1];
    }
  }

  lemma UnitsAreThose(files: Files, closure: seq<string>, units: seq<string>)
    requires forall g :: g in closure <==> Reaches(files, ALLSRC, g)
    requires multiset(units) == UnitsOf(files, ALLSRC) + UnitsOfAll(files, closure)
    ensures forall u :: u in units <==>
      exists f :: (f == ALLSRC || Reaches(files, ALLSRC, f)) && u in UnitsOf(files, f)
  {
    forall u ensures u in units <==> exists f :: (f == ALLSRC || Reaches(files, ALLSRC, f)) && u in UnitsOf(files, f) {
      InUnitsOfAll(files, closure, u);
      assert u in units <==> u in multiset(units);
    }
  }
}
