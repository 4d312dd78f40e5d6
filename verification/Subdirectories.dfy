/** chk_distrib.py, `get_subdirs`: the directories reached from one directory through
    the recognised variables of its Makefile.am, each listed once. */
module Subdirectories {
  import opened Text

  /** A line that has the form of a variable assignment. */
  datatype Assign = Assign(name: string, value: string)

  type Makefiles = map<string, seq<Assign>>

  type Vars = map<string, string>

  datatype Result = Dirs(dirs: seq<string>) | NoMakefile(dir: string) | NoVariable(dir: string)

  const RECOGNISED := {"corba_dir", "dsa_dir", "giop_dir", "moma_dir", "soap_dir", "srp_dir", "SUBDIRS"}

  // ---------------------------------------------------------------- one Makefile

  function Position(s: string, c: char): (n: nat)
    ensures n <= |s| && (n < |s| ==> s[n] == c) && forall i :: 0 <= i < n ==> s[i] != c
  {
    if s == "" || s[0] == c then 0 else 1 + Position(s[1..], c)
  }

  /** `string.split (value, ' ')`: cut at every single space. */
  function SplitSpaces(s: string): (ws: seq<string>)
    decreases |s|
  {
    var n := Position(s, ' ');
    if n == |s| then [s] else [s[..n]] + SplitSpaces(s[n + 1..])
  }

  /** Every `$(name)` replaced by the variable's value; None stands for the KeyError. */
  function Expand(s: string, vars: Vars): Option<string>
    decreases |s|
  {
    if s == "" then Some("")
    else
      var n := Position(s, ')');
      if |s| >= 2 && s[..2] == "$(" && n < |s| then
        var name := s[2..n];
        if name !in vars then None
        else
          match Expand(s[n + 1..], vars)
          case None => None
          case Some(rest) => Some(vars[name] + rest)
      else
        match Expand(s[1..], vars)
        case None => None
        case Some(rest) => Some([s[0]] + rest)
  }

  /** Entries for the directory itself and configure substitutions are passed over. */
  predicate Skipped(word: string) {
    word == "" || word == "." || word[0] == '@'
  }

  function Assigned(vars: Vars, a: Assign): Vars {
    if a.value == "" then vars else vars[a.name := a.value]
  }

  /** Directory names in order, up to the first undefined variable if there is one. */
  datatype Kids = Kids(list: seq<string>, complete: bool) {
    function After(first: seq<string>): Kids {
      Kids(first + list, complete)
    }
  }

  function WordChildren(dir: string, words: seq<string>, vars: Vars): Kids {
    if words == [] then Kids([], true)
    else if Skipped(words[0]) then WordChildren(dir, words[1..], vars)
    else
      match Expand(words[0], vars)
      case None => Kids([], false)
      case Some(w) => WordChildren(dir, words[1..], vars).After([dir + "/" + w])
  }

  function LineChildren(dir: string, a: Assign, vars: Vars): Kids {
    if a.name in RECOGNISED then WordChildren(dir, SplitSpaces(a.value), vars) else Kids([], true)
  }

  /** The directories a Makefile names, given the variables set so far. */
  function Children(dir: string, lines: seq<Assign>, vars: Vars): Kids {
    if lines == [] then Kids([], true)
    else
      var vars' := Assigned(vars, lines[0]);
      var first := LineChildren(dir, lines[0], vars');
      if first.complete then Children(dir, lines[1..], vars').After(first.list) else first
  }

  // ---------------------------------------------------------------- the tree

  /** The characters from `i` to `j` are a word: between two spaces or the ends, no space inside. */
  predicate WordAt(s: string, i: int, j: int) {
    && 0 <= i <= j <= |s| && (i == 0 || s[i - 1] == ' ') && (j == |s| || s[j] == ' ')
    && forall k :: i <= k < j ==> s[k] != ' '
  }

  ghost predicate HasWord(s: string, w: string) {
    exists i, j :: WordAt(s, i, j) && s[i..j] == w
  }

  predicate NamesDirectories(name: string) {
    || name == "SUBDIRS" || name == "corba_dir" || name == "dsa_dir" || name == "giop_dir"
    || name == "moma_dir" || name == "soap_dir" || name == "srp_dir"
  }

  /** Neither the directory itself nor a configure substitution. */
  predicate Wanted(w: string) {
    w != "" && w != "." && !("@" <= w)
  }

  /** The variables after the first `n` lines. */
  function VarsAfter(lines: seq<Assign>, n: nat): Vars
    requires n <= |lines|
  {
    if n == 0 then map[] else Assigned(VarsAfter(lines, n - 1), lines[n - 1])
  }

  /** Line `i` asks for the directory of word `w`. */
  ghost predicate Asks(lines: seq<Assign>, i: int, w: string) {
    0 <= i < |lines| && NamesDirectories(lines[i].name) && HasWord(lines[i].value, w) && Wanted(w)
  }

  /** Word `w` of line `i` names `d`: the directory, a slash, and the word with every
      reference replaced by the value of its variable. */
  ghost predicate NamedAt(dir: string, lines: seq<Assign>, d: string, i: int, w: string) {
    Asks(lines, i, w) && Expand(w, VarsAfter(lines, i + 1)).Some? && d == dir + "/" + Expand(w, VarsAfter(lines, i + 1)).value
  }

  ghost predicate Names(files: Makefiles, a: string, b: string) {
    a in files && exists i, w :: NamedAt(a, files[a], b, i, w)
  }

  /** The directory has a Makefile, and all variables its names refer to are defined. */
  ghost predicate Fine(files: Makefiles, d: string) {
    d in files && forall i, w :: Asks(files[d], i, w) ==> Expand(w, VarsAfter(files[d], i + 1)).Some?
  }

  /** `b` is named along `n` steps down from `a`. */
  ghost predicate Below(files: Makefiles, a: string, b: string, n: nat)
    decreases n
  {
    if n == 0 then a == b else exists c :: Names(files, a, c) && Below(files, c, b, n - 1)
  }

  ghost predicate Reaches(files: Makefiles, a: string, b: string) {
    exists n: nat :: Below(files, a, b, n)
  }

  ghost predicate AllFine(files: Makefiles, a: string) {
    forall d :: Reaches(files, a, d) ==> Fine(files, d)
  }

  lemma ReachesFirst(files: Makefiles, a: string, b: string)
    ensures Reaches(files, a, b) <==> a == b || exists c :: Names(files, a, c) && Reaches(files, c, b)
  {
    assert Below(files, a, a, 0);
    if n: nat :| Below(files, a, b, n) {
      if n > 0 {
        var c :| Names(files, a, c) && Below(files, c, b, n - 1);
      }
    }
    if c :| Names(files, a, c) && Reaches(files, c, b) {
      var n: nat :| Below(files, c, b, n);
      assert Below(files, a, b, n + 1);
    }
  }

  /** `res` lists `dir` and everything below the children dealt with so far. */
  ghost predicate Covers(files: Makefiles, dir: string, kids: seq<string>, res: seq<string>) {
    && res != [] && res[0] == dir && NoRepeats(res)
    && (forall d :: d in res <==> d == dir || exists k :: k in kids && Reaches(files, k, d))
    && (forall k :: k in kids ==> AllFine(files, k))
  }

  /** Makefiles at least as deep, by length of path. */
  function Deeper(files: Makefiles, dir: string): set<string> {
    set k | k in files && |k| >= |dir|
  }

  lemma GoesDeeper(files: Makefiles, dir: string, w: string)
    requires dir in files
    ensures Deeper(files, dir + "/" + w) < Deeper(files, dir)
  {
    assert dir in Deeper(files, dir) && dir !in Deeper(files, dir + "/" + w);
  }

  // ---------------------------------------------------------------- the walk

  /** The inner loop: what is new in `sub` is added at the end. */
  method Merge(res: seq<string>, sub: seq<string>) returns (r: seq<string>)
    requires NoRepeats(res)
    ensures NoRepeats(r) && res <= r && forall d :: d in r <==> d in res || d in sub
  {
    r := res;
    for i := 0 to |sub|
      invariant NoRepeats(r) && res <= r && forall d :: d in r <==> d in res || d in sub[..i]
    {
      assert sub[..i + 1] == sub[..i] + [sub[i]];
      if sub[i] !in r {
        assert (r + [sub[i]])[..|r|] == r;
        r := r + [sub[i]];
      }
    }
    assert sub[..|sub|] == sub;
  }

  /** The result, or the error, as seen from the directory the call started in. */
  ghost predicate Explains(files: Makefiles, dir: string, r: Result) {
    match r
    case Dirs(_) => true
    case NoMakefile(x) => Reaches(files, dir, x) && x !in files
    case NoVariable(x) => Reaches(files, dir, x) && x in files && !Fine(files, x)
  }

  /** Terminates on every finite set of paths that have a Makefile, for each step lengthens
      the path; a name such as ".." that gives a directory ever longer paths is a set of
      many entries here. It succeeds exactly if every directory reached is fine, and then lists the argument
      first and every directory reached exactly once. */
  method GetSubdirs(files: Makefiles, dir: string) returns (r: Result)
    ensures r.Dirs? ==> r.dirs != [] && r.dirs[0] == dir && NoRepeats(r.dirs)
    ensures r.Dirs? ==> forall d :: d in r.dirs <==> Reaches(files, dir, d)
    ensures r.Dirs? <==> AllFine(files, dir)
    ensures Explains(files, dir, r)
    decreases Deeper(files, dir), 2
  {
    ReachesFirst(files, dir, dir);
    if dir !in files {
      return NoMakefile(dir);
    }
    var lines := files[dir];
    var vars: Vars := map[];
    var res := [dir];
    ghost var kids: seq<string> := [];
    var i := 0;
    while i < |lines|
      invariant 0 <= i <= |lines|
      invariant Children(dir, lines, map[]) == Children(dir, lines[i..], vars).After(kids)
      invariant Covers(files, dir, kids, res)
    {
      var a := lines[i];
      NextLine(dir, lines, i, vars, kids);
      vars := Assigned(vars, a);
      if a.name in RECOGNISED {
        var words := SplitSpaces(a.value);
        ghost var more := WordChildren(dir, words, vars);
        r := VisitWords(files, dir, words, vars, res, kids);
        if !r.Dirs? {
          Failed(files, dir, kids, more, r);
          return;
        }
        res := r.dirs;
        kids := kids + more.list;
      }
      i := i + 1;
    }
    assert lines[i..] == [] && Children(dir, lines, map[]) == Kids(kids, true) by {
      assert kids + [] == kids;
    }
    Finished(files, dir, kids, res);
    return Dirs(res);
  }

  /** What line `i` adds to the children known before it. */
  lemma NextLine(dir: string, lines: seq<Assign>, i: nat, vars: Vars, kids: seq<string>)
    requires i < |lines|
    ensures var vars' := Assigned(vars, lines[i]);
      var first := LineChildren(dir, lines[i], vars');
      var rest := Children(dir, lines[i + 1..], vars');
      && Children(dir, lines[i..], vars).After(kids) ==
         (if first.complete then rest.After(first.list).After(kids) else first.After(kids))
      && rest.After(first.list).After(kids) == rest.After(kids + first.list)
      && (first.list == [] ==> rest.After(first.list).After(kids) == rest.After(kids))
  {
    assert lines[i..][0] == lines[i] && lines[i..][1..] == lines[i + 1..];
    var vars' := Assigned(vars, lines[i]);
    var first := LineChildren(dir, lines[i], vars');
    var rest := Children(dir, lines[i + 1..], vars');
    assert kids + (first.list + rest.list) == (kids + first.list) + rest.list;
    assert [] + rest.list == rest.list;
  }

  /** The loop over the words of one recognised variable. */
  method VisitWords(files: Makefiles, dir: string, words: seq<string>, vars: Vars, res: seq<string>, ghost kids: seq<string>)
    returns (r: Result)
    requires dir in files && Covers(files, dir, kids, res)
    ensures r.Dirs? ==> WordChildren(dir, words, vars).complete
    ensures r.Dirs? ==> Covers(files, dir, kids + WordChildren(dir, words, vars).list, r.dirs)
    ensures !r.Dirs? ==> Blames(files, dir, WordChildren(dir, words, vars), r)
    decreases Deeper(files, dir), 1
  {
    ghost var whole := WordChildren(dir, words, vars);
    var now := res;
    ghost var seen: seq<string> := [];
    assert kids + seen == kids;
    var j := 0;
    while j < |words|
      invariant 0 <= j <= |words|
      invariant whole == WordChildren(dir, words[j..], vars).After(seen)
      invariant Covers(files, dir, kids + seen, now)
    {
      var word := words[j];
      assert words[j..][0] == word && words[j..][1..] == words[j + 1..];
      j := j + 1;
      if Skipped(word) {
        continue;
      }
      var w := Expand(word, vars);
      if w.None? {
        return NoVariable(dir);
      }
      var d := dir + "/" + w.value;
      assert d in whole.list by {
        assert whole.list[|seen|] == d;
      }
      GoesDeeper(files, dir, w.value);
      r := GetSubdirs(files, d);
      if !r.Dirs? {
        return;
      }
      ghost var before := now;
      now := Merge(now, r.dirs);
      CoversMore(files, dir, kids + seen, before, d, r.dirs, now);
      SeenNext(kids, seen, d, WordChildren(dir, words[j..], vars));
      seen := seen + [d];
    }
    assert whole == Kids(seen, true) by {
      assert words[j..] == [] && seen + [] == seen;
    }
    return Dirs(now);
  }

  lemma SeenNext(kids: seq<string>, seen: seq<string>, d: string, rest: Kids)
    ensures kids + seen + [d] == kids + (seen + [d])
    ensures rest.After([d]).After(seen) == rest.After(seen + [d])
  {
    assert seen + ([d] + rest.list) == (seen + [d]) + rest.list;
  }

  /** An error found while going through the children named by some words. */
  ghost predicate Blames(files: Makefiles, dir: string, named: Kids, r: Result) {
    (r == NoVariable(dir) && !named.complete) || exists k :: k in named.list && Explains(files, k, r)
  }

  lemma CoversMore(files: Makefiles, dir: string, kids: seq<string>, res: seq<string>, d: string, sub: seq<string>, now: seq<string>)
    requires Covers(files, dir, kids, res) && AllFine(files, d)
    requires forall x :: x in sub <==> Reaches(files, d, x)
    requires NoRepeats(now) && res <= now && forall x :: x in now <==> x in res || x in sub
    ensures Covers(files, dir, kids + [d], now)
  {
    forall x ensures x in now <==> x == dir || exists k :: k in kids + [d] && Reaches(files, k, x) {
      if x in sub {
        assert d in kids + [d];
      }
      if k :| k in kids && Reaches(files, k, x) {
        assert k in kids + [d];
      }
    }
  }

  lemma Failed(files: Makefiles, dir: string, kids: seq<string>, more: Kids, r: Result)
    requires dir in files && !r.Dirs? && Blames(files, dir, more, r)
    requires more.complete ==> exists rest: Kids :: Children(dir, files[dir], map[]) == rest.After(more.list).After(kids)
    requires !more.complete ==> Children(dir, files[dir], map[]) == more.After(kids)
    ensures Explains(files, dir, r) && !AllFine(files, dir)
  {
    ReachesFirst(files, dir, dir);
    ChildrenExact(files, dir);
    var all := Children(dir, files[dir], map[]);
    if k :| k in more.list && Explains(files, k, r) {
      assert k in all.list;
      ReachesFirst(files, dir, r.dir);
    } else {
      assert !all.complete;
    }
  }

  lemma Finished(files: Makefiles, dir: string, kids: seq<string>, res: seq<string>)
    requires dir in files && Children(dir, files[dir], map[]) == Kids(kids, true) && Covers(files, dir, kids, res)
    ensures forall d :: d in res <==> Reaches(files, dir, d)
    ensures AllFine(files, dir)
  {
    ChildrenExact(files, dir);
    forall d ensures d in res <==> Reaches(files, dir, d) {
      ReachesFirst(files, dir, d);
    }
    forall d | Reaches(files, dir, d) ensures Fine(files, d) {
      ReachesFirst(files, dir, d);
    }
  }

  // ---------------------------------------------------------------- what the functions compute

  function Joined(ws: seq<string>): string {
    if ws == [] then "" else if |ws| == 1 then ws[0] else ws[0] + " " + Joined(ws[1..])
  }

  lemma JoinedMore(w: string, ws: seq<string>)
    requires ws != []
    ensures Joined([w] + ws) == w + " " + Joined(ws)
  {
    assert ([w] + ws)[1..] == ws;
  }

  /** Joined by single spaces the words give the value back, and none contains a space. */
  lemma {:induction false} SplitJoins(s: string)
    ensures SplitSpaces(s) != [] && Joined(SplitSpaces(s)) == s
    ensures forall i :: 0 <= i < |SplitSpaces(s)| ==> ' ' !in SplitSpaces(s)[i]
    decreases |s|
  {
    var n := Position(s, ' ');
    if n < |s| {
      var rest := s[n + 1..];
      SplitJoins(rest);
      JoinedMore(s[..n], SplitSpaces(rest));
      assert s == s[..n] + " " + rest;
    }
  }

  lemma WordShifts(s: string, n: nat, i: int, j: int)
    requires n < |s| && s[n] == ' ' && i > n
    ensures var rest := s[n + 1..];
      WordAt(s, i, j) <==> WordAt(rest, i - n - 1, j - n - 1)
    ensures WordAt(s, i, j) ==> s[n + 1..][i - n - 1..j - n - 1] == s[i..j]
  {
    var rest := s[n + 1..];
    assert forall k :: n < k < |s| ==> s[k] == rest[k - n - 1];
    assert forall k :: 0 <= k < |rest| ==> rest[k] == s[n + 1 + k];
  }

  lemma FirstWord(s: string, i: int, j: int)
    requires var n := Position(s, ' '); WordAt(s, i, j) && i <= n
    ensures i == 0 && j == Position(s, ' ')
  {
  }

  lemma OneWord(s: string, w: string)
    requires Position(s, ' ') == |s|
    ensures HasWord(s, w) <==> w == s
  {
    assert WordAt(s, 0, |s|) && s[0..|s|] == s;
    if i, j :| WordAt(s, i, j) && s[i..j] == w {
      FirstWord(s, i, j);
    }
  }

  lemma MoreWords(s: string, n: nat, w: string)
    requires n == Position(s, ' ') && n < |s|
    ensures HasWord(s, w) <==> w == s[..n] || HasWord(s[n + 1..], w)
  {
    assert WordAt(s, 0, n) && s[0..n] == s[..n];
    if HasWord(s[n + 1..], w) {
      var i, j :| WordAt(s[n + 1..], i, j) && s[n + 1..][i..j] == w;
      WordShifts(s, n, i + n + 1, j + n + 1);
      assert WordAt(s, i + n + 1, j + n + 1);
    }
    if HasWord(s, w) {
      var i, j :| WordAt(s, i, j) && s[i..j] == w;
      if i <= n {
        FirstWord(s, i, j);
      } else {
        WordShifts(s, n, i, j);
        assert WordAt(s[n + 1..], i - n - 1, j - n - 1);
      }
    }
  }

  lemma {:induction false} SplitMembers(s: string, w: string)
    ensures w in SplitSpaces(s) <==> HasWord(s, w)
    decreases |s|
  {
    var n := Position(s, ' ');
    if n == |s| {
      OneWord(s, w);
    } else {
      SplitMembers(s[n + 1..], w);
      MoreWords(s, n, w);
    }
  }

  /** Line `j` assigns `val` to `v`, not empty, and no later line below `n` assigns anything but the empty string. */
  ghost predicate LastValueAt(lines: seq<Assign>, n: nat, v: string, val: string, j: int) {
    && 0 <= j < n <= |lines| && lines[j] == Assign(v, val) && val != ""
    && forall k :: j < k < n && lines[k].name == v ==> lines[k].value == ""
  }

  /** A variable has the last non-empty value assigned to it so far. */
  lemma {:induction false} VarsMeaning(lines: seq<Assign>, n: nat, v: string, val: string)
    requires n <= |lines|
    ensures v in VarsAfter(lines, n) && VarsAfter(lines, n)[v] == val <==> exists j :: LastValueAt(lines, n, v, val, j)
  {
    if n > 0 {
      var p: nat := n - 1;
      VarsMeaning(lines, p, v, val);
      var a := lines[p];
      if a.name == v && a.value != "" {
        if a.value == val {
          assert LastValueAt(lines, n, v, val, p);
        } else {
          forall j ensures !LastValueAt(lines, n, v, val, j) {
            assert j < p ==> a.value != "";
          }
        }
      } else {
        assert v in VarsAfter(lines, n) <==> v in VarsAfter(lines, p);
        forall j ensures LastValueAt(lines, n, v, val, j) <==> LastValueAt(lines, p, v, val, j) {
          assert j == p ==> lines[j] == a;
        }
      }
    }
  }

  /** A reference opens at `i` and there is a bracket to close it at `j`. */
  predicate RefersAt(s: string, i: int, j: int) {
    0 <= i && i + 1 < j < |s| && s[i] == '$' && s[i + 1] == '(' && s[j] == ')'
  }

  predicate OpensAt(s: string, i: int) {
    0 <= i < |s| - 1 && s[i] == '$' && s[i + 1] == '('
  }

  /** A character that begins no reference stands for itself. */
  lemma ExpandCharacter(s: string, vars: Vars)
    requires s != "" && forall j :: !RefersAt(s, 0, j)
    ensures Expand(s, vars) == if Expand(s[1..], vars).None? then None else Some([s[0]] + Expand(s[1..], vars).value)
  {
    var n := Position(s, ')');
    assert !RefersAt(s, 0, n);
    assert |s| >= 2 ==> s[..2] == [s[0], s[1]];
  }

  /** Without a closed reference a word stands for itself. */
  lemma {:induction false} ExpandPlain(s: string, vars: Vars)
    requires forall i, j :: !RefersAt(s, i, j)
    ensures Expand(s, vars) == Some(s)
  {
    if s != "" {
      forall i, j ensures !RefersAt(s[1..], i, j) {
        assert !RefersAt(s, i + 1, j + 1);
      }
      ExpandPlain(s[1..], vars);
      ExpandCharacter(s, vars);
      assert s == [s[0]] + s[1..];
    }
  }

  lemma ExpandHead(v: string, after: string, vars: Vars)
    requires ')' !in v
    ensures var rest := Expand(after, vars);
      Expand("$(" + (v + (")" + after)), vars) == if v !in vars || rest.None? then None else Some(vars[v] + rest.value)
  {
    ClosesAt(v, after);
  }

  /** No reference opens before the end of `before`, when one follows. */
  ghost predicate Clear(before: string) {
    forall i :: 0 <= i < |before| ==> !OpensAt(before + "$(", i)
  }

  lemma ClearTail(before: string, tail: string)
    requires Clear(before) && before != "" && "$(" <= tail
    ensures Clear(before[1..]) && !OpensAt(before + tail, 0)
  {
    var front := before[1..];
    forall i | 0 <= i < |front| ensures !OpensAt(front + "$(", i) {
      assert !OpensAt(before + "$(", i + 1);
      assert (front + "$(")[i] == (before + "$(")[i + 1] && (front + "$(")[i + 1] == (before + "$(")[i + 2];
    }
    assert !OpensAt(before + "$(", 0);
    assert (before + tail)[0] == (before + "$(")[0] && (before + tail)[1] == (before + "$(")[1];
  }

  /** The first reference is replaced by the value of its variable, if that is defined,
      and expansion goes on behind it. */
  lemma {:induction false} ExpandReference(before: string, v: string, after: string, vars: Vars)
    requires ')' !in v && Clear(before)
    ensures var rest := Expand(after, vars); var whole := before + ("$(" + (v + (")" + after)));
      Expand(whole, vars) == if v !in vars || rest.None? then None else Some(before + (vars[v] + rest.value))
  {
    var tail := "$(" + (v + (")" + after));
    if before == "" {
      ExpandHead(v, after, vars);
      assert before + tail == tail;
      assert forall x: string :: before + x == x;
    } else {
      ClearTail(before, tail);
      ExpandReference(before[1..], v, after, vars);
      PrependExpanded(before, tail, vars);
      if v in vars && Expand(after, vars).Some? {
        Recombine(before, vars[v] + Expand(after, vars).value);
      }
    }
  }

  lemma PrependExpanded(before: string, tail: string, vars: Vars)
    requires before != "" && !OpensAt(before + tail, 0)
    ensures var e := Expand(before[1..] + tail, vars);
      Expand(before + tail, vars) == if e.None? then None else Some([before[0]] + e.value)
  {
    var whole := before + tail;
    assert whole[1..] == before[1..] + tail && whole[0] == before[0];
    forall j ensures !RefersAt(whole, 0, j) {
    }
    ExpandCharacter(whole, vars);
  }

  lemma Recombine(before: string, x: string)
    requires before != ""
    ensures [before[0]] + (before[1..] + x) == before + x
  {
  }

  lemma ClosesAt(v: string, after: string)
    requires ')' !in v
    ensures var s := "$(" + (v + (")" + after));
      Position(s, ')') == 2 + |v| && s[..2] == "$(" && s[2..2 + |v|] == v && s[2 + |v| + 1..] == after
  {
    var s := "$(" + (v + (")" + after));
    assert s[2 + |v|] == ')';
    assert forall k :: 0 <= k < |v| ==> s[2 + k] == v[k];
  }

  lemma {:induction false} WordChildrenExact(dir: string, words: seq<string>, vars: Vars)
    ensures var c := WordChildren(dir, words, vars);
      && (c.complete <==> forall w :: w in words && Wanted(w) ==> Expand(w, vars).Some?)
      && (forall d :: d in c.list ==> exists w :: w in words && Wanted(w) && Expand(w, vars).Some? && d == dir + "/" + Expand(w, vars).value)
      && (c.complete ==> forall w :: w in words && Wanted(w) ==> dir + "/" + Expand(w, vars).value in c.list)
  {
    if words != [] {
      WordChildrenExact(dir, words[1..], vars);
      assert forall w :: w in words <==> w == words[0] || w in words[1..];
      assert Skipped(words[0]) <==> !Wanted(words[0]);
    }
  }

  /** What the lines from the i-th on add. */
  lemma {:induction false} ChildrenFrom(dir: string, lines: seq<Assign>, i: nat)
    requires i <= |lines|
    ensures var c := Children(dir, lines[i..], VarsAfter(lines, i));
      && (c.complete <==> forall j, w :: i <= j && Asks(lines, j, w) ==> Expand(w, VarsAfter(lines, j + 1)).Some?)
      && (forall d :: d in c.list ==> exists j, w :: i <= j && NamedAt(dir, lines, d, j, w))
      && (c.complete ==> forall j, w, d :: i <= j && NamedAt(dir, lines, d, j, w) ==> d in c.list)
    decreases |lines| - i
  {
    if i < |lines| {
      assert lines[i..][0] == lines[i] && lines[i..][1..] == lines[i + 1..];
      ChildrenFrom(dir, lines, i + 1);
      LineExact(dir, lines, i);
    }
  }

  lemma AsksIff(lines: seq<Assign>, i: nat, w: string)
    requires i < |lines|
    ensures Asks(lines, i, w) <==> lines[i].name in RECOGNISED && w in SplitSpaces(lines[i].value) && Wanted(w)
  {
    assert lines[i].name in RECOGNISED <==> NamesDirectories(lines[i].name);
    SplitMembers(lines[i].value, w);
  }

  lemma LineExact(dir: string, lines: seq<Assign>, i: nat)
    requires i < |lines|
    ensures var c := LineChildren(dir, lines[i], VarsAfter(lines, i + 1));
      && (c.complete <==> forall w :: Asks(lines, i, w) ==> Expand(w, VarsAfter(lines, i + 1)).Some?)
      && (forall d :: d in c.list ==> exists w :: NamedAt(dir, lines, d, i, w))
      && (c.complete ==> forall w, d :: NamedAt(dir, lines, d, i, w) ==> d in c.list)
  {
    var words, vars := SplitSpaces(lines[i].value), VarsAfter(lines, i + 1);
    forall w ensures Asks(lines, i, w) <==> lines[i].name in RECOGNISED && w in words && Wanted(w) {
      AsksIff(lines, i, w);
    }
    if lines[i].name in RECOGNISED {
      WordChildrenExact(dir, words, vars);
      var c := WordChildren(dir, words, vars);
      forall d | d in c.list ensures exists w :: NamedAt(dir, lines, d, i, w) {
        var w :| w in words && Wanted(w) && Expand(w, vars).Some? && d == dir + "/" + Expand(w, vars).value;
        assert NamedAt(dir, lines, d, i, w);
      }
    }
  }

  /** The children a Makefile leads to are those its lines name. */
  lemma ChildrenExact(files: Makefiles, dir: string)
    requires dir in files
    ensures var c := Children(dir, files[dir], map[]);
      && (c.complete <==> Fine(files, dir))
      && (forall d :: d in c.list ==> Names(files, dir, d))
      && (c.complete ==> forall d :: Names(files, dir, d) ==> d in c.list)
  {
    ChildrenFrom(dir, files[dir], 0);
    assert files[dir][0..] == files[dir];
  }
}
