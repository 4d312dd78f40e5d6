/** report.cc prints test verdicts; `_check_output` in test_utils.py decides the
    whole test from the printed text by searching for END TESTS.*PASSED. */
module TestReport {
  import opened Text

  const MAX := 60

  datatype Call = Output(name: string, pass: bool) | NewTest(name: string) | EndReport

  // ---------------------------------------------------------------- printing

  /** The first MAX characters of the name, padded with dots. */
  function Padded(s: string): (line: string)
    ensures |line| == MAX
    ensures forall i :: 0 <= i < MAX ==> line[i] == if i < |s| then s[i] else '.'
  {
    seq(MAX, i requires 0 <= i => if i < |s| then s[i] else '.')
  }

  function OutputLine(s: string, pass: bool): string {
    Padded(s) + (if pass then " : PASSED" else " : FAILED") + "\n"
  }

  function NewTestLine(s: string): string {
    "==> Begin test " + s + "<==" + "\n"
  }

  /** The lines printed by a sequence of calls, and the flag `passed` after it. */
  function PassedAfter(calls: seq<Call>): bool {
    if calls == [] then true
    else
      var c := calls[|calls| - 1];
      PassedAfter(calls[..|calls| - 1]) && (c.Output? ==> c.pass)
  }

  function LineOf(calls: seq<Call>, k: nat): string
    requires k < |calls|
  {
    match calls[k]
    case Output(s, pass) => OutputLine(s, pass)
    case NewTest(s) => NewTestLine(s)
    case EndReport => OutputLine("END TESTS", PassedAfter(calls[..k]))
  }

  function LinesOf(calls: seq<Call>, n: nat): seq<string>
    requires n <= |calls|
  {
    if n == 0 then [] else LinesOf(calls, n - 1) + [LineOf(calls, n - 1)]
  }

  /** The global flag and the standard output. */
  class Reporter {
    var passed: bool
    var out: seq<string>

    constructor ()
      ensures passed && out == []
    {
      passed, out := true, [];
    }

    method Print(s: string, pass: bool)
      modifies this
      ensures out == old(out) + [OutputLine(s, pass)] && passed == (old(passed) && pass)
    {
      var line := new char[MAX];
      var i := 0;
      while i < MAX
        modifies line
        invariant 0 <= i <= MAX
        invariant forall k :: 0 <= k < i ==> line[k] == Padded(s)[k]
      {
        line[i] := if i < |s| then s[i] else '.';
        i := i + 1;
      }
      assert line[..] == Padded(s);
      out := out + [line[..] + (if pass then " : PASSED" else " : FAILED") + "\n"];
      passed := passed && pass;
    }

    method Perform(calls: seq<Call>)
      requires passed && out == []
      modifies this
      ensures out == LinesOf(calls, |calls|) && passed == PassedAfter(calls)
    {
      for k := 0 to |calls|
        invariant out == LinesOf(calls, k) && passed == PassedAfter(calls[..k])
      {
        assert calls[..k + 1][..k] == calls[..k];
        match calls[k] {
          case Output(s, pass) => Print(s, pass);
          case NewTest(s) => out := out + [NewTestLine(s)];
          case EndReport => Print("END TESTS", passed);
        }
      }
      assert calls[..|calls|] == calls;
    }
  }

  // ---------------------------------------------------------------- deciding

  predicate EndTestsAt(t: string, i: int) {
    && 0 <= i && i + 9 <= |t|
    && t[i] == 'E' && t[i + 1] == 'N' && t[i + 2] == 'D' && t[i + 3] == ' '
    && t[i + 4] == 'T' && t[i + 5] == 'E' && t[i + 6] == 'S' && t[i + 7] == 'T' && t[i + 8] == 'S'
  }

  predicate PassedAt(t: string, j: int) {
    && 0 <= j && j + 6 <= |t|
    && t[j] == 'P' && t[j + 1] == 'A' && t[j + 2] == 'S' && t[j + 3] == 'S' && t[j + 4] == 'E' && t[j + 5] == 'D'
  }

  /** The pattern END TESTS.*PASSED matches at `i`, with PASSED at `j`; `.` is not a newline. */
  predicate MatchAt(t: string, i: int, j: int) {
    EndTestsAt(t, i) && i + 9 <= j && PassedAt(t, j) && forall k :: i + 9 <= k < j ==> t[k] != '\n'
  }

  /** `re.search` on the whole output. */
  ghost predicate CheckOutput(t: string) {
    exists i, j :: MatchAt(t, i, j)
  }

  // ---------------------------------------------------------------- one line at a time

  /** A match is carried along when `t` holds `u` from position `n` on. */
  lemma MatchShift(t: string, u: string, n: nat, i: int, j: int)
    requires n + |u| <= |t| && forall k :: 0 <= k < |u| ==> t[n + k] == u[k]
    requires 0 <= i <= j && j + 6 <= |u|
    ensures MatchAt(u, i, j) <==> MatchAt(t, n + i, n + j)
  {
    assert EndTestsAt(u, i) && i + 9 <= j <==> EndTestsAt(t, n + i) && i + 9 <= j;
    assert PassedAt(u, j) <==> PassedAt(t, n + j);
    assert forall k :: i + 9 <= k < j ==> t[n + k] == u[k];
    assert forall k :: n + i + 9 <= k < n + j ==> t[k] == u[k - n];
  }

  lemma MatchInLine(l: string, rest: string)
    requires IsLine(l)
    ensures CheckOutput(l + rest) <==> CheckOutput(l) || CheckOutput(rest)
  {
    var t := l + rest;
    if i, j :| MatchAt(l, i, j) {
      MatchShift(t, l, 0, i, j);
      assert MatchAt(t, i, j);
    } else if i, j :| MatchAt(rest, i, j) {
      MatchShift(t, rest, |l|, i, j);
      assert MatchAt(t, |l| + i, |l| + j);
    } else if i, j :| MatchAt(t, i, j) {
      MatchSplits(l, rest, i, j);
    }
  }

  /** No match straddles the end of a line. */
  lemma MatchSplits(l: string, rest: string, i: int, j: int)
    requires IsLine(l) && MatchAt(l + rest, i, j)
    ensures MatchAt(l, i, j) || MatchAt(rest, i - |l|, j - |l|)
  {
    var t := l + rest;
    assert t[|l| - 1] == '\n';
    if i >= |l| {
      MatchShift(t, rest, |l|, i - |l|, j - |l|);
    } else {
      assert j + 6 <= |l|;
      MatchShift(t, l, 0, i, j);
    }
  }

  lemma {:induction false} CheckByLine(ls: seq<string>)
    requires forall k :: 0 <= k < |ls| ==> IsLine(ls[k])
    ensures CheckOutput(Concat(ls)) <==> exists k :: 0 <= k < |ls| && CheckOutput(ls[k])
  {
    if ls != [] {
      MatchInLine(ls[0], Concat(ls[1..]));
      CheckByLine(ls[1..]);
      assert forall k :: 1 <= k < |ls| ==> ls[k] == ls[1..][k - 1];
    }
  }

  // ---------------------------------------------------------------- what each line decides

  function Cut(s: string): string {
    if |s| <= MAX then s else s[..MAX]
  }

  /** A test name that itself imitates the final verdict in the printed columns. */
  ghost predicate Misleading(c: Call) {
    match c
    case Output(s, pass) =>
      exists i :: EndTestsAt(Cut(s), i) && (pass || exists j :: i + 9 <= j && PassedAt(Cut(s), j))
    case NewTest(s) => exists i, j :: EndTestsAt(s, i) && i + 9 <= j && PassedAt(s, j)
    case EndReport => false
  }

  lemma EndInOutput(s: string, pass: bool, i: int)
    ensures EndTestsAt(OutputLine(s, pass), i) <==> EndTestsAt(Cut(s), i)
  {
    var l := OutputLine(s, pass);
    var tail := (if pass then " : PASSED" else " : FAILED") + "\n";
    assert l == Padded(s) + tail && |tail| == 10;
    assert l[60] == ' ' && l[61] == ':' && l[62] == ' ';
    assert forall k :: 0 <= k < MAX ==> l[k] == Padded(s)[k];
  }

  lemma PassedInOutput(s: string, pass: bool, j: int)
    ensures PassedAt(OutputLine(s, pass), j) <==> PassedAt(Cut(s), j) || (pass && j == 63)
  {
    var l := OutputLine(s, pass);
    var tail := (if pass then " : PASSED" else " : FAILED") + "\n";
    assert l == Padded(s) + tail && |tail| == 10;
    assert l[60] == ' ' && l[61] == ':' && l[62] == ' ';
    assert forall k :: 0 <= k < 10 ==> l[60 + k] == tail[k];
    assert forall k :: 0 <= k < MAX ==> l[k] == Padded(s)[k];
  }

  lemma OutputIsLine(s: string, pass: bool)
    requires '\n' !in s
    ensures IsLine(OutputLine(s, pass))
  {
    var l := OutputLine(s, pass);
    assert forall k :: 0 <= k < MAX ==> l[k] == Padded(s)[k];
    assert forall k :: 0 <= k < MAX ==> l[k] != '\n';
  }

  /** Inside a line the newline restriction is vacuous. */
  lemma MatchWithinLine(l: string, i: int, j: int)
    requires IsLine(l)
    ensures MatchAt(l, i, j) <==> EndTestsAt(l, i) && i + 9 <= j && PassedAt(l, j)
  {
  }

  lemma OutputDecides(s: string, pass: bool)
    requires '\n' !in s
    ensures IsLine(OutputLine(s, pass))
    ensures CheckOutput(OutputLine(s, pass)) <==> Misleading(Output(s, pass))
  {
    var l, cut := OutputLine(s, pass), Cut(s);
    OutputIsLine(s, pass);
    if i, j :| MatchAt(l, i, j) {
      EndInOutput(s, pass, i);
      PassedInOutput(s, pass, j);
    }
    if i :| EndTestsAt(cut, i) && (pass || exists j :: i + 9 <= j && PassedAt(cut, j)) {
      EndInOutput(s, pass, i);
      var j := 63;
      if !pass {
        j :| i + 9 <= j && PassedAt(cut, j);
      }
      PassedInOutput(s, pass, j);
      MatchWithinLine(l, i, j);
      assert MatchAt(l, i, j);
    }
  }

  const BEGIN := "==> Begin test "

  lemma NewTestShape(s: string)
    requires '\n' !in s
    ensures var l := NewTestLine(s);
      && IsLine(l) && |l| == 19 + |s|
      && (forall k :: 0 <= k < 15 ==> l[k] != 'E' && l[k] != 'P')
      && (forall k :: 0 <= k < |s| ==> l[15 + k] == s[k])
      && l[15 + |s|] == '<' && l[16 + |s|] == '=' && l[17 + |s|] == '='
  {
    var l := NewTestLine(s);
    assert |BEGIN| == 15;
    assert l == BEGIN + (s + ("<==" + "\n"));
    assert forall k :: 0 <= k < 15 ==> l[k] == BEGIN[k];
    assert forall k :: 0 <= k < |s| ==> l[15 + k] == s[k];
  }

  lemma NewTestDecides(s: string)
    requires '\n' !in s
    ensures IsLine(NewTestLine(s))
    ensures CheckOutput(NewTestLine(s)) <==> Misleading(NewTest(s))
  {
    var l := NewTestLine(s);
    NewTestShape(s);
    if i, j :| MatchAt(l, i, j) {
      assert i >= 15 && i - 6 <= |s|;
      assert EndTestsAt(s, i - 15);
      assert j - 9 <= |s|;
      assert PassedAt(s, j - 15);
    }
    if i, j :| EndTestsAt(s, i) && i + 9 <= j && PassedAt(s, j) {
      assert EndTestsAt(l, 15 + i) && PassedAt(l, 15 + j);
      MatchWithinLine(l, 15 + i, 15 + j);
      assert MatchAt(l, 15 + i, 15 + j);
    }
  }

  lemma EndReportDecides(pass: bool)
    ensures CheckOutput(OutputLine("END TESTS", pass)) <==> pass
    ensures IsLine(OutputLine("END TESTS", pass))
  {
    var s := "END TESTS";
    OutputDecides(s, pass);
    assert Cut(s) == s && EndTestsAt(s, 0);
    assert 'P' !in s;
  }

  // ---------------------------------------------------------------- agreement

  lemma {:induction false} LinesOfAt(calls: seq<Call>, n: nat, k: nat)
    requires k < n <= |calls|
    ensures |LinesOf(calls, n)| == n && LinesOf(calls, n)[k] == LineOf(calls, k)
  {
    if n > 1 && k < n - 1 {
      LinesOfAt(calls, n - 1, k);
    } else if n > 1 {
      LinesOfAt(calls, n - 1, 0);
    }
  }

  /** Every test reported before the k-th call had passed. */
  predicate AllPassed(calls: seq<Call>, k: nat)
    requires k <= |calls|
  {
    forall i :: 0 <= i < k && calls[i].Output? ==> calls[i].pass
  }

  /** end_report was called at a moment when every reported test had passed. */
  ghost predicate EndedWell(calls: seq<Call>) {
    exists k :: 0 <= k < |calls| && calls[k] == EndReport && AllPassed(calls, k)
  }

  /** The flag `passed` is the conjunction of all results so far. */
  lemma {:induction false} PassedMeansAll(calls: seq<Call>, k: nat)
    requires k <= |calls|
    ensures PassedAfter(calls[..k]) <==> AllPassed(calls, k)
  {
    if k > 0 {
      PassedMeansAll(calls, k - 1);
      assert calls[..k][..k - 1] == calls[..k - 1];
    }
  }

  /** The verdict read back from the text of any sequence of calls is True exactly
      when end_report was reached with all earlier results passed, or some test name
      imitates that line. */
  lemma VerdictExact(calls: seq<Call>)
    requires forall k :: 0 <= k < |calls| && !calls[k].EndReport? ==> '\n' !in calls[k].name
    ensures CheckOutput(Concat(LinesOf(calls, |calls|))) <==>
      EndedWell(calls) || exists k :: 0 <= k < |calls| && Misleading(calls[k])
  {
    var n := |calls|;
    var ls := LinesOf(calls, n);
    if n > 0 {
      LinesOfAt(calls, n, 0);
    }
    forall k | 0 <= k < n
      ensures IsLine(ls[k])
      ensures CheckOutput(ls[k]) <==> Misleading(calls[k]) || (calls[k] == EndReport && AllPassed(calls, k))
    {
      LinesOfAt(calls, n, k);
      PassedMeansAll(calls, k);
      match calls[k] {
        case Output(s, pass) => OutputDecides(s, pass);
        case NewTest(s) => NewTestDecides(s);
        case EndReport => EndReportDecides(PassedAfter(calls[..k]));
      }
    }
    CheckByLine(ls);
  }

  ghost predicate MentionsEnd(s: string) {
    exists i :: EndTestsAt(s, i)
  }

  /** So when no name contains END TESTS the verdict is right. */
  lemma VerdictAgrees(calls: seq<Call>)
    requires forall k :: 0 <= k < |calls| && !calls[k].EndReport? ==>
      '\n' !in calls[k].name && !MentionsEnd(calls[k].name)
    ensures CheckOutput(Concat(LinesOf(calls, |calls|))) <==> EndedWell(calls)
  {
    VerdictExact(calls);
    forall k | 0 <= k < |calls| ensures !Misleading(calls[k]) {
      if !calls[k].EndReport? {
        NotMisleading(calls[k]);
      }
    }
  }

  lemma NotMisleading(c: Call)
    requires !c.EndReport? && !MentionsEnd(c.name)
    ensures !Misleading(c)
  {
    if c.Output? {
      forall i ensures !EndTestsAt(Cut(c.name), i) {
        assert !EndTestsAt(c.name, i);
      }
    }
  }

  /** A passed test that is itself called END TESTS, followed by a failed one: the report
      does not end well, and the verdict is True. */
  const IMITATION := [Output("END TESTS", true), Output("other", false), EndReport]

  lemma NameImitatesVerdict()
    ensures CheckOutput(Concat(LinesOf(IMITATION, |IMITATION|))) && !EndedWell(IMITATION)
  {
    var s := "END TESTS";
    assert Cut(s) == s && EndTestsAt(s, 0);
    assert Misleading(Output(s, true)) && IMITATION[0] == Output(s, true);
    assert '\n' !in s && '\n' !in "other";
    VerdictExact(IMITATION);
    assert !AllPassed(IMITATION, 2) by {
      assert IMITATION[1] == Output("other", false);
    }
  }
}
