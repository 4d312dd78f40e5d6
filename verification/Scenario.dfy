/** convert_scenario.py, `parse_scenario`: the section state machine that fills the
    nested dictionary of test definitions. */
module Scenario {
  import opened Text

  const SCENARIO := "scenario"
  const TEST := "test"

  type Sections = map<string, map<string, string>>
  type Table = map<string, Sections>

  /** What one line says. */
  datatype Event = Header(section: string, test: string) | Define(left: string, right: string) | Other

  datatype State = State(section: string, test: string, tests: Table)

  /** KeyError: a definition for a test that no `[test ..]` header has introduced. */
  datatype Outcome = Parsed(tests: Table) | UnknownTest(test: string)

  // ---------------------------------------------------------------- one line

  /** Last position of `c` below `n`, or -1. */
  function LastOf(s: string, c: char, n: nat): (i: int)
    requires n <= |s|
    ensures -1 <= i < n && (i >= 0 ==> s[i] == c) && forall k :: i < k < n ==> s[k] != c
  {
    if n == 0 then -1 else if s[n - 1] == c then n - 1 else LastOf(s, c, n - 1)
  }

  /** The line without its newline: what `.` can match. */
  function Body(l: string): string {
    if l != "" && l[|l| - 1] == '\n' then l[..|l| - 1] else l
  }

  /** `\[(.*) (.*)\]` takes the last bracket and the last space before it; `(.*)=(.*)` the last equals sign. */
  function Understand(l: string): Event {
    var s := Body(l);
    if s != "" && s[0] == '[' then
      var close := LastOf(s, ']', |s|);
      if close <= 0 then Other
      else
        var space := LastOf(s, ' ', close);
        if space <= 0 then Other else Header(s[1..space], s[space + 1..close])
    else
      var eq := LastOf(s, '=', |s|);
      if eq < 0 then Other else Define(s[..eq], s[eq + 1..])
  }

  // ---------------------------------------------------------------- the state machine

  function SectionOf(sections: Sections, name: string): map<string, string> {
    if name in sections then sections[name] else map[]
  }

  function Store(tests: Table, test: string, section: string, left: string, right: string): Table
    requires test in tests
  {
    tests[test := tests[test][section := SectionOf(tests[test], section)[left := right]]]
  }

  function Apply(st: State, e: Event): State
    requires e.Define? && st.section != SCENARIO ==> st.test in st.tests
  {
    match e
    case Header(section, test) =>
      State(section, test, if section == TEST then st.tests[test := map[]] else st.tests)
    case Define(left, right) =>
      if st.section == SCENARIO then st else st.(tests := Store(st.tests, st.test, st.section, left, right))
    case Other => st
  }

  predicate Faults(st: State, e: Event) {
    e.Define? && st.section != SCENARIO && st.test !in st.tests
  }

  const START := State(SCENARIO, "", map[])

  /** The state after a sequence of events, if no definition faults. */
  function After(es: seq<Event>): Option<State> {
    if es == [] then Some(START)
    else
      var st := After(es[..|es| - 1]);
      if st.None? || Faults(st.value, es[|es| - 1]) then None else Some(Apply(st.value, es[|es| - 1]))
  }

  function Events(ls: seq<string>): (es: seq<Event>)
    ensures |es| == |ls| && forall i :: 0 <= i < |ls| ==> es[i] == Understand(ls[i])
  {
    seq(|ls|, i requires 0 <= i < |ls| => Understand(ls[i]))
  }

  /** A definition line: the section dictionary is created on first use. */
  method Record(before: Table, test: string, section: string, left: string, right: string) returns (tests: Table)
    requires test in before
    ensures tests == Store(before, test, section, left, right)
  {
    tests := before;
    if section !in tests[test] {
      tests := tests[test := tests[test][section := map[]]];
    }
    tests := tests[test := tests[test][section := tests[test][section][left := right]]];
    assert tests[test] == Store(before, test, section, left, right)[test];
  }

  /** The loop over the lines of the file. */
  method ParseScenario(ls: seq<string>) returns (r: Outcome)
    ensures r.Parsed? <==> After(Events(ls)).Some?
    ensures r.Parsed? ==> r.tests == After(Events(ls)).value.tests
  {
    var section, test, tests := SCENARIO, "", map[];
    ghost var es := Events(ls);
    for i := 0 to |ls|
      invariant After(es[..i]) == Some(State(section, test, tests))
    {
      AfterNext(es, i);
      match Understand(ls[i]) {
        case Header(s, t) =>
          section, test := s, t;
          if section == TEST {
            tests := tests[test := map[]];
          }
        case Define(left, right) =>
          if section != SCENARIO {
            if test !in tests {
              FaultStays(es, i + 1);
              return UnknownTest(test);
            }
            tests := Record(tests, test, section, left, right);
          }
        case Other =>
      }
    }
    assert es[..|ls|] == es;
    return Parsed(tests);
  }

  lemma AfterNext(es: seq<Event>, i: nat)
    requires i < |es| && After(es[..i]).Some?
    ensures var st := After(es[..i]).value;
      After(es[..i + 1]) == if Faults(st, es[i]) then None else Some(Apply(st, es[i]))
  {
    assert es[..i + 1][..i] == es[..i];
  }

  lemma {:induction false} FaultStays(es: seq<Event>, n: nat)
    requires n <= |es| && After(es[..n]).None?
    ensures After(es).None?
    decreases |es| - n
  {
    if n == |es| {
      assert es[..n] == es;
    } else {
      assert es[..n + 1][..n] == es[..n];
      FaultStays(es, n + 1);
    }
  }

  // ---------------------------------------------------------------- what the table means

  /** The header in force after the events. */
  function Current(es: seq<Event>): (string, string) {
    if es == [] then ("scenario", "")
    else if es[|es| - 1].Header? then (es[|es| - 1].section, es[|es| - 1].test)
    else Current(es[..|es| - 1])
  }

  /** The right-hand side of the last definition of `key` made under header
      `[section test]` since the latest `[test test]` header. */
  function LastDefinition(es: seq<Event>, test: string, section: string, key: string): Option<string> {
    if es == [] then None
    else
      var init, e := es[..|es| - 1], es[|es| - 1];
      if e == Header("test", test) then None
      else if e.Define? && e.left == key && Current(init) == (section, test) && section != "scenario" then Some(e.right)
      else LastDefinition(init, test, section, key)
  }

  function Lookup(tests: Table, test: string, section: string, key: string): Option<string> {
    if test in tests && section in tests[test] && key in tests[test][section] then Some(tests[test][section][key]) else None
  }

  /** Parsing is last-assignment-wins since the latest test header, for every entry. */
  lemma {:induction false} TableIsLastDefinition(es: seq<Event>, test: string, section: string, key: string)
    requires After(es).Some?
    ensures Lookup(After(es).value.tests, test, section, key) == LastDefinition(es, test, section, key)
    ensures Current(es) == (After(es).value.section, After(es).value.test)
  {
    if es != [] {
      TableIsLastDefinition(es[..|es| - 1], test, section, key);
    }
  }

  /** A test is in the table exactly when some header introduced it. */
  lemma {:induction false} TestsAreIntroduced(es: seq<Event>, test: string)
    requires After(es).Some?
    ensures test in After(es).value.tests <==> Header("test", test) in es
  {
    if es != [] {
      TestsAreIntroduced(es[..|es| - 1], test);
      assert es == es[..|es| - 1] + [es[|es| - 1]];
    }
  }

  // ---------------------------------------------------------------- what a line says, told by its text

  /** With or without its newline a line has the same body. */
  lemma BodyOfLine(s: string)
    requires '\n' !in s
    ensures Body(s) == s && Body(s + "\n") == s
  {
    assert (s + "\n")[..|s|] == s;
  }

  /** The text of a header: behind the last bracket anything may follow. */
  ghost predicate HeaderText(s: string, section: string, test: string, rest: string) {
    s == "[" + section + " " + test + "]" + rest && ' ' !in test && ']' !in rest
  }

  lemma HeaderRead(s: string, section: string, test: string, rest: string)
    requires '\n' !in s && HeaderText(s, section, test, rest)
    ensures Understand(s) == Header(section, test)
  {
    BodyOfLine(s);
    var p, q := 1 + |section|, 2 + |section| + |test|;
    assert s[0] == '[' && s[p] == ' ' && s[q] == ']';
    assert forall k :: p < k < q ==> s[k] == test[k - p - 1];
    assert forall k :: q < k < |s| ==> s[k] == rest[k - q - 1];
    assert LastOf(s, ']', |s|) == q by {
      assert forall k :: q < k < |s| ==> s[k] != ']';
    }
    assert LastOf(s, ' ', q) == p by {
      assert forall k :: p < k < q ==> s[k] != ' ';
    }
    assert s[1..p] == section && s[p + 1..q] == test;
  }

  /** A line is understood as a header exactly if it has the text of one. */
  lemma HeaderIff(s: string, section: string, test: string)
    requires '\n' !in s
    ensures Understand(s) == Header(section, test) <==> exists rest :: HeaderText(s, section, test, rest)
  {
    BodyOfLine(s);
    if rest :| HeaderText(s, section, test, rest) {
      HeaderRead(s, section, test, rest);
    }
    if Understand(s) == Header(section, test) {
      var q := LastOf(s, ']', |s|);
      var p := LastOf(s, ' ', q);
      assert s == [s[0]] + s[1..p] + [s[p]] + s[p + 1..q] + [s[q]] + s[q + 1..];
      assert HeaderText(s, section, test, s[q + 1..]);
    }
  }

  /** A line is understood as a definition exactly if it does not begin with a bracket and
      has an equals sign; the last one separates the two sides. */
  lemma DefineIff(s: string, left: string, right: string)
    requires '\n' !in s
    ensures Understand(s) == Define(left, right) <==>
      !("[" <= s) && s == left + "=" + right && '=' !in right
  {
    BodyOfLine(s);
    var eq := LastOf(s, '=', |s|);
    if s == left + "=" + right && '=' !in right {
      assert s[|left|] == '=';
      assert forall k :: |left| < k < |s| ==> s[k] == right[k - |left| - 1];
      assert eq == |left|;
      assert s[..eq] == left && s[eq + 1..] == right;
    }
    if eq >= 0 {
      assert s == s[..eq] + [s[eq]] + s[eq + 1..];
    }
  }

  /** The newline at the end of a line makes no difference. */
  lemma NewlineIgnored(s: string)
    requires '\n' !in s
    ensures Understand(s + "\n") == Understand(s)
  {
    BodyOfLine(s);
  }
}
