/** Printing a table of test definitions as a scenario file and parsing it back, and
    the tables that some scenario file denotes. */
module ScenarioRoundTrip {
  import opened Text
  import opened SortedNames
  import opened Scenario

  /** The table `parse_scenario` builds from the text of a file, if no definition faults. */
  function Parse(text: string): Option<Table> {
    var st := After(Events(Lines(text)));
    if st.None? then None else Some(st.value.tests)
  }

  // ---------------------------------------------------------------- the printer

  function Print(e: Event): string {
    match e
    case Header(section, test) => "[" + section + " " + test + "]" + "\n"
    case Define(left, right) => left + "=" + right + "\n"
    case Other => "\n"
  }

  function Definitions(ks: seq<string>, m: map<string, string>): seq<Event>
    requires forall k :: k in ks ==> k in m
  {
    if ks == [] then []
    else
      var k := ks[|ks| - 1];
      Definitions(ks[..|ks| - 1], m) + [Define(k, m[k])]
  }

  function AllDefinitions(m: map<string, string>): seq<Event> {
    Definitions(Sorted(m.Keys), m)
  }

  /** The listed sections of a test, each under its header. */
  function SectionEvents(test: string, names: seq<string>, sections: Sections): seq<Event>
    requires forall n :: n in names ==> n in sections
  {
    if names == [] then []
    else
      var n := names[|names| - 1];
      SectionEvents(test, names[..|names| - 1], sections) + [Header(n, test)] + AllDefinitions(sections[n])
  }

  /** The test header opens the section of its own name. */
  function Opening(test: string, sections: Sections): seq<Event> {
    [Header("test", test)] + if "test" in sections then AllDefinitions(sections["test"]) else []
  }

  function TestEvents(test: string, sections: Sections): seq<Event> {
    Opening(test, sections) + SectionEvents(test, Sorted(sections.Keys - {TEST}), sections)
  }

  function TableEvents(names: seq<string>, t: Table): seq<Event>
    requires forall n :: n in names ==> n in t
  {
    if names == [] then []
    else
      var n := names[|names| - 1];
      TableEvents(names[..|names| - 1], t) + TestEvents(n, t[n])
  }

  function PrintAll(es: seq<Event>): seq<string> {
    seq(|es|, i requires 0 <= i < |es| => Print(es[i]))
  }

  /** The text of a scenario file for the table. */
  function PrintTable(t: Table): string {
    Concat(PrintAll(TableEvents(Sorted(t.Keys), t)))
  }

  // ---------------------------------------------------------------- tables a file can denote

  predicate OneLine(s: string) {
    '\n' !in s
  }

  predicate TestName(s: string) {
    OneLine(s) && ' ' !in s
  }

  predicate Key(s: string) {
    OneLine(s) && (s == "" || s[0] != '[')
  }

  predicate RightSide(s: string) {
    OneLine(s) && '=' !in s
  }

  /** A section exists only through its definitions. */
  predicate GoodSection(m: map<string, string>) {
    m != map[] && forall k :: k in m ==> Key(k) && RightSide(m[k])
  }

  predicate GoodTest(sections: Sections) {
    forall n :: n in sections ==> n != "scenario" && OneLine(n) && GoodSection(sections[n])
  }

  predicate Expressible(t: Table) {
    forall n :: n in t ==> TestName(n) && GoodTest(t[n])
  }

  // ---------------------------------------------------------------- lines read back

  predicate Printable(e: Event) {
    match e
    case Header(section, test) => OneLine(section) && TestName(test)
    case Define(left, right) => Key(left) && RightSide(right)
    case Other => true
  }

  lemma PrintedLine(e: Event)
    requires Printable(e)
    ensures IsLine(Print(e)) && Understand(Print(e)) == e
  {
    match e {
      case Header(section, test) =>
        var s := "[" + section + " " + test + "]";
        assert s + "" == s;
        HeaderRead(s, section, test, "");
        NewlineIgnored(s);
      case Define(left, right) =>
        DefineIff(left + "=" + right, left, right);
        NewlineIgnored(left + "=" + right);
      case Other =>
    }
  }

  lemma PrintedEventsReadBack(es: seq<Event>)
    requires forall i :: 0 <= i < |es| ==> Printable(es[i])
    ensures Events(Lines(Concat(PrintAll(es)))) == es
  {
    var ls := PrintAll(es);
    forall i | 0 <= i < |es| ensures IsLine(ls[i]) && Understand(ls[i]) == es[i] {
      PrintedLine(es[i]);
    }
    LinesOfConcat(ls, "");
    assert Concat(ls) + "" == Concat(ls) && ls + [] == ls;
  }

  // ---------------------------------------------------------------- printed events rebuild the table

  lemma AfterOne(es: seq<Event>, e: Event)
    ensures After(es + [e]) ==
      if After(es).None? || Faults(After(es).value, e) then None else Some(Apply(After(es).value, e))
  {
    assert (es + [e])[..|es + [e]| - 1] == es;
  }

  lemma Regroup(es: seq<Event>, a: seq<Event>, b: seq<Event>, c: seq<Event>)
    ensures es + (a + b + c) == es + a + b + c
    ensures es + (a + b) == es + a + b
  {
  }

  function Part<V>(m: map<string, V>, ks: seq<string>): map<string, V> {
    map k | k in m && k in ks :: m[k]
  }

  lemma PartAgrees<V>(a: map<string, V>, m: map<string, V>, ks: seq<string>, k: string)
    requires k in m && k !in a
    ensures k in a + Part(m, ks) ==> (a + Part(m, ks))[k] == m[k]
  {
  }

  lemma PartGrows<V>(m: map<string, V>, ks: seq<string>)
    requires ks != [] && ks[|ks| - 1] in m
    ensures var k := ks[|ks| - 1]; Part(m, ks) == Part(m, ks[..|ks| - 1])[k := m[k]]
  {
    assert ks == ks[..|ks| - 1] + [ks[|ks| - 1]];
  }

  /** The definitions of some keys, made under the header in force. */
  lemma {:induction false} DefinitionsFill(es: seq<Event>, st: State, ks: seq<string>, m: map<string, string>)
    requires After(es) == Some(st) && st.test in st.tests && st.section != SCENARIO
    requires forall k :: k in ks ==> k in m
    ensures After(es + Definitions(ks, m)) == Some(st.(tests := Filled(st, Part(m, ks))))
  {
    if ks == [] {
      assert es + Definitions(ks, m) == es;
    } else {
      var init, k := ks[..|ks| - 1], ks[|ks| - 1];
      DefinitionsFill(es, st, init, m);
      assert es + Definitions(ks, m) == es + Definitions(init, m) + [Define(k, m[k])];
      AfterOne(es + Definitions(init, m), Define(k, m[k]));
      PartGrows(m, ks);
      FilledGrows(st, Part(m, init), k, m[k]);
    }
  }

  /** The table after the definitions `m` under the header of `st`. */
  function Filled(st: State, m: map<string, string>): Table
    requires st.test in st.tests
  {
    if m == map[] then st.tests
    else st.tests[st.test := st.tests[st.test][st.section := SectionOf(st.tests[st.test], st.section) + m]]
  }

  lemma Overwrite<V>(m: map<string, V>, k: string, v: V, w: V)
    ensures m[k := v][k := w] == m[k := w]
  {
  }

  lemma FilledGrows(st: State, m: map<string, string>, k: string, v: string)
    requires st.test in st.tests
    ensures Store(Filled(st, m), st.test, st.section, k, v) == Filled(st, m[k := v])
  {
    var sections := st.tests[st.test];
    var before := SectionOf(sections, st.section);
    assert (before + m)[k := v] == before + m[k := v];
    assert k in m[k := v];
    if m == map[] {
      assert before + m == before;
    } else {
      Overwrite(sections, st.section, before + m, before + m[k := v]);
      Overwrite(st.tests, st.test, sections[st.section := before + m], sections[st.section := before + m[k := v]]);
    }
  }

  lemma AllDefinitionsFill(es: seq<Event>, st: State, m: map<string, string>)
    requires After(es) == Some(st) && st.test in st.tests && st.section != SCENARIO && m != map[]
    requires st.section in st.tests[st.test] ==> st.tests[st.test][st.section] == m
    ensures After(es + AllDefinitions(m)) == Some(st.(tests := st.tests[st.test := st.tests[st.test][st.section := m]]))
  {
    DefinitionsFill(es, st, Sorted(m.Keys), m);
    assert Part(m, Sorted(m.Keys)) == m;
    assert map[] + m == m && m + m == m;
  }

  /** One more section of the test, under its header. */
  lemma SectionFill(es: seq<Event>, test: string, n: string, m: map<string, string>)
    requires After(es).Some? && test in After(es).value.tests
    requires n != TEST && n != SCENARIO && m != map[] && (n in After(es).value.tests[test] ==> After(es).value.tests[test][n] == m)
    ensures var tests := After(es).value.tests; var all := es + [Header(n, test)] + AllDefinitions(m);
      After(all).Some? && After(all).value.tests == tests[test := tests[test][n := m]]
  {
    var tests := After(es).value.tests;
    AfterOne(es, Header(n, test));
    AllDefinitionsFill(es + [Header(n, test)], State(n, test, tests), m);
  }

  lemma {:induction false} SectionsFill(es: seq<Event>, test: string, tests: Table, names: seq<string>, sections: Sections)
    requires After(es).Some? && After(es).value.tests == tests && test in tests && GoodTest(sections)
    requires forall n :: n in names ==> n in sections && n != TEST && n !in tests[test]
    ensures After(es + SectionEvents(test, names, sections)).Some?
    ensures After(es + SectionEvents(test, names, sections)).value.tests ==
      tests[test := tests[test] + Part(sections, names)]
  {
    var all := es + SectionEvents(test, names, sections);
    if names == [] {
      assert all == es;
      assert tests[test] + Part(sections, names) == tests[test];
    } else {
      var init, n := names[..|names| - 1], names[|names| - 1];
      assert forall x :: x in init ==> x in names;
      SectionsFill(es, test, tests, init, sections);
      var part := tests[test] + Part(sections, init);
      assert n in part ==> part[n] == sections[n] by {
        PartAgrees(tests[test], sections, init, n);
      }
      SectionFill(es + SectionEvents(test, init, sections), test, n, sections[n]);
      Regroup(es, SectionEvents(test, init, sections), [Header(n, test)], AllDefinitions(sections[n]));
      Overwrite(tests, test, part, part[n := sections[n]]);
      PartGrows(sections, names);
      SectionAdded(tests[test], Part(sections, init), n, sections[n]);
    }
  }

  lemma SectionAdded(a: Sections, b: Sections, n: string, m: map<string, string>)
    ensures (a + b)[n := m] == a + b[n := m]
  {
  }

  function OwnSection(sections: Sections): Sections {
    if TEST in sections then map[TEST := sections[TEST]] else map[]
  }

  lemma OpeningFill(es: seq<Event>, test: string, sections: Sections)
    requires After(es).Some? && GoodTest(sections)
    ensures After(es + Opening(test, sections)).Some?
    ensures After(es + Opening(test, sections)).value.tests == After(es).value.tests[test := OwnSection(sections)]
  {
    var tests := After(es).value.tests;
    AfterOne(es, Header(TEST, test));
    var begun := es + [Header(TEST, test)];
    if TEST in sections {
      AllDefinitionsFill(begun, State(TEST, test, tests[test := map[]]), sections[TEST]);
      Regroup(es, [Header(TEST, test)], AllDefinitions(sections[TEST]), []);
      Overwrite(tests, test, map[], OwnSection(sections));
    } else {
      assert es + Opening(test, sections) == begun;
    }
  }

  lemma TestFill(es: seq<Event>, test: string, sections: Sections)
    requires After(es).Some? && GoodTest(sections)
    ensures After(es + TestEvents(test, sections)).Some?
    ensures After(es + TestEvents(test, sections)).value.tests == After(es).value.tests[test := sections]
  {
    var tests := After(es).value.tests;
    var begun, own := es + Opening(test, sections), OwnSection(sections);
    OpeningFill(es, test, sections);
    var names := Sorted(sections.Keys - {TEST});
    SectionsFill(begun, test, tests[test := own], names, sections);
    Regroup(es, Opening(test, sections), SectionEvents(test, names, sections), []);
    OwnAndRest(sections, names);
    Overwrite(tests, test, own, sections);
  }

  lemma OwnAndRest(sections: Sections, names: seq<string>)
    requires forall n :: n in names <==> n in sections && n != TEST
    ensures OwnSection(sections) + Part(sections, names) == sections
  {
  }

  lemma {:induction false} TableFill(names: seq<string>, t: Table)
    requires Expressible(t) && forall n :: n in names ==> n in t
    ensures After(TableEvents(names, t)).Some? && After(TableEvents(names, t)).value.tests == Part(t, names)
  {
    if names != [] {
      var init, n := names[..|names| - 1], names[|names| - 1];
      TableFill(init, t);
      TestFill(TableEvents(init, t), n, t[n]);
      PartGrows(t, names);
    }
  }

  // ---------------------------------------------------------------- printed events are printable

  ghost predicate AllPrintable(es: seq<Event>) {
    forall i :: 0 <= i < |es| ==> Printable(es[i])
  }

  lemma PrintableJoin(a: seq<Event>, b: seq<Event>)
    requires AllPrintable(a) && AllPrintable(b)
    ensures AllPrintable(a + b)
  {
  }

  lemma {:induction false} DefinitionsPrintable(ks: seq<string>, m: map<string, string>)
    requires GoodSection(m) && forall k :: k in ks ==> k in m
    ensures AllPrintable(Definitions(ks, m))
  {
    if ks != [] {
      DefinitionsPrintable(ks[..|ks| - 1], m);
    }
  }

  lemma {:induction false} SectionsPrintable(test: string, names: seq<string>, sections: Sections)
    requires TestName(test) && GoodTest(sections) && forall n :: n in names ==> n in sections
    ensures AllPrintable(SectionEvents(test, names, sections))
  {
    if names != [] {
      var n := names[|names| - 1];
      var before := SectionEvents(test, names[..|names| - 1], sections);
      SectionsPrintable(test, names[..|names| - 1], sections);
      PrintableJoin(before, [Header(n, test)]);
      DefinitionsPrintable(Sorted(sections[n].Keys), sections[n]);
      PrintableJoin(before + [Header(n, test)], AllDefinitions(sections[n]));
    }
  }

  lemma TestPrintable(test: string, sections: Sections)
    requires TestName(test) && GoodTest(sections)
    ensures AllPrintable(TestEvents(test, sections))
  {
    var names := Sorted(sections.Keys - {TEST});
    assert AllPrintable(Opening(test, sections)) by {
      assert AllPrintable([Header(TEST, test)]);
      if TEST in sections {
        DefinitionsPrintable(Sorted(sections[TEST].Keys), sections[TEST]);
        PrintableJoin([Header(TEST, test)], AllDefinitions(sections[TEST]));
      }
    }
    SectionsPrintable(test, names, sections);
    PrintableJoin(Opening(test, sections), SectionEvents(test, names, sections));
  }

  lemma {:induction false} TablePrintable(names: seq<string>, t: Table)
    requires Expressible(t) && forall n :: n in names ==> n in t
    ensures AllPrintable(TableEvents(names, t))
  {
    if names != [] {
      TablePrintable(names[..|names| - 1], t);
      TestPrintable(names[|names| - 1], t[names[|names| - 1]]);
    }
  }

  /** Printing a table and parsing the text gives the table back. */
  lemma TableRoundTrip(t: Table)
    requires Expressible(t)
    ensures Parse(PrintTable(t)) == Some(t)
  {
    var names := Sorted(t.Keys);
    TablePrintable(names, t);
    PrintedEventsReadBack(TableEvents(names, t));
    TableFill(names, t);
    assert Part(t, names) == t;
  }

  // ---------------------------------------------------------------- every parsed table is expressible

  lemma {:induction false} LinesHoldOneLine(t: string, i: nat)
    requires i < |Lines(t)|
    ensures OneLine(Body(Lines(t)[i]))
    decreases |t|
  {
    var n := LineLength(t);
    if i == 0 {
      assert forall k :: 0 <= k < |Body(t[..n])| ==> Body(t[..n])[k] == t[k];
    } else {
      LinesHoldOneLine(t[n..], i - 1);
    }
  }

  lemma UnderstoodIsPrintable(l: string)
    requires OneLine(Body(l))
    ensures Printable(Understand(l))
  {
  }

  /** Whatever events can be printed build an expressible table. */
  lemma {:induction false} BuiltIsExpressible(es: seq<Event>)
    requires AllPrintable(es) && After(es).Some?
    ensures var st := After(es).value; Expressible(st.tests) && OneLine(st.section)
  {
    if es != [] {
      var init, e := es[..|es| - 1], es[|es| - 1];
      BuiltIsExpressible(init);
      var st := After(init).value;
      if e.Define? && st.section != SCENARIO {
        StoreExpressible(st.tests, st.test, st.section, e.left, e.right);
      }
    }
  }

  lemma StoreExpressible(t: Table, test: string, section: string, left: string, right: string)
    requires Expressible(t) && test in t && section != SCENARIO && OneLine(section) && Key(left) && RightSide(right)
    ensures Expressible(Store(t, test, section, left, right))
  {
    var m := SectionOf(t[test], section)[left := right];
    assert left in m;
    assert GoodSection(m);
    assert GoodTest(t[test][section := m]);
  }

  /** Exactly the tables without empty sections, sections named "scenario", spaces in
      test names, equals signs in values and keys that look like headers are denoted
      by a scenario file. */
  lemma ExpressibleIff(t: Table)
    ensures Expressible(t) <==> exists text :: Parse(text) == Some(t)
  {
    if Expressible(t) {
      TableRoundTrip(t);
    }
    if text :| Parse(text) == Some(t) {
      var es := Events(Lines(text));
      forall i | 0 <= i < |es| ensures Printable(es[i]) {
        LinesHoldOneLine(text, i);
        UnderstoodIsPrintable(Lines(text)[i]);
      }
      BuiltIsExpressible(es);
    }
  }
}
