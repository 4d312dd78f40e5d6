/** Printing a node hierarchy in the START/END syntax and reading it back. */
module SchemaRoundTrip {
  import opened Text
  import opened SchemaReader

  /** One node block: a header line and its field lines. */
  datatype Decl = Decl(name: string, parent: Option<string>, fields: seq<Field>)

  predicate ValidField(f: Field) {
    IsWord(f.name) && IsWord(f.typ) && (f.init.Some? ==> IsWord(f.init.value))
  }

  predicate ValidDecl(d: Decl) {
    && IsWord(d.name) && (d.parent.Some? ==> IsWord(d.parent.value))
    && (forall i :: 0 <= i < |d.fields| ==> ValidField(d.fields[i]))
    // a bare header named END would stop the reader
    && !(d.name == "END" && d.parent.None?)
  }

  function HeaderWords(d: Decl): seq<string> {
    if d.parent.Some? then [d.name, "<--", d.parent.value] else [d.name]
  }

  function FieldWords(f: Field): seq<string> {
    [f.name, ":", f.typ] + if f.init.Some? then [":=", f.init.value] else []
  }

  function FieldsWords(fs: seq<Field>): (wss: seq<seq<string>>)
    ensures forall i :: 0 <= i < |wss| ==> wss[i] != []
  {
    if fs == [] then [] else [FieldWords(fs[0])] + FieldsWords(fs[1..])
  }

  function DeclsWords(ds: seq<Decl>): (wss: seq<seq<string>>)
    ensures forall i :: 0 <= i < |wss| ==> wss[i] != []
  {
    if ds == [] then []
    else [HeaderWords(ds[0])] + FieldsWords(ds[0].fields) + DeclsWords(ds[1..])
  }

  // ---------------------------------------------------------------- the registry of a hierarchy

  function DeclNode(d: Decl): Node {
    Node(EffectiveParent(d.name, d.parent), d.fields)
  }

  /** The names declared under parent `p`, in declaration order. */
  function ChildNames(ds: seq<Decl>, p: string): seq<string> {
    if ds == [] then []
    else (if DeclNode(ds[0]).parent == Some(p) then [ds[0].name] else []) + ChildNames(ds[1..], p)
  }

  predicate DistinctNames(ds: seq<Decl>) {
    forall i, j :: 0 <= i < j < |ds| ==> ds[i].name != ds[j].name
  }

  /** Each block's parent and fields, and each parent's children in order. */
  ghost predicate Represents(reg: Registry, ds: seq<Decl>) {
    && (forall i :: 0 <= i < |ds| ==> ds[i].name in reg.nodes && reg.nodes[ds[i].name] == DeclNode(ds[i]))
    && (forall k :: k in reg.nodes ==> exists i :: 0 <= i < |ds| && ds[i].name == k)
    && (forall p :: ChildrenOf(reg, p) == ChildNames(ds, p))
    && (forall p :: p in reg.children ==> reg.children[p] != [])
  }

  function Block(reg: Registry, d: Decl): Registry {
    var r := Declare(reg, d.name, d.parent);
    r.(nodes := r.nodes[d.name := DeclNode(d)])
  }

  function Build(ds: seq<Decl>, reg: Registry): Registry {
    if ds == [] then reg else Build(ds[1..], Block(reg, ds[0]))
  }

  lemma {:induction false} BuildNodes(ds: seq<Decl>, reg: Registry)
    requires DistinctNames(ds)
    ensures forall i :: 0 <= i < |ds| ==>
      ds[i].name in Build(ds, reg).nodes && Build(ds, reg).nodes[ds[i].name] == DeclNode(ds[i])
    ensures forall k :: k in Build(ds, reg).nodes ==>
      k in reg.nodes || exists i :: 0 <= i < |ds| && ds[i].name == k
    ensures forall k :: k in reg.nodes && (forall i :: 0 <= i < |ds| ==> ds[i].name != k) ==>
      k in Build(ds, reg).nodes && Build(ds, reg).nodes[k] == reg.nodes[k]
  {
    if ds != [] {
      var reg1 := Block(reg, ds[0]);
      BuildNodes(ds[1..], reg1);
      assert forall i :: 1 <= i < |ds| ==> ds[i] == ds[1..][i - 1];
      assert reg1.nodes[ds[0].name] == DeclNode(ds[0]);
      assert forall k :: k in reg1.nodes ==> k in reg.nodes || k == ds[0].name;
    }
  }

  lemma {:induction false} BuildChildren(ds: seq<Decl>, reg: Registry, p: string)
    ensures ChildrenOf(Build(ds, reg), p) == ChildrenOf(reg, p) + ChildNames(ds, p)
  {
    if ds != [] {
      BuildChildren(ds[1..], Block(reg, ds[0]), p);
    }
  }

  lemma {:induction false} BuildChildrenNonEmpty(ds: seq<Decl>, reg: Registry)
    requires forall p :: p in reg.children ==> reg.children[p] != []
    ensures forall p :: p in Build(ds, reg).children ==> Build(ds, reg).children[p] != []
  {
    if ds != [] {
      BuildChildrenNonEmpty(ds[1..], Block(reg, ds[0]));
    }
  }

  lemma BuildRepresents(ds: seq<Decl>)
    requires DistinctNames(ds)
    ensures Represents(Build(ds, EMPTY), ds)
  {
    BuildNodes(ds, EMPTY);
    BuildChildrenNonEmpty(ds, EMPTY);
    forall p
      ensures ChildrenOf(Build(ds, EMPTY), p) == ChildNames(ds, p)
    {
      BuildChildren(ds, EMPTY, p);
    }
  }

  // ---------------------------------------------------------------- reading the word lists

  function WithFields(reg: Registry, k: string, fs: seq<Field>): Registry
    requires k in reg.nodes
  {
    reg.(nodes := reg.nodes[k := reg.nodes[k].(fields := reg.nodes[k].fields + fs)])
  }

  lemma {:induction false} InterpretFields(fs: seq<Field>, rest: seq<seq<string>>, k: string, reg: Registry)
    requires k in reg.nodes
    requires forall i :: 0 <= i < |fs| ==> ValidField(fs[i])
    requires forall i :: 0 <= i < |rest| ==> rest[i] != []
    ensures Interpret(FieldsWords(fs) + rest, State(true, Some(k), reg))
         == Interpret(rest, State(true, Some(k), WithFields(reg, k, fs)))
  {
    if fs == [] {
      assert FieldsWords(fs) + rest == rest;
      assert reg.nodes[k].fields + fs == reg.nodes[k].fields;
      assert WithFields(reg, k, fs) == reg;
    } else {
      var tail := FieldsWords(fs[1..]) + rest;
      assert FieldsWords(fs) + rest == [FieldWords(fs[0])] + tail;
      InterpretField(fs[0], tail, k, reg);
      InterpretFields(fs[1..], rest, k, AddField(reg, k, fs[0]));
      WithFieldsNext(reg, k, fs);
    }
  }

  lemma InterpretField(f: Field, rest: seq<seq<string>>, k: string, reg: Registry)
    requires k in reg.nodes && ValidField(f) && forall i :: 0 <= i < |rest| ==> rest[i] != []
    ensures Interpret([FieldWords(f)] + rest, State(true, Some(k), reg)) == Interpret(rest, State(true, Some(k), AddField(reg, k, f)))
  {
    var wss := [FieldWords(f)] + rest;
    assert wss[0] == FieldWords(f) && wss[1..] == rest;
    assert IsFieldLine(wss[0]) && FieldOf(wss[0]) == f;
  }

  lemma WithFieldsNext(reg: Registry, k: string, fs: seq<Field>)
    requires k in reg.nodes && fs != []
    ensures WithFields(AddField(reg, k, fs[0]), k, fs[1..]) == WithFields(reg, k, fs)
  {
    assert reg.nodes[k].fields + [fs[0]] + fs[1..] == reg.nodes[k].fields + fs;
  }

  lemma InterpretHeader(d: Decl, rest: seq<seq<string>>, cur: Option<string>, reg: Registry)
    requires cur.Some? ==> cur.value in reg.nodes
    requires ValidDecl(d) && forall i :: 0 <= i < |rest| ==> rest[i] != []
    ensures Interpret([HeaderWords(d)] + rest, State(true, cur, reg))
         == Interpret(rest, State(true, Some(d.name), Declare(reg, d.name, d.parent)))
  {
    var wss := [HeaderWords(d)] + rest;
    assert wss[0] == HeaderWords(d) && wss[1..] == rest;
    assert wss[0] != ["END"] by {
      assert |HeaderWords(d)| == 1 ==> HeaderWords(d)[0] == d.name;
    }
    assert ParentOf(wss[0]) == d.parent && wss[0][0] == d.name && !IsFieldLine(wss[0]);
  }

  lemma InterpretBlock(d: Decl, rest: seq<seq<string>>, cur: Option<string>, reg: Registry)
    requires cur.Some? ==> cur.value in reg.nodes
    requires ValidDecl(d) && forall i :: 0 <= i < |rest| ==> rest[i] != []
    ensures Interpret([HeaderWords(d)] + (FieldsWords(d.fields) + rest), State(true, cur, reg))
         == Interpret(rest, State(true, Some(d.name), Block(reg, d)))
  {
    var reg1 := Declare(reg, d.name, d.parent);
    InterpretHeader(d, FieldsWords(d.fields) + rest, cur, reg);
    InterpretFields(d.fields, rest, d.name, reg1);
    assert [] + d.fields == d.fields;
    assert WithFields(reg1, d.name, d.fields) == Block(reg, d);
  }

  lemma {:induction false} InterpretDecls(ds: seq<Decl>, rest: seq<seq<string>>, cur: Option<string>, reg: Registry)
    requires cur.Some? ==> cur.value in reg.nodes
    requires forall i :: 0 <= i < |ds| ==> ValidDecl(ds[i])
    requires forall i :: 0 <= i < |rest| ==> rest[i] != []
    ensures Interpret(DeclsWords(ds) + [["END"]] + rest, State(true, cur, reg)) == Parsed(Build(ds, reg))
  {
    var wss := DeclsWords(ds) + [["END"]] + rest;
    if ds == [] {
      assert wss[0] == ["END"];
    } else {
      var d := ds[0];
      var tail := DeclsWords(ds[1..]) + [["END"]] + rest;
      assert wss == [HeaderWords(d)] + (FieldsWords(d.fields) + tail);
      InterpretBlock(d, tail, cur, reg);
      InterpretDecls(ds[1..], rest, Some(d.name), Block(reg, d));
    }
  }

  lemma {:induction false} InterpretPreamble(pre: seq<seq<string>>, rest: seq<seq<string>>, reg: Registry)
    requires forall i :: 0 <= i < |pre| ==> pre[i] != [] && pre[i] != ["START"]
    requires forall i :: 0 <= i < |rest| ==> rest[i] != []
    ensures Interpret(pre + [["START"]] + rest, State(false, None, reg)) == Interpret(rest, State(true, None, reg))
  {
    var wss := pre + [["START"]] + rest;
    if pre == [] {
      assert wss[0] == ["START"] && wss[1..] == rest;
    } else {
      assert wss[0] == pre[0] && wss[1..] == pre[1..] + [["START"]] + rest;
      InterpretPreamble(pre[1..], rest, reg);
    }
  }

  // ---------------------------------------------------------------- layout

  /** A printed line: words separated by arbitrary blanks, or a line the reader must ignore. */
  datatype DocLine = Noise(text: string) | Content(words: seq<string>, gaps: seq<string>)

  predicate BlankGap(g: string) {
    AllBlank(g) && '\n' !in g
  }

  predicate DashDash(w: string) {
    |w| >= 2 && w[..2] == "--"
  }

  predicate ValidLine(l: DocLine) {
    match l
    case Noise(t) => '\n' !in t && (IsComment(t + "\n") || AllBlank(t))
    case Content(words, gaps) =>
      && words != [] && |gaps| == |words| + 1
      && (forall i :: 0 <= i < |words| ==> IsWord(words[i]))
      && (forall i :: 0 <= i < |gaps| ==> BlankGap(gaps[i]))
      && (forall i :: 1 <= i < |words| ==> gaps[i] != "")
      && !DashDash(words[0])
  }

  function Render(words: seq<string>, gaps: seq<string>): string
    requires |gaps| == |words| + 1
  {
    if words == [] then gaps[0] else gaps[0] + words[0] + Render(words[1..], gaps[1..])
  }

  function LineText(l: DocLine): string
    requires ValidLine(l)
  {
    match l
    case Noise(t) => t + "\n"
    case Content(words, gaps) => Render(words, gaps) + "\n"
  }

  function DocLines(doc: seq<DocLine>): seq<string>
    requires forall i :: 0 <= i < |doc| ==> ValidLine(doc[i])
  {
    if doc == [] then [] else [LineText(doc[0])] + DocLines(doc[1..])
  }

  function Contents(doc: seq<DocLine>): seq<seq<string>> {
    if doc == [] then []
    else (if doc[0].Content? then [doc[0].words] else []) + Contents(doc[1..])
  }

  lemma {:induction false} RenderWords(words: seq<string>, gaps: seq<string>)
    requires |gaps| == |words| + 1
    requires forall i :: 0 <= i < |words| ==> IsWord(words[i])
    requires forall i :: 0 <= i < |gaps| ==> BlankGap(gaps[i])
    requires forall i :: 1 <= i < |words| ==> gaps[i] != ""
    ensures Words(Render(words, gaps)) == words
    ensures '\n' !in Render(words, gaps)
  {
    if words == [] {
      WordsSkipBlanks(gaps[0], "");
      assert gaps[0] + "" == gaps[0];
    } else {
      var rest := Render(words[1..], gaps[1..]);
      RenderWords(words[1..], gaps[1..]);
      assert rest == "" || Blank(rest[0]) by {
        assert gaps[1..][0] == gaps[1] && BlankGap(gaps[1]);
        if |words| > 1 {
          assert rest[0] == gaps[1][0];
        } else {
          assert rest == gaps[1];
        }
      }
      WordsOfWord(words[0], rest);
      WordsSkipBlanks(gaps[0], words[0] + rest);
      assert gaps[0] + (words[0] + rest) == Render(words, gaps);
      assert '\n' !in words[0] by {
        assert forall i :: 0 <= i < |words[0]| ==> words[0][i] != '\n';
      }
    }
  }

  lemma {:induction false} NotComment(b: string, w: string, rest: string)
    requires AllBlank(b) && IsWord(w) && !DashDash(w)
    requires rest == "" || Blank(rest[0])
    ensures !IsComment(b + w + rest)
  {
    var l := b + w + rest;
    if b == "" {
      assert l == w + rest;
      assert l[0] == w[0];
      assert |w| >= 2 ==> l[..2] == w[..2];
      assert |w| == 1 && rest != "" ==> l[1] == rest[0];
    } else {
      assert l[0] == b[0] && l[1..] == b[1..] + w + rest;
      NotComment(b[1..], w, rest);
    }
  }

  lemma NoiseMeaning(s: string)
    requires '\n' !in s && (IsComment(s + "\n") || AllBlank(s))
    ensures IsLine(s + "\n") && (IsComment(s + "\n") || GetWords(s + "\n") == [])
  {
    var t := s + "\n";
    assert t[..|t| - 1] == s;
    if AllBlank(s) {
      WordsSkipBlanks(s, "");
      assert s + "" == s;
    }
  }

  lemma ContentMeaning(words: seq<string>, gaps: seq<string>)
    requires ValidLine(Content(words, gaps))
    ensures var t := Render(words, gaps) + "\n"; IsLine(t) && !IsComment(t) && GetWords(t) == words
  {
    var t := Render(words, gaps) + "\n";
    RenderWords(words, gaps);
    assert t[..|t| - 1] == Render(words, gaps);
    var rest := Render(words[1..], gaps[1..]) + "\n";
    assert t == gaps[0] + words[0] + rest;
    assert Blank(rest[0]) by {
      assert gaps[1..][0] == gaps[1] && BlankGap(gaps[1]);
    }
    NotComment(gaps[0], words[0], rest);
  }

  lemma LineMeaning(l: DocLine)
    requires ValidLine(l)
    ensures IsLine(LineText(l))
    ensures l.Noise? ==> IsComment(LineText(l)) || GetWords(LineText(l)) == []
    ensures l.Content? ==> !IsComment(LineText(l)) && GetWords(LineText(l)) == l.words
  {
    match l {
      case Noise(s) => NoiseMeaning(s);
      case Content(words, gaps) => ContentMeaning(words, gaps);
    }
  }

  /** Comments, blank lines and spacing carry no meaning. */
  lemma {:induction false} NoiseIsIgnored(doc: seq<DocLine>)
    requires forall i :: 0 <= i < |doc| ==> ValidLine(doc[i])
    ensures Lines(Concat(DocLines(doc))) == DocLines(doc)
    ensures Significant(DocLines(doc)) == Contents(doc)
  {
    if doc != [] {
      LineMeaning(doc[0]);
      NoiseIsIgnored(doc[1..]);
      LinesOfLine(LineText(doc[0]), Concat(DocLines(doc[1..])));
      assert DocLines(doc)[1..] == DocLines(doc[1..]);
    }
  }

  /** The same, on word lists: from START to END the reader rebuilds the hierarchy. */
  lemma InterpretDocument(pre: seq<seq<string>>, ds: seq<Decl>, post: seq<seq<string>>)
    requires forall i :: 0 <= i < |pre| ==> pre[i] != [] && pre[i] != ["START"]
    requires forall i :: 0 <= i < |post| ==> post[i] != []
    requires forall i :: 0 <= i < |ds| ==> ValidDecl(ds[i])
    ensures Interpret(pre + [["START"]] + (DeclsWords(ds) + [["END"]] + post), State(false, None, EMPTY))
         == Parsed(Build(ds, EMPTY))
  {
    InterpretPreamble(pre, DeclsWords(ds) + [["END"]] + post, EMPTY);
    InterpretDecls(ds, post, None, EMPTY);
  }

  /** Any printed form of a hierarchy, however laid out and commented, whatever
      precedes START and follows END, reads back as that hierarchy. */
  lemma SchemaRoundTrip(doc: seq<DocLine>, pre: seq<seq<string>>, ds: seq<Decl>, post: seq<seq<string>>)
    requires forall i :: 0 <= i < |doc| ==> ValidLine(doc[i])
    requires forall i :: 0 <= i < |ds| ==> ValidDecl(ds[i])
    requires forall i :: 0 <= i < |pre| ==> pre[i] != [] && pre[i] != ["START"]
    requires forall i :: 0 <= i < |post| ==> post[i] != []
    requires DistinctNames(ds)
    requires Contents(doc) == pre + [["START"]] + (DeclsWords(ds) + [["END"]] + post)
    ensures Read(Lines(Concat(DocLines(doc)))) == Parsed(Build(ds, EMPTY))
    ensures Represents(Build(ds, EMPTY), ds)
  {
    NoiseIsIgnored(doc);
    InterpretDocument(pre, ds, post);
    BuildRepresents(ds);
  }
}
