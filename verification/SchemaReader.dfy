/** The node description reader of make_nodes.py: `class Node` with its two
    class-level dictionaries, and the loop that fills them from the input file. */
module SchemaReader {
  import opened Text

  const ROOT := "Root"

  datatype Field = Field(name: string, typ: string, init: Option<string>)

  datatype Node = Node(parent: Option<string>, fields: seq<Field>)

  type Nodes = map<string, Node>

  /** `Node.nodes` and `Node.children`. */
  datatype Registry = Registry(nodes: Nodes, children: map<string, seq<string>>)

  /** `started`, `current` and the dictionaries. `current` always designates the
      most recently constructed node, so its name stands for the object. */
  datatype State = State(started: bool, current: Option<string>, reg: Registry)

  datatype Outcome = Parsed(reg: Registry) | FieldOutsideNode

  const EMPTY := Registry(map[], map[])

  // ---------------------------------------------------------------- specification

  function EffectiveParent(name: string, parent: Option<string>): Option<string> {
    if parent.Some? then parent else if name == ROOT then None else Some(ROOT)
  }

  function ChildrenOf(reg: Registry, p: string): seq<string> {
    if p in reg.children then reg.children[p] else []
  }

  function Declare(reg: Registry, name: string, parent: Option<string>): Registry {
    var p := EffectiveParent(name, parent);
    Registry(
      reg.nodes[name := Node(p, [])],
      if p.Some? then reg.children[p.value := ChildrenOf(reg, p.value) + [name]] else reg.children)
  }

  function AddField(reg: Registry, k: string, f: Field): Registry
    requires k in reg.nodes
  {
    reg.(nodes := reg.nodes[k := reg.nodes[k].(fields := reg.nodes[k].fields + [f])])
  }

  predicate IsComment(l: string) {
    if l == "" then false
    else if Blank(l[0]) then IsComment(l[1..])
    else |l| >= 2 && l[..2] == "--"
  }

  /** `get_words`: the last character is dropped unseen, whatever it is. */
  function GetWords(l: string): seq<string> {
    Words(if l == "" then "" else l[..|l| - 1])
  }

  /** The word lists of the lines the reader does not skip. */
  function Significant(ls: seq<string>): (wss: seq<seq<string>>)
    ensures forall i :: 0 <= i < |wss| ==> wss[i] != [] && forall w :: w in wss[i] ==> IsWord(w)
  {
    if ls == [] then []
    else
      var ws := GetWords(ls[0]);
      (if IsComment(ls[0]) || ws == [] then [] else [ws]) + Significant(ls[1..])
  }

  predicate IsFieldLine(ws: seq<string>) {
    |ws| >= 3 && ws[1] == ":"
  }

  function FieldOf(ws: seq<string>): Field
    requires IsFieldLine(ws)
  {
    Field(ws[0], ws[2], if |ws| == 5 && ws[3] == ":=" then Some(ws[4]) else None)
  }

  function ParentOf(ws: seq<string>): Option<string> {
    if |ws| == 3 && ws[1] == "<--" then Some(ws[2]) else None
  }

  /** What the word lists mean, from a given reader state. */
  function Interpret(wss: seq<seq<string>>, st: State): Outcome
    requires forall i :: 0 <= i < |wss| ==> wss[i] != []
    requires st.current.Some? ==> st.current.value in st.reg.nodes
  {
    if wss == [] then Parsed(st.reg)
    else
      var ws := wss[0];
      if !st.started then Interpret(wss[1..], st.(started := ws == ["START"]))
      else if ws == ["END"] then Parsed(st.reg)
      else if IsFieldLine(ws) then
        if st.current.None? then FieldOutsideNode
        else Interpret(wss[1..], st.(reg := AddField(st.reg, st.current.value, FieldOf(ws))))
      else
        Interpret(wss[1..], State(true, Some(ws[0]), Declare(st.reg, ws[0], ParentOf(ws))))
  }

  function Read(ls: seq<string>): Outcome {
    Interpret(Significant(ls), State(false, None, EMPTY))
  }

  // ---------------------------------------------------------------- the reader

  class Reader {
    var nodes: Nodes
    var children: map<string, seq<string>>
    var current: Option<string>
    var started: bool

    ghost function Reg(): Registry
      reads this
    {
      Registry(nodes, children)
    }

    ghost function Snapshot(): State
      reads this
    {
      State(started, current, Reg())
    }

    ghost predicate Valid()
      reads this
    {
      current.Some? ==> current.value in nodes
    }

    constructor ()
      ensures Valid() && Snapshot() == State(false, None, EMPTY)
    {
      nodes, children, current, started := map[], map[], None, false;
    }

    /** `Node.__init__` followed by the assignment to `current`. */
    method NewNode(name: string, parent: Option<string>)
      modifies this
      ensures Valid() && started == old(started) && current == Some(name)
      ensures Reg() == Declare(old(Reg()), name, parent)
    {
      var p := parent;
      if p.None? && name != ROOT {
        p := Some(ROOT);
      }
      if p.Some? {
        if p.value in children {
          children := children[p.value := children[p.value] + [name]];
        } else {
          assert ChildrenOf(Reg(), p.value) + [name] == [name];
          children := children[p.value := [name]];
        }
      }
      nodes := nodes[name := Node(p, [])];
      current := Some(name);
    }

    method NewField(f: Field)
      requires Valid() && current.Some?
      modifies this`nodes
      ensures Valid() && Reg() == AddField(old(Reg()), current.value, f)
    {
      var n := nodes[current.value];
      nodes := nodes[current.value := n.(fields := n.fields + [f])];
    }

    /** The loop over the input lines, with its `continue` and `break` exits. */
    method ReadAll(input: seq<string>) returns (outcome: Outcome)
      requires Valid()
      modifies this
      ensures Valid()
      ensures outcome == Interpret(Significant(input), old(Snapshot()))
      ensures outcome.Parsed? ==> outcome.reg == Reg()
    {
      var i := 0;
      while i < |input|
        invariant 0 <= i <= |input| && Valid()
        invariant Interpret(Significant(input[i..]), Snapshot())
               == Interpret(Significant(input), old(Snapshot()))
      {
        var l := input[i];
        assert input[i..][0] == l && input[i..][1..] == input[i + 1..];
        i := i + 1;
        if IsComment(l) {
          assert Significant(input[i - 1..]) == Significant(input[i..]);
          continue;
        }
        var words := GetWords(l);
        if words == [] {
          assert Significant(input[i - 1..]) == Significant(input[i..]);
          continue;
        }
        assert Significant(input[i - 1..])[0] == words;
        assert Significant(input[i - 1..])[1..] == Significant(input[i..]);
        if !started {
          if words == ["START"] {
            started := true;
          }
          continue;
        }
        if words == ["END"] {
          return Parsed(Registry(nodes, children));
        }
        if |words| >= 3 && words[1] == ":" {
          if current.None? {
            return FieldOutsideNode;
          }
          if |words| == 5 && words[3] == ":=" {
            NewField(Field(words[0], words[2], Some(words[4])));
          } else {
            NewField(Field(words[0], words[2], None));
          }
        } else {
          if |words| == 3 && words[1] == "<--" {
            NewNode(words[0], Some(words[2]));
          } else {
            NewNode(words[0], None);
          }
        }
      }
      assert input[i..] == [];
      return Parsed(Registry(nodes, children));
    }
  }

  /** The reader on a whole file. */
  method ReadFile(text: string) returns (outcome: Outcome)
    ensures outcome == Read(Lines(text))
  {
    var r := new Reader();
    outcome := r.ReadAll(Lines(text));
  }

  // ---------------------------------------------------------------- lines, told by their text

  /** A comment is two dashes behind nothing but white space. */
  ghost predicate CommentText(l: string, gap: string, rest: string) {
    l == gap + "--" + rest && AllBlank(gap)
  }

  lemma GapFirst(l: string, gap: string, rest: string)
    requires CommentText(l, gap, rest)
    ensures gap != "" ==> Blank(l[0])
  {
    assert gap != "" ==> l[0] == gap[0];
  }

  lemma {:induction false} CommentIff(l: string)
    ensures IsComment(l) <==> exists gap, rest :: CommentText(l, gap, rest)
  {
    if l != "" && Blank(l[0]) {
      CommentIff(l[1..]);
      if gap, rest :| CommentText(l[1..], gap, rest) {
        assert l == ([l[0]] + gap) + "--" + rest;
        assert CommentText(l, [l[0]] + gap, rest);
      }
      if gap, rest :| CommentText(l, gap, rest) {
        assert gap != "" && gap[0] == l[0];
        assert l[1..] == gap[1..] + "--" + rest;
        assert CommentText(l[1..], gap[1..], rest);
      }
    } else {
      if |l| >= 2 && l[..2] == "--" {
        assert l == "" + "--" + l[2..];
        assert CommentText(l, "", l[2..]);
      }
      if gap, rest :| CommentText(l, gap, rest) {
        GapFirst(l, gap, rest);
        assert l == "--" + rest;
      }
    }
  }

  /** The last character of a line is never looked at. */
  lemma LastCharacterDropped(s: string, c: char)
    ensures GetWords(s + [c]) == Words(s)
  {
    assert (s + [c])[..|s|] == s;
  }
}
