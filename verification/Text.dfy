/** Strings the way the Python scripts see them: lines, blanks and words. */
module Text {

  datatype Option<+T> = None | Some(value: T)

  /** The characters matched by `\s` and skipped by `split ()`. */
  predicate Blank(c: char) {
    c in {' ', '\t', '\n', '\r', '\U{000B}', '\U{000C}'}
  }

  predicate AllBlank(s: string) {
    forall i :: 0 <= i < |s| ==> Blank(s[i])
  }

  predicate IsWord(s: string) {
    s != "" && forall i :: 0 <= i < |s| ==> !Blank(s[i])
  }

  predicate NoRepeats(s: seq<string>) {
    s == [] || (s[|s| - 1] !in s[..|s| - 1] && NoRepeats(s[..|s| - 1]))
  }

  // ---------------------------------------------------------------- words

  function WordLength(s: string): (n: nat)
    ensures n <= |s|
    ensures forall i :: 0 <= i < n ==> !Blank(s[i])
    ensures n < |s| ==> Blank(s[n])
  {
    if s == "" || Blank(s[0]) then 0 else 1 + WordLength(s[1..])
  }

  /** `string.split`: the maximal runs of non-blank characters. */
  function Words(s: string): (ws: seq<string>)
    ensures forall w :: w in ws ==> IsWord(w)
    decreases |s|
  {
    if s == "" then []
    else if Blank(s[0]) then Words(s[1..])
    else
      var n := WordLength(s);
      [s[..n]] + Words(s[n..])
  }

  lemma WordLengthOf(w: string, rest: string)
    requires IsWord(w)
    requires rest == "" || Blank(rest[0])
    ensures WordLength(w + rest) == |w|
  {
    assert forall i :: 0 <= i < |w| ==> (w + rest)[i] == w[i];
    assert rest != "" ==> (w + rest)[|w|] == rest[0];
  }

  lemma WordsOfWord(w: string, rest: string)
    requires IsWord(w)
    requires rest == "" || Blank(rest[0])
    ensures Words(w + rest) == [w] + Words(rest)
  {
    WordLengthOf(w, rest);
    assert (w + rest)[0] == w[0];
    assert (w + rest)[..|w|] == w;
    assert (w + rest)[|w|..] == rest;
  }

  lemma {:induction false} WordsSkipBlanks(b: string, s: string)
    requires AllBlank(b)
    ensures Words(b + s) == Words(s)
  {
    if b == "" {
      assert b + s == s;
    } else {
      assert (b + s)[1..] == b[1..] + s;
      WordsSkipBlanks(b[1..], s);
    }
  }

  // ---------------------------------------------------------------- lines

  /** Position just after the first newline, or the end. */
  function LineLength(t: string): (n: nat)
    ensures n <= |t| && (t != "" ==> n > 0)
    ensures forall i :: 0 <= i < n - 1 ==> t[i] != '\n'
    ensures 0 < n < |t| ==> t[n - 1] == '\n'
  {
    if t == "" then 0
    else if t[0] == '\n' then 1
    else 1 + LineLength(t[1..])
  }

  /** `readlines ()`: every line keeps its newline, the last one may lack it. */
  function Lines(t: string): seq<string>
    decreases |t|
  {
    if t == "" then []
    else
      var n := LineLength(t);
      [t[..n]] + Lines(t[n..])
  }

  /** A line closed by its newline. */
  predicate IsLine(l: string) {
    l != "" && l[|l| - 1] == '\n' && forall i :: 0 <= i < |l| - 1 ==> l[i] != '\n'
  }

  lemma LinesOfLine(l: string, rest: string)
    requires IsLine(l)
    ensures Lines(l + rest) == [l] + Lines(rest)
  {
    var t := l + rest;
    assert forall i :: 0 <= i < |l| ==> t[i] == l[i];
    assert t[..|l|] == l && t[|l|..] == rest;
  }

  function Concat(ls: seq<string>): string {
    if ls == [] then "" else ls[0] + Concat(ls[1..])
  }

  /** Splitting undoes concatenation of closed lines. */
  lemma {:induction false} LinesOfConcat(ls: seq<string>, rest: string)
    requires forall i :: 0 <= i < |ls| ==> IsLine(ls[i])
    ensures Lines(Concat(ls) + rest) == ls + Lines(rest)
  {
    if ls == [] {
      assert Concat(ls) + rest == rest;
    } else {
      var tail := Concat(ls[1..]) + rest;
      assert Concat(ls) + rest == ls[0] + tail;
      LinesOfConcat(ls[1..], rest);
      LinesOfLine(ls[0], tail);
      Rejoin(ls, Lines(rest));
    }
  }

  lemma Rejoin(ls: seq<string>, more: seq<string>)
    requires ls != []
    ensures [ls[0]] + (ls[1..] + more) == ls + more
  {
  }

  // ---------------------------------------------------------------- searching

  predicate OccursAt(needle: string, s: string, i: int) {
    0 <= i <= |s| - |needle| && s[i..i + |needle|] == needle
  }

  /** Python's `needle in s`. */
  predicate Occurs(needle: string, s: string) {
    exists i :: 0 <= i <= |s| && OccursAt(needle, s, i)
  }

  /** Exactly six characters separate words. */
  lemma SeparatorsAre(v: string, c: char, w: string)
    requires IsWord(v) && IsWord(w)
    ensures Words(v + ([c] + w)) ==
      if c == ' ' || c == '\t' || c == '\n' || c == '\r' || c == '\U{000B}' || c == '\U{000C}' then [v, w] else [v + ([c] + w)]
  {
    if Blank(c) {
      WordsOfWord(v, [c] + w);
      WordsSkipBlanks([c], w);
      WordsOfWord(w, "");
      assert w + "" == w && Words("") == [];
    } else {
      var s := v + ([c] + w);
      assert IsWord(s);
      WordsOfWord(s, "");
      assert s + "" == s && Words("") == [];
    }
  }
}
