/** The text of the kind assertion that guards every generated accessor, and
    what an Ada reader makes of it. */
module AssertionText {
  import opened Text

  // ---------------------------------------------------------------- printing

  const FIRST := "      pragma Assert (Node.Kind = K_"
  const NEXT := "             or else Node.Kind = K_"

  function AssertLine(kinds: seq<string>, i: nat): string
    requires i < |kinds|
  {
    (if i == 0 then FIRST else NEXT) + kinds[i] + (if i == |kinds| - 1 then ");" else "")
  }

  /** `print` of each line. */
  function Printed(ls: seq<string>): string {
    if ls == [] then "" else ls[0] + "\n" + Printed(ls[1..])
  }

  /** The loop that fills `assrt`. */
  method BuildAssertion(kinds: seq<string>) returns (assrt: seq<string>)
    ensures |assrt| == |kinds|
    ensures forall i :: 0 <= i < |kinds| ==> assrt[i] == AssertLine(kinds, i)
  {
    assrt := [];
    for k := 0 to |kinds|
      invariant |assrt| == k
      invariant forall i :: 0 <= i < k ==> assrt[i] == AssertLine(kinds, i)
    {
      if k == 0 {
        if |kinds| == 1 {
          assrt := [FIRST + kinds[k] + ");"];
        } else {
          assrt := [FIRST + kinds[k]];
          assert FIRST + kinds[k] + "" == FIRST + kinds[k];
        }
      } else {
        var expr := if k == |kinds| - 1 then ");" else "";
        assrt := assrt + [NEXT + kinds[k] + expr];
      }
    }
  }

  // ---------------------------------------------------------------- reading

  predicate Ident(c: char) {
    'a' <= c <= 'z' || 'A' <= c <= 'Z' || '0' <= c <= '9' || c == '_' || c == '.'
  }

  predicate IsIdent(w: string) {
    w != "" && forall i :: 0 <= i < |w| ==> Ident(w[i])
  }

  function IdentLength(s: string): (n: nat)
    ensures n <= |s|
    ensures forall i :: 0 <= i < n ==> Ident(s[i])
    ensures n < |s| ==> !Ident(s[n])
  {
    if s == "" || !Ident(s[0]) then 0 else 1 + IdentLength(s[1..])
  }

  /** Names are maximal runs of identifier characters; every other visible character is a token. */
  function Tokens(s: string): seq<string>
    decreases |s|
  {
    if s == "" then []
    else if Blank(s[0]) then Tokens(s[1..])
    else if Ident(s[0]) then
      var n := IdentLength(s);
      [s[..n]] + Tokens(s[n..])
    else [s[..1]] + Tokens(s[1..])
  }

  predicate IsKindLiteral(w: string) {
    |w| > 2 && w[..2] == "K_"
  }

  /** Node.Kind = K_a {or else Node.Kind = K_b} ) ; */
  function ParseDisjunction(ts: seq<string>): Option<seq<string>>
    decreases |ts|
  {
    if |ts| >= 3 && ts[0] == "Node.Kind" && ts[1] == "=" && IsKindLiteral(ts[2]) then
      var k, rest := ts[2][2..], ts[3..];
      if rest == [")", ";"] then Some([k])
      else if |rest| >= 2 && rest[0] == "or" && rest[1] == "else" then
        match ParseDisjunction(rest[2..])
        case None => None
        case Some(ks) => Some([k] + ks)
      else None
    else None
  }

  function ParseAssertion(text: string): Option<seq<string>> {
    var ts := Tokens(text);
    if |ts| >= 3 && ts[0] == "pragma" && ts[1] == "Assert" && ts[2] == "(" then ParseDisjunction(ts[3..]) else None
  }

  // ---------------------------------------------------------------- tokens of the printed text

  lemma {:induction false} TokensSkip(gap: string, s: string)
    requires AllBlank(gap)
    ensures Tokens(gap + s) == Tokens(s)
  {
    if gap == "" {
      assert gap + s == s;
    } else {
      assert (gap + s)[1..] == gap[1..] + s;
      TokensSkip(gap[1..], s);
    }
  }

  predicate Ends(rest: string) {
    rest == "" || !Ident(rest[0])
  }

  /** Blanks and then a name. */
  lemma NameToken(gap: string, w: string, rest: string)
    requires AllBlank(gap) && IsIdent(w) && Ends(rest)
    ensures Tokens(gap + (w + rest)) == [w] + Tokens(rest)
  {
    TokensSkip(gap, w + rest);
    var s := w + rest;
    assert forall i :: 0 <= i < |w| ==> s[i] == w[i];
    assert rest != "" ==> s[|w|] == rest[0];
    assert IdentLength(s) == |w|;
    assert s[0] == w[0] && s[..|w|] == w && s[|w|..] == rest;
  }

  /** Blanks and then a delimiter. */
  lemma DelimiterToken(gap: string, c: char, rest: string)
    requires AllBlank(gap) && !Ident(c) && !Blank(c)
    ensures Tokens(gap + ([c] + rest)) == [[c]] + Tokens(rest)
  {
    TokensSkip(gap, [c] + rest);
    var s := [c] + rest;
    assert s[..1] == [c] && s[1..] == rest;
  }

  lemma TwoNames(g1: string, w1: string, g2: string, w2: string, rest: string)
    requires AllBlank(g1) && AllBlank(g2) && g2 != "" && IsIdent(w1) && IsIdent(w2) && Ends(rest)
    ensures Tokens(g1 + (w1 + (g2 + (w2 + rest)))) == [w1, w2] + Tokens(rest)
  {
    NameToken(g2, w2, rest);
    assert Ends(g2 + (w2 + rest)) by {
      assert (g2 + (w2 + rest))[0] == g2[0];
    }
    NameToken(g1, w1, g2 + (w2 + rest));
  }

  lemma ThreeNames(g1: string, w1: string, g2: string, w2: string, g3: string, w3: string, rest: string)
    requires AllBlank(g1) && AllBlank(g2) && AllBlank(g3) && g2 != "" && g3 != ""
    requires IsIdent(w1) && IsIdent(w2) && IsIdent(w3) && Ends(rest)
    ensures Tokens(g1 + (w1 + (g2 + (w2 + (g3 + (w3 + rest)))))) == [w1, w2, w3] + Tokens(rest)
  {
    var t := g2 + (w2 + (g3 + (w3 + rest)));
    TwoNames(g2, w2, g3, w3, rest);
    assert Ends(t) by {
      assert t[0] == g2[0];
    }
    NameToken(g1, w1, t);
  }

  lemma DelimiterName(g: string, c: char, w: string, rest: string)
    requires AllBlank(g) && g != "" && !Ident(c) && !Blank(c) && IsIdent(w) && Ends(rest)
    ensures Tokens(g + ([c] + (w + rest))) == [[c], w] + Tokens(rest) && Ends(g + ([c] + (w + rest)))
  {
    assert Tokens(w + rest) == [w] + Tokens(rest) by {
      NameToken("", w, rest);
      assert "" + (w + rest) == w + rest;
    }
    DelimiterToken(g, c, w + rest);
  }

  lemma TwoNamesDelimiter(g1: string, w1: string, g2: string, w2: string, g3: string, c: char, w3: string, rest: string)
    requires AllBlank(g1) && AllBlank(g2) && AllBlank(g3) && g2 != "" && g3 != "" && !Ident(c) && !Blank(c)
    requires IsIdent(w1) && IsIdent(w2) && IsIdent(w3) && Ends(rest)
    ensures Tokens(g1 + (w1 + (g2 + (w2 + (g3 + ([c] + (w3 + rest))))))) == [w1, w2, [c], w3] + Tokens(rest)
  {
    var t := g3 + ([c] + (w3 + rest));
    DelimiterName(g3, c, w3, rest);
    TwoNames(g1, w1, g2, w2, t);
  }

  lemma OpeningText(rest: string)
    ensures "      pragma Assert (Node.Kind" + rest
         == "      " + ("pragma" + (" " + ("Assert" + (" " + (['('] + ("Node.Kind" + rest))))))
  {
    assert "      pragma Assert (Node.Kind" == "      " + "pragma" + " " + "Assert" + " " + ['('] + "Node.Kind";
  }

  lemma JoinText(rest: string)
    ensures "\n" + ("             or else Node.Kind" + rest)
         == "\n             " + ("or" + (" " + ("else" + (" " + ("Node.Kind" + rest)))))
  {
    assert "\n" + "             or else Node.Kind" == "\n             " + "or" + " " + "else" + " " + "Node.Kind";
  }

  lemma OpeningTokens(rest: string)
    requires Ends(rest)
    ensures Tokens("      pragma Assert (Node.Kind" + rest) == ["pragma", "Assert", "(", "Node.Kind"] + Tokens(rest)
  {
    OpeningText(rest);
    TwoNamesDelimiter("      ", "pragma", " ", "Assert", " ", '(', "Node.Kind", rest);
  }

  lemma JoinTokens(rest: string)
    requires Ends(rest)
    ensures Tokens("\n" + ("             or else Node.Kind" + rest)) == ["or", "else", "Node.Kind"] + Tokens(rest)
  {
    JoinText(rest);
    ThreeNames("\n             ", "or", " ", "else", " ", "Node.Kind", rest);
  }

  lemma ComparisonTokens(k: string, rest: string)
    requires IsIdent(k) && Ends(rest)
    ensures Tokens(" = K_" + (k + rest)) == ["=", "K_" + k] + Tokens(rest)
  {
    var w, g := "K_" + k, " ";
    var t2 := g + (w + rest);
    assert Tokens(t2) == [w] + Tokens(rest) by { NameToken(g, w, rest); }
    assert Tokens(g + (['='] + t2)) == [['=']] + Tokens(t2) by { DelimiterToken(g, '=', t2); }
    ComparisonText(k, rest);
  }

  lemma ComparisonText(k: string, rest: string)
    ensures " = K_" + (k + rest) == " " + (['='] + (" " + (("K_" + k) + rest)))
  {
    assert " = K_" == " " + ['='] + " " + "K_";
  }

  lemma CloseTokens()
    ensures Tokens(");" + "\n") == [")", ";"]
  {
    assert Tokens("\n") == [];
    DelimiterToken("", ';', "\n");
    assert "" + (";" + "\n") == ";" + "\n";
    DelimiterToken("", ')', ";" + "\n");
    assert "" + (")" + (";" + "\n")) == ");" + "\n";
  }

  // ---------------------------------------------------------------- the assertion, line by line

  function Lead(i: nat): string {
    if i == 0 then "      pragma Assert (Node.Kind" else "             or else Node.Kind"
  }

  /** What is printed after the first `Node.Kind`. */
  function Remainder(kinds: seq<string>): string
    requires kinds != []
  {
    " = K_" + (kinds[0] + if |kinds| == 1 then ");" + "\n" else "\n" + (Lead(1) + Remainder(kinds[1..])))
  }

  lemma Leads()
    ensures FIRST == Lead(0) + " = K_" && NEXT == Lead(1) + " = K_"
  {
  }

  lemma PrintedLine(lead: string, k: string, close: string, rest: string)
    ensures lead + " = K_" + k + close + "\n" + rest == lead + (" = K_" + (k + (close + ("\n" + rest))))
  {
  }

  /** The lines from the i-th on are the i-th lead followed by the remaining comparisons. */
  lemma {:induction false} PrintedFrom(kinds: seq<string>, ls: seq<string>, i: nat)
    requires i < |kinds| == |ls| && forall j :: 0 <= j < |kinds| ==> ls[j] == AssertLine(kinds, j)
    ensures Printed(ls[i..]) == Lead(i) + Remainder(kinds[i..])
    decreases |kinds| - i
  {
    Leads();
    var tail := ls[i + 1..];
    assert ls[i..][1..] == tail && ls[i..][0] == ls[i];
    if i == |kinds| - 1 {
      assert Printed(tail) == "";
      PrintedLine(Lead(i), kinds[i], ");", "");
      assert "\n" + "" == "\n";
    } else {
      PrintedFrom(kinds, ls, i + 1);
      assert kinds[i..][1..] == kinds[i + 1..];
      PrintedLine(Lead(i), kinds[i], "", Printed(tail));
      assert "" + ("\n" + Printed(tail)) == "\n" + Printed(tail);
    }
  }

  function RemainderTokens(kinds: seq<string>): seq<string>
    requires kinds != []
  {
    ["=", "K_" + kinds[0]] +
    if |kinds| == 1 then [")", ";"] else ["or", "else", "Node.Kind"] + RemainderTokens(kinds[1..])
  }

  lemma {:induction false} TokensOfRemainder(kinds: seq<string>)
    requires kinds != [] && forall i :: 0 <= i < |kinds| ==> IsIdent(kinds[i])
    ensures Ends(Remainder(kinds)) && Tokens(Remainder(kinds)) == RemainderTokens(kinds)
  {
    if |kinds| == 1 {
      ComparisonTokens(kinds[0], ");" + "\n");
      CloseTokens();
    } else {
      TokensOfRemainder(kinds[1..]);
      JoinTokens(Remainder(kinds[1..]));
      ComparisonTokens(kinds[0], "\n" + (Lead(1) + Remainder(kinds[1..])));
    }
  }

  lemma {:induction false} ParseRemainder(kinds: seq<string>)
    requires kinds != [] && forall i :: 0 <= i < |kinds| ==> IsIdent(kinds[i])
    ensures ParseDisjunction(["Node.Kind"] + RemainderTokens(kinds)) == Some(kinds)
  {
    var ts := ["Node.Kind"] + RemainderTokens(kinds);
    assert ts[2] == "K_" + kinds[0];
    assert ts[2][..2] == "K_" && ts[2][2..] == kinds[0];
    if |kinds| == 1 {
      assert ts[3..] == [")", ";"];
      assert kinds == [kinds[0]];
    } else {
      ParseRemainder(kinds[1..]);
      assert ts[3..] == ["or", "else"] + (["Node.Kind"] + RemainderTokens(kinds[1..]));
      assert ts[3..][2..] == ["Node.Kind"] + RemainderTokens(kinds[1..]);
      assert [kinds[0]] + kinds[1..] == kinds;
    }
  }

  lemma ParseTokens(text: string, kinds: seq<string>)
    requires kinds != [] && forall i :: 0 <= i < |kinds| ==> IsIdent(kinds[i])
    requires Tokens(text) == ["pragma", "Assert", "(", "Node.Kind"] + RemainderTokens(kinds)
    ensures ParseAssertion(text) == Some(kinds)
  {
    ParseRemainder(kinds);
    assert Tokens(text)[3..] == ["Node.Kind"] + RemainderTokens(kinds);
  }

  /** The printed assertion reads back as exactly the listed kinds, in order and
      with repetitions, for every non-empty list of identifiers. */
  lemma AssertionReadsBack(kinds: seq<string>, ls: seq<string>)
    requires kinds != [] && forall i :: 0 <= i < |kinds| ==> IsIdent(kinds[i])
    requires |ls| == |kinds| && forall i :: 0 <= i < |kinds| ==> ls[i] == AssertLine(kinds, i)
    ensures ParseAssertion(Printed(ls)) == Some(kinds)
  {
    assert Printed(ls) == Lead(0) + Remainder(kinds) by {
      PrintedFrom(kinds, ls, 0);
      assert ls[0..] == ls && kinds[0..] == kinds;
    }
    assert Tokens(Printed(ls)) == ["pragma", "Assert", "(", "Node.Kind"] + RemainderTokens(kinds) by {
      TokensOfRemainder(kinds);
      OpeningTokens(Remainder(kinds));
    }
    ParseTokens(Printed(ls), kinds);
  }
}
