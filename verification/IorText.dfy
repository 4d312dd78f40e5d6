/** An object reference on its way from server to client as text: the hexadecimal
    form PolyORB prints, and the pattern the test driver extracts it with. */
module IorText {
  import opened Text

  type Octet = n: nat | n < 256

  const PREFIX := "IOR:"

  // ---------------------------------------------------------------- hexadecimal

  function HexDigit(n: nat): (c: char)
    requires n < 16
    ensures LowerAlnum(c) && HexValue(c) == Some(n)
  {
    "0123456789abcdef"[n]
  }

  function HexValue(c: char): Option<nat> {
    if '0' <= c <= '9' then Some(c as nat - '0' as nat)
    else if 'a' <= c <= 'f' then Some(c as nat - 'a' as nat + 10)
    else if 'A' <= c <= 'F' then Some(c as nat - 'A' as nat + 10)
    else None
  }

  predicate LowerAlnum(c: char) {
    'a' <= c <= 'z' || '0' <= c <= '9'
  }

  function ToHex(a: seq<Octet>): string {
    if a == [] then "" else [HexDigit(a[0] / 16), HexDigit(a[0] % 16)] + ToHex(a[1..])
  }

  /** An odd last digit is ignored; a character that is no digit raises an exception (None). */
  function FromHex(s: string): Option<seq<Octet>> {
    if |s| < 2 then Some([])
    else
      match (HexValue(s[0]), HexValue(s[1]), FromHex(s[2..]))
      case (Some(h), Some(l), Some(rest)) =>
        if h < 16 && l < 16 then Some([h * 16 + l] + rest) else None
      case _ => None
  }

  /** SEA_To_Hex_String: the two digits of each element at their place in the result. */
  method SeaToHex(a: seq<Octet>) returns (s: string)
    ensures s == ToHex(a)
  {
    var buf := new char[2 * |a|];
    var j := 0;
    while j < |a|
      invariant 0 <= j <= |a|
      invariant forall k :: 0 <= k < j ==> buf[2 * k] == HexDigit(a[k] / 16) && buf[2 * k + 1] == HexDigit(a[k] % 16)
    {
      buf[2 * j] := HexDigit(a[j] / 16);
      buf[2 * j + 1] := HexDigit(a[j] % 16);
      j := j + 1;
    }
    HexPlaces(a, buf[..]);
    return buf[..];
  }

  lemma {:induction false} HexPlaces(a: seq<Octet>, s: string)
    requires |s| == 2 * |a|
    requires forall k :: 0 <= k < |a| ==> s[2 * k] == HexDigit(a[k] / 16) && s[2 * k + 1] == HexDigit(a[k] % 16)
    ensures s == ToHex(a)
  {
    if a != [] {
      assert s == [s[0], s[1]] + s[2..];
      forall k | 0 <= k < |a| - 1
        ensures s[2..][2 * k] == HexDigit(a[1..][k] / 16) && s[2..][2 * k + 1] == HexDigit(a[1..][k] % 16)
      {
        assert s[2..][2 * k] == s[2 * (k + 1)] && s[2..][2 * k + 1] == s[2 * (k + 1) + 1];
      }
      HexPlaces(a[1..], s[2..]);
      assert s[2 * 0] == HexDigit(a[0] / 16) && s[2 * 0 + 1] == HexDigit(a[0] % 16);
    }
  }

  lemma {:induction false} HexRoundTrip(a: seq<Octet>)
    ensures FromHex(ToHex(a)) == Some(a)
  {
    if a != [] {
      HexRoundTrip(a[1..]);
      FromHexPair(HexDigit(a[0] / 16), HexDigit(a[0] % 16), ToHex(a[1..]), a[0] / 16, a[0] % 16);
      assert a[0] / 16 * 16 + a[0] % 16 == a[0];
      assert a == [a[0]] + a[1..];
    }
  }

  lemma FromHexPair(c: char, d: char, rest: string, h: nat, l: nat)
    requires HexValue(c) == Some(h) && HexValue(d) == Some(l) && h < 16 && l < 16 && FromHex(rest).Some?
    ensures FromHex([c, d] + rest) == Some([h * 16 + l] + FromHex(rest).value)
  {
    assert ([c, d] + rest)[2..] == rest;
  }

  lemma {:induction false} HexShape(a: seq<Octet>)
    ensures |ToHex(a)| == 2 * |a| && forall i :: 0 <= i < |ToHex(a)| ==> LowerAlnum(ToHex(a)[i])
  {
    if a != [] {
      HexShape(a[1..]);
    }
  }

  /** Object_To_String and String_To_Object, on the encapsulated octets. */
  function Stringify(a: seq<Octet>): string {
    PREFIX + ToHex(a)
  }

  function Destringify(s: string): Option<seq<Octet>> {
    if |s| >= 4 && s[..4] == PREFIX then FromHex(s[4..]) else None
  }

  lemma StringifyRoundTrip(a: seq<Octet>)
    ensures Destringify(Stringify(a)) == Some(a)
  {
    HexRoundTrip(a);
    assert Stringify(a)[..4] == PREFIX && Stringify(a)[4..] == ToHex(a);
  }

  // ---------------------------------------------------------------- the pattern

  function RunLength(s: string): (n: nat)
    ensures n <= |s|
    ensures forall i :: 0 <= i < n ==> LowerAlnum(s[i])
    ensures n < |s| ==> !LowerAlnum(s[n])
  {
    if s == "" || !LowerAlnum(s[0]) then 0 else 1 + RunLength(s[1..])
  }

  predicate Terminator(c: char) {
    c == '\'' || c == '|' || c == '\n' || c == '\r'
  }

  /** The bracketed group and the terminator match at position `i`, and `.*` can reach it. */
  predicate GroupAt(l: string, i: int) {
    && OccursAt(PREFIX, l, i) && '\n' !in l[..i]
    && var n := RunLength(l[i + 4..]);
    && n > 0 && i + 4 + n < |l| && Terminator(l[i + 4 + n])
  }

  function GroupText(l: string, i: int): string
    requires GroupAt(l, i)
  {
    l[i..i + 4 + RunLength(l[i + 4..])]
  }

  /** The greedy `.*` makes it the last position below `n`, or -1. */
  function LastGroup(l: string, n: nat): int {
    if n == 0 then -1
    else if GroupAt(l, n - 1) then n - 1
    else LastGroup(l, n - 1)
  }

  lemma {:induction false} LastGroupIsLast(l: string, n: nat)
    ensures var r := LastGroup(l, n);
      -1 <= r < n && (r >= 0 ==> GroupAt(l, r)) && forall k :: r < k < n ==> !GroupAt(l, k)
  {
    if n > 0 && !GroupAt(l, n - 1) {
      LastGroupIsLast(l, n - 1);
    }
  }

  /** `re.match (".*(IOR:[a-z0-9]+)['|\n\r]")` and its group. */
  function ExtractIor(l: string): Option<string> {
    var r := LastGroup(l, |l|);
    LastGroupIsLast(l, |l|);
    if r < 0 then None else Some(GroupText(l, r))
  }

  /** A printed reference and its terminator match where they stand. */
  lemma GroupPrinted(l: string, before: string, h: string, c: char, after: string)
    requires l == before + (PREFIX + (h + ([c] + after)))
    requires '\n' !in before && h != "" && (forall i :: 0 <= i < |h| ==> LowerAlnum(h[i])) && Terminator(c)
    ensures GroupAt(l, |before|) && GroupText(l, |before|) == PREFIX + h
  {
    var b, rest := |before|, h + ([c] + after);
    Slices(l, before, PREFIX, rest);
    RunLengthOf(h, [c] + after);
    assert rest[|h|] == c;
    assert l[b + 4 + |h|] == l[b + 4..][|h|];
    assert l[b..b + 4 + |h|] == l[b..b + 4] + l[b + 4..][..|h|];
    assert rest[..|h|] == h;
  }

  lemma {:induction false} RunLengthOf(h: string, rest: string)
    requires (forall i :: 0 <= i < |h| ==> LowerAlnum(h[i])) && (rest == "" || !LowerAlnum(rest[0]))
    ensures RunLength(h + rest) == |h|
  {
    if h == "" {
      assert h + rest == rest;
    } else {
      assert (h + rest)[1..] == h[1..] + rest;
      RunLengthOf(h[1..], rest);
    }
  }

  lemma Slices(l: string, a: string, b: string, c: string)
    requires l == a + (b + c)
    ensures |l| == |a| + |b| + |c|
    ensures l[..|a|] == a && l[|a|..|a| + |b|] == b && l[|a| + |b|..] == c
  {
  }

  /** The reference contains no second prefix. */
  lemma NoGroupInside(l: string, before: string, h: string, c: char, after: string, k: int)
    requires l == before + (PREFIX + (h + ([c] + after)))
    requires (forall i :: 0 <= i < |h| ==> LowerAlnum(h[i])) && Terminator(c)
    requires |before| < k <= |before| + 4 + |h|
    ensures !GroupAt(l, k)
  {
    var b := |before|;
    assert forall i :: 0 <= i < 4 ==> l[b + i] == PREFIX[i];
    assert forall i :: 0 <= i < |h| ==> l[b + 4 + i] == h[i];
    assert l[b + 4 + |h|] == c;
    assert l[k] != 'I' by {
      if k < b + 4 {
        assert l[b + (k - b)] == PREFIX[k - b];
      } else if k < b + 4 + |h| {
        assert l[b + 4 + (k - b - 4)] == h[k - b - 4];
      }
    }
    PrefixStartsWithI(l, k);
  }

  lemma PrefixStartsWithI(l: string, k: int)
    ensures OccursAt(PREFIX, l, k) ==> l[k] == 'I'
  {
    if OccursAt(PREFIX, l, k) {
      assert l[k..k + 4][0] == l[k];
    }
  }

  /** Whatever precedes the reference on its line, references included, the printed
      one is recovered, provided nothing after its terminator matches as well. */
  lemma ExtractInverts(l: string, before: string, h: string, c: char, after: string)
    requires l == before + (PREFIX + (h + ([c] + after)))
    requires '\n' !in before && h != "" && (forall i :: 0 <= i < |h| ==> LowerAlnum(h[i])) && Terminator(c)
    requires forall i :: |before| + 4 + |h| < i < |l| ==> !GroupAt(l, i)
    ensures ExtractIor(l) == Some(PREFIX + h)
  {
    GroupPrinted(l, before, h, c, after);
    forall k | |before| < k < |l| ensures !GroupAt(l, k) {
      if k <= |before| + 4 + |h| {
        NoGroupInside(l, before, h, c, after, k);
      }
    }
    LastGroupIsLast(l, |l|);
  }

  /** The line a server prints: the stringified reference between quotes. */
  function ServerLine(a: seq<Octet>): string {
    "'" + Stringify(a) + "'" + "\n"
  }

  /** The text of that line, for any digits. */
  function Quoted(h: string): string {
    "'" + (PREFIX + (h + (['\''] + "\n")))
  }

  lemma QuotedIsLine(h: string)
    requires forall i :: 0 <= i < |h| ==> LowerAlnum(h[i])
    ensures IsLine(Quoted(h)) && Occurs(PREFIX, Quoted(h)) && |Quoted(h)| == 7 + |h|
  {
    var l := Quoted(h);
    Slices(l, "'", PREFIX, h + (['\''] + "\n"));
    assert OccursAt(PREFIX, l, 1);
    assert forall k :: 0 <= k < |h| ==> l[5 + k] == h[k];
    assert l[0] == '\'' && l[5 + |h|] == '\'' && l[6 + |h|] == '\n';
    forall k | 0 <= k < |l| - 1 ensures l[k] != '\n' {
      assert 1 <= k < 5 ==> l[k] == PREFIX[k - 1];
      assert 5 <= k < 5 + |h| ==> l[k] == h[k - 5];
    }
  }

  lemma QuotedExtracts(h: string)
    requires h != "" && forall i :: 0 <= i < |h| ==> LowerAlnum(h[i])
    ensures ExtractIor(Quoted(h)) == Some(PREFIX + h)
  {
    var l := Quoted(h);
    forall i | 1 + 4 + |h| < i < |l| ensures !GroupAt(l, i) {
      assert i == |l| - 1;
    }
    ExtractInverts(l, "'", h, '\'', "\n");
  }

  /** Extracting from the printed line and decoding gives back the octets. */
  lemma PrintedReferenceReturns(a: seq<Octet>)
    requires a != []
    ensures IsLine(ServerLine(a)) && Occurs(PREFIX, ServerLine(a))
    ensures ExtractIor(ServerLine(a)) == Some(Stringify(a)) && Destringify(Stringify(a)) == Some(a)
  {
    HexShape(a);
    StringifyRoundTrip(a);
    assert ServerLine(a) == Quoted(ToHex(a));
    QuotedIsLine(ToHex(a));
    QuotedExtracts(ToHex(a));
  }

  // ---------------------------------------------------------------- the characters

  /** Behind the digits exactly a quote, a bar, a newline or a carriage return ends the match. */
  lemma TerminatorsAre(h: string, c: char)
    requires h != "" && (forall i :: 0 <= i < |h| ==> LowerAlnum(h[i])) && !LowerAlnum(c)
    ensures ExtractIor("IOR:" + (h + [c])) ==
      if c == '\'' || c == '|' || c == '\n' || c == '\r' then Some("IOR:" + h) else None
  {
    var l := "IOR:" + (h + [c]);
    LastGroupIsLast(l, |l|);
    RunLengthOf(h, [c]);
    assert l[4..] == h + [c] && l[4 + |h|] == c && l[..4 + |h|] == "IOR:" + h && l[..0] == "";
    assert l[0..4] == PREFIX && OccursAt(PREFIX, l, 0);
    assert l[0 + 4..] == h + [c] && '\n' !in l[..0];
    assert GroupAt(l, 0) <==> Terminator(c);
    forall k | 0 < k < |l| ensures !GroupAt(l, k) {
      NoSecondPrefix(h, c, k);
    }
  }

  lemma NoSecondPrefix(h: string, c: char, k: nat)
    requires (forall i :: 0 <= i < |h| ==> LowerAlnum(h[i])) && k > 0
    ensures !OccursAt(PREFIX, PREFIX + (h + [c]), k)
  {
    var l := PREFIX + (h + [c]);
    assert k < 4 ==> l[k] == PREFIX[k];
    assert 4 <= k < 4 + |h| ==> l[k] == h[k - 4];
    PrefixStartsWithI(l, k);
  }

  /** The sixteen digits decode to their values in either case. */
  lemma DigitsAre(n: nat)
    requires n < 16
    ensures HexValue("0123456789abcdef"[n]) == Some(n) && HexValue("0123456789ABCDEF"[n]) == Some(n)
  {
  }

  /** No other character decodes. */
  lemma OnlyDigits(c: char)
    requires HexValue(c).Some?
    ensures var n := HexValue(c).value; n < 16 && (c == "0123456789abcdef"[n] || c == "0123456789ABCDEF"[n])
  {
  }

  /** A last digit without a partner is ignored, whatever it is. */
  lemma {:induction false} OddDigitIgnored(s: string, c: char)
    requires |s| % 2 == 0
    ensures FromHex(s + [c]) == FromHex(s)
  {
    if s != "" {
      var t := s + [c];
      assert t[0] == s[0] && t[1] == s[1] && t[2..] == s[2..] + [c];
      OddDigitIgnored(s[2..], c);
    }
  }
}
