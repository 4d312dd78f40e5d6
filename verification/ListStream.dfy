/** The StringArrayStream sample of the GLADE documentation: stream attributes that
    write a linked list of strings to a stream and rebuild it on the other side. */
module ListStream {
  import opened Text

  /** What the attributes of section 13.13.2 of the Ada Reference Manual put in a stream:
      Boolean'Output an enumeration value, String'Output the two bounds and then the characters. */
  datatype Item = Flag(b: bool) | Bound(n: int) | Char(c: char)

  datatype AdaStringRaw = AdaString(first: int, last: int, text: string)

  function RangeLength(first: int, last: int): nat {
    if last < first then 0 else last - first + 1
  }

  /** An Ada string: its bounds, which a null string has too, and its characters. */
  type AdaString = s: AdaStringRaw | |s.text| == RangeLength(s.first, s.last) witness AdaString(1, 0, "")

  // ---------------------------------------------------------------- encoding

  function Chars(t: string): seq<Item> {
    if t == "" then [] else [Char(t[0])] + Chars(t[1..])
  }

  function EncodeString(s: AdaString): seq<Item> {
    [Bound(s.first), Bound(s.last)] + Chars(s.text)
  }

  function Encode(l: seq<AdaString>): seq<Item> {
    if l == [] then [Flag(false)] else [Flag(true)] + EncodeString(l[0]) + Encode(l[1..])
  }

  /** The layout: a True before every string, its two bounds, its characters, and a False at the end. */
  lemma EncodedLayout(first: int, c: char, d: char)
    ensures RangeLength(first, first + 1) == 2 && RangeLength(first, first - 1) == 0
    ensures Encode([AdaString(first, first + 1, [c, d]), AdaString(first, first - 1, "")]) ==
      [Flag(true), Bound(first), Bound(first + 1), Char(c), Char(d),
       Flag(true), Bound(first), Bound(first - 1), Flag(false)]
  {
    var s, t := AdaString(first, first + 1, [c, d]), AdaString(first, first - 1, "");
    assert [c, d][1..] == [d] && [d][1..] == "";
    assert Chars([d]) == [Char(d)] + Chars("") && Chars([c, d]) == [Char(c)] + Chars([d]);
    assert [s, t][1..] == [t] && [t][1..] == [];
    assert Encode([]) == [Flag(false)] && Encode([t]) == [Flag(true)] + EncodeString(t) + Encode([]);
    assert Encode([s, t]) == [Flag(true)] + EncodeString(s) + Encode([t]);
  }

  /** `n` characters from the front; None is End_Error or Data_Error. */
  function TakeChars(items: seq<Item>, n: nat): (r: Option<(string, seq<Item>)>)
    ensures r.Some? ==> |r.value.0| == n && |r.value.1| <= |items|
    decreases n
  {
    if n == 0 then Some(("", items))
    else if items == [] || !items[0].Char? then None
    else
      match TakeChars(items[1..], n - 1)
      case None => None
      case Some((t, rest)) => Some(([items[0].c] + t, rest))
  }

  function DecodeString(items: seq<Item>): (r: Option<(AdaString, seq<Item>)>)
    ensures r.Some? ==> |r.value.1| < |items|
  {
    if |items| < 2 || !items[0].Bound? || !items[1].Bound? then None
    else
      match TakeChars(items[2..], RangeLength(items[0].n, items[1].n))
      case None => None
      case Some((t, rest)) => Some((AdaString(items[0].n, items[1].n, t), rest))
  }

  function Decode(items: seq<Item>): Option<(seq<AdaString>, seq<Item>)>
    decreases |items|
  {
    if items == [] || !items[0].Flag? then None
    else if !items[0].b then Some(([], items[1..]))
    else
      match DecodeString(items[1..])
      case None => None
      case Some((str, rest)) =>
        match Decode(rest)
        case None => None
        case Some((l, rest')) => Some(([str] + l, rest'))
  }

  lemma {:induction false} TakeEncoded(t: string, rest: seq<Item>)
    ensures TakeChars(Chars(t) + rest, |t|) == Some((t, rest))
  {
    if t == "" {
      assert Chars(t) + rest == rest;
    } else {
      var items := Chars(t) + rest;
      assert items[0] == Char(t[0]) && items[1..] == Chars(t[1..]) + rest;
      TakeEncoded(t[1..], rest);
      assert t == [t[0]] + t[1..];
    }
  }

  lemma {:induction false} TakenIsEncoded(items: seq<Item>, n: nat)
    requires TakeChars(items, n).Some?
    ensures items == Chars(TakeChars(items, n).value.0) + TakeChars(items, n).value.1
    decreases n
  {
    if n > 0 {
      TakenIsEncoded(items[1..], n - 1);
      var (t, rest) := TakeChars(items[1..], n - 1).value;
      var u := [items[0].c] + t;
      assert u[1..] == t && Chars(u) == [items[0]] + Chars(t);
      assert items == [items[0]] + items[1..];
    }
  }

  lemma DecodeEncodedString(s: AdaString, rest: seq<Item>)
    ensures DecodeString(EncodeString(s) + rest) == Some((s, rest))
  {
    TakeEncoded(s.text, rest);
    var items := EncodeString(s) + rest;
    assert items[2..] == Chars(s.text) + rest;
  }

  lemma DecodedStringIsEncoded(items: seq<Item>)
    requires DecodeString(items).Some?
    ensures items == EncodeString(DecodeString(items).value.0) + DecodeString(items).value.1
  {
    var n := RangeLength(items[0].n, items[1].n);
    var (t, rest) := TakeChars(items[2..], n).value;
    assert items[2..] == Chars(t) + rest by {
      TakenIsEncoded(items[2..], n);
    }
    assert items == [items[0], items[1]] + (Chars(t) + rest);
  }

  /** Decoding inverts encoding, whatever follows in the stream. */
  lemma {:induction false} DecodeEncoded(l: seq<AdaString>, rest: seq<Item>)
    ensures Decode(Encode(l) + rest) == Some((l, rest))
  {
    var items := Encode(l) + rest;
    if l == [] {
      assert items[0] == Flag(false) && items[1..] == rest;
    } else {
      var tail := Encode(l[1..]) + rest;
      assert items[0] == Flag(true) && items[1..] == EncodeString(l[0]) + tail;
      DecodeEncodedString(l[0], tail);
      DecodeEncoded(l[1..], rest);
      assert l == [l[0]] + l[1..];
    }
  }

  lemma JoinDecoded(items: seq<Item>, str: AdaString, rest: seq<Item>, l: seq<AdaString>, rest': seq<Item>)
    requires items == [Flag(true)] + (EncodeString(str) + rest) && rest == Encode(l) + rest'
    ensures items == Encode([str] + l) + rest'
  {
    var m := [str] + l;
    assert m[0] == str && m[1..] == l;
    assert Encode(m) == [Flag(true)] + EncodeString(str) + Encode(l);
  }

  /** Whatever decodes is an encoding. */
  lemma {:induction false} DecodedIsEncoded(items: seq<Item>)
    requires Decode(items).Some?
    ensures items == Encode(Decode(items).value.0) + Decode(items).value.1
    decreases |items|
  {
    assert items == [items[0]] + items[1..];
    if items[0].b {
      var (str, rest) := DecodeString(items[1..]).value;
      assert items[1..] == EncodeString(str) + rest by {
        DecodedStringIsEncoded(items[1..]);
      }
      var (l, rest') := Decode(rest).value;
      assert rest == Encode(l) + rest' by {
        DecodedIsEncoded(rest);
      }
      JoinDecoded(items, str, rest, l, rest');
    }
  }

  /** The encoding is prefix-free: where one list ends, whatever follows, no other list ends. */
  lemma EncodingPrefixFree(l: seq<AdaString>, m: seq<AdaString>, a: seq<Item>, b: seq<Item>)
    requires Encode(l) + a == Encode(m) + b
    ensures l == m && a == b
  {
    DecodeEncoded(l, a);
    DecodeEncoded(m, b);
  }

  // ---------------------------------------------------------------- the linked list

  class Cell {
    var content: AdaString
    var next: Cell?

    constructor (content: AdaString)
      ensures this.content == content && next == null
    {
      this.content, next := content, null;
    }
  }

  /** A stream: Output appends, Input consumes from the front. */
  class Stream {
    var items: seq<Item>

    constructor ()
      ensures items == []
    {
      items := [];
    }
  }

  /** `l` is a linked list made of `cells`, in order, whose contents are `list`. */
  ghost predicate Holds(l: Cell?, cells: seq<Cell>, list: seq<AdaString>)
    reads cells
  {
    && |cells| == |list|
    && l == Head(cells, 0)
    && forall i :: 0 <= i < |cells| ==> Linked(cells, i, list[i])
  }

  ghost function Head(cells: seq<Cell>, i: nat): Cell? {
    if i < |cells| then cells[i] else null
  }

  ghost predicate Linked(cells: seq<Cell>, i: nat, content: AdaString)
    requires i < |cells|
    reads cells[i]
  {
    cells[i].content == content && cells[i].next == Head(cells, i + 1)
  }

  lemma HoldsTail(l: Cell, cells: seq<Cell>, list: seq<AdaString>)
    requires Holds(l, cells, list)
    ensures list != [] && l.content == list[0] && Holds(l.next, cells[1..], list[1..])
  {
    assert Linked(cells, 0, list[0]);
    forall i | 0 <= i < |cells| - 1 ensures Linked(cells[1..], i, list[1..][i]) {
      assert Linked(cells, i + 1, list[i + 1]);
    }
  }

  lemma HoldsCons(l: Cell, tail: Cell?, more: seq<Cell>, list: seq<AdaString>)
    requires Holds(tail, more, list) && l.next == tail
    ensures Holds(l, [l] + more, [l.content] + list)
  {
    var cells := [l] + more;
    forall i | 0 <= i < |cells| ensures Linked(cells, i, ([l.content] + list)[i]) {
      if i > 0 {
        assert Linked(more, i - 1, list[i - 1]);
      }
    }
  }

  method Write(s: Stream, l: Cell?, ghost cells: seq<Cell>, ghost list: seq<AdaString>)
    requires Holds(l, cells, list)
    modifies s
    ensures s.items == old(s.items) + Encode(list)
    decreases |cells|
  {
    if l == null {
      s.items := s.items + [Flag(false)];
    } else {
      HoldsTail(l, cells, list);
      s.items := s.items + [Flag(true)];
      s.items := s.items + EncodeString(l.content);
      Write(s, l.next, cells[1..], list[1..]);
      Regroup(old(s.items), [Flag(true)], EncodeString(list[0]), Encode(list[1..]));
    }
  }

  lemma Regroup(a: seq<Item>, b: seq<Item>, c: seq<Item>, d: seq<Item>)
    ensures ((a + b) + c) + d == a + ((b + c) + d)
  {
  }

  /** Consumes exactly one encoded list and rebuilds it in new cells; fails exactly when
      the stream does not begin with the encoding of a list. */
  method Read(s: Stream) returns (ok: bool, l: Cell?, ghost cells: seq<Cell>, ghost list: seq<AdaString>)
    modifies s
    ensures ok <==> Decode(old(s.items)).Some?
    ensures ok ==> Decode(old(s.items)) == Some((list, s.items))
    ensures ok ==> Holds(l, cells, list) && forall c :: c in cells ==> fresh(c)
    decreases |s.items|
  {
    cells, list := [], [];
    var items := s.items;
    if items == [] || !items[0].Flag? {
      return false, null, [], [];
    }
    s.items := items[1..];
    if !items[0].b {
      return true, null, [], [];
    }
    var str := DecodeString(s.items);
    if str.None? {
      return false, null, [], [];
    }
    l := new Cell(str.value.0);
    s.items := str.value.1;
    var tail;
    ghost var more, rest;
    ok, tail, more, rest := Read(s);
    if ok {
      assert Holds(tail, more, rest) && l !in more;
      l.next := tail;
      assert Holds(tail, more, rest);
      HoldsCons(l, tail, more, rest);
      cells, list := [l] + more, [str.value.0] + rest;
    }
  }

  /** Read after Write, on an empty stream with anything put behind the list,
      rebuilds an equal list in new cells and leaves exactly what followed. */
  method RoundTrip(s: Stream, l: Cell?, ghost cells: seq<Cell>, ghost list: seq<AdaString>, behind: seq<Item>)
    returns (copy: Cell?, ghost copied: seq<Cell>)
    requires s.items == [] && Holds(l, cells, list)
    modifies s
    ensures Holds(copy, copied, list) && (forall c :: c in copied ==> fresh(c))
    ensures s.items == behind
  {
    Write(s, l, cells, list);
    assert s.items == Encode(list);
    s.items := s.items + behind;
    DecodeEncoded(list, behind);
    var ok;
    ghost var again;
    ok, copy, copied, again := Read(s);
  }
}
