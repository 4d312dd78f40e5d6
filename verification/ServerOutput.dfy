/** The loop of `client_server` that waits for the server's reference: `readline`
    on a file that is still being written returns whatever part of a line is there. */
module ServerOutput {
  import opened Text
  import opened IorText

  /** One turn of the inner loop: the result of `poll ()`, and how much of the
      server's output has reached the file by the time of `readline ()`. */
  datatype Turn = Turn(alive: bool, avail: nat)

  datatype Outcome = Found(ior: string) | Malformed | Died | Waiting

  /** `readline ()` on the first `avail` characters of the output, from `pos`. */
  function ReadLine(out: string, avail: nat, pos: nat): (s: string)
    requires pos <= |out|
    ensures pos + |s| <= |out| && out[pos..pos + |s|] == s
  {
    if avail <= pos then ""
    else
      var there := out[pos..if avail <= |out| then avail else |out|];
      there[..LineLength(there)]
  }

  /** It is the rest of the first line there is, up to and with its newline, as far as it
      has reached the file. */
  lemma ReadLineExact(out: string, avail: nat, pos: nat)
    requires pos <= |out|
    ensures var s := ReadLine(out, avail, pos); var there := if avail <= |out| then avail else |out|;
      && (there <= pos ==> s == "")
      && (there > pos ==> s != "" && pos + |s| <= there && (pos + |s| == there || s[|s| - 1] == '\n'))
      && (forall k :: 0 <= k < |s| - 1 ==> s[k] != '\n')
  {
    var s := ReadLine(out, avail, pos);
    assert forall k :: 0 <= k < |s| ==> s[k] == out[pos + k];
  }

  predicate Ended(line: string) {
    line != "" && (line[|line| - 1] == '\n' || line[|line| - 1] == '\r')
  }

  /** The reader has consumed the closed lines `before`, none with a reference, and the part `line` of the next. */
  ghost predicate Consumed(out: string, pos: nat, before: seq<string>, line: string) {
    && pos <= |out| && out[..pos] == Concat(before) + line
    && (forall i :: 0 <= i < |before| ==> IsLine(before[i]) && !Occurs(PREFIX, before[i]))
  }

  /** The first line of the output containing the prefix is complete, and it is `l`. */
  ghost predicate FirstReference(out: string, l: string) {
    exists n :: 0 <= n < |Lines(out)| && Lines(out)[n] == l && IsLine(l) && Occurs(PREFIX, l)
      && forall k :: 0 <= k < n ==> !Occurs(PREFIX, Lines(out)[k])
  }

  lemma LinesSplit(out: string, pos: nat, before: seq<string>, line: string)
    requires Consumed(out, pos, before, line) && IsLine(line)
    ensures Lines(out) == before + ([line] + Lines(out[pos..]))
  {
    var rest := out[pos..];
    assert out == Concat(before) + (line + rest) by {
      assert out == out[..pos] + rest;
    }
    assert Lines(line + rest) == [line] + Lines(rest) by {
      LinesOfLine(line, rest);
    }
    LinesOfConcat(before, line + rest);
  }

  lemma LineFound(out: string, pos: nat, before: seq<string>, line: string)
    requires Consumed(out, pos, before, line) && IsLine(line) && Occurs(PREFIX, line)
    ensures FirstReference(out, line)
  {
    LinesSplit(out, pos, before, line);
    assert Lines(out)[|before|] == line;
    forall k | 0 <= k < |before| ensures !Occurs(PREFIX, Lines(out)[k]) {
      assert Lines(out)[k] == before[k];
    }
  }

  lemma LinePassed(out: string, pos: nat, before: seq<string>, line: string)
    requires Consumed(out, pos, before, line) && IsLine(line) && !Occurs(PREFIX, line)
    ensures Consumed(out, pos, before + [line], "")
  {
    ConcatAppend(before, line);
    assert Concat(before + [line]) + "" == Concat(before + [line]);
  }

  lemma {:induction false} ConcatAppend(ls: seq<string>, l: string)
    ensures Concat(ls + [l]) == Concat(ls) + l
  {
    if ls == [] {
      assert ls + [l] == [l] && [l][1..] == [] && Concat([l]) == l + "";
    } else {
      ConcatAppend(ls[1..], l);
      assert (ls + [l])[1..] == ls[1..] + [l];
    }
  }

  lemma ReadLineShape(out: string, avail: nat, pos: nat)
    requires pos <= |out| && '\r' !in out
    ensures var s := ReadLine(out, avail, pos);
      && '\r' !in s && (forall k :: 0 <= k < |s| - 1 ==> s[k] != '\n')
      && (avail >= |out| && (s == "" || s[|s| - 1] != '\n') ==> pos + |s| == |out|)
  {
    var s := ReadLine(out, avail, pos);
    assert forall k :: 0 <= k < |s| ==> s[k] == out[pos + k];
  }

  lemma JoinShape(line: string, s: string)
    requires '\n' !in line && '\r' !in line && '\r' !in s && (forall k :: 0 <= k < |s| - 1 ==> s[k] != '\n')
    ensures Ended(line + s) <==> s != "" && s[|s| - 1] == '\n'
    ensures Ended(line + s) ==> IsLine(line + s)
    ensures !Ended(line + s) ==> '\n' !in line + s && '\r' !in line + s
  {
    var j := line + s;
    assert forall k :: 0 <= k < |line| ==> j[k] == line[k];
    assert forall k :: 0 <= k < |s| ==> j[|line| + k] == s[k];
    if s == "" {
      assert j == line;
    } else {
      assert j[|j| - 1] == s[|s| - 1];
    }
  }

  lemma ConsumedMore(out: string, pos: nat, before: seq<string>, line: string, avail: nat)
    requires Consumed(out, pos, before, line) && '\r' !in out && '\n' !in line && '\r' !in line
    ensures var s := ReadLine(out, avail, pos);
      && Consumed(out, pos + |s|, before, line + s)
      && (Ended(line + s) ==> IsLine(line + s))
      && (!Ended(line + s) ==> '\n' !in line + s && '\r' !in line + s)
      && (avail >= |out| && !Ended(line + s) ==> pos + |s| == |out|)
  {
    var s := ReadLine(out, avail, pos);
    assert out[..pos + |s|] == Concat(before) + (line + s) by {
      assert out[..pos + |s|] == out[..pos] + s;
    }
    ReadLineShape(out, avail, pos);
    JoinShape(line, s);
  }

  // ---------------------------------------------------------------- the loop

  function Newlines(s: string): nat {
    if s == "" then 0 else Newlines(s[..|s| - 1]) + if s[|s| - 1] == '\n' then 1 else 0
  }

  /** Turns among the first `k` at which the whole output had reached the file. */
  function FullTurns(out: string, turns: seq<Turn>, k: nat): nat
    requires k <= |turns|
  {
    if k == 0 then 0 else FullTurns(out, turns, k - 1) + if turns[k - 1].avail >= |out| then 1 else 0
  }

  // ---------------------------------------------------------------- what the schedule decides

  /** How far the file has been read before the first turn and after each. */
  function Positions(out: string, turns: seq<Turn>): (ps: seq<nat>)
    ensures |ps| == |turns| + 1 && forall i :: 0 <= i < |ps| ==> ps[i] <= |out|
  {
    if turns == [] then [0]
    else
      var ps := Positions(out, turns[..|turns| - 1]);
      var pos := ps[|ps| - 1];
      ps + [pos + |ReadLine(out, turns[|turns| - 1].avail, pos)|]
  }

  function Position(out: string, turns: seq<Turn>, k: nat): (pos: nat)
    requires k <= |turns|
    ensures pos <= |out|
  {
    Positions(out, turns)[k]
  }

  /** Each turn reads on from where the one before stopped. */
  lemma {:induction false} PositionNext(out: string, turns: seq<Turn>, k: nat)
    requires k < |turns|
    ensures var pos := Position(out, turns, k);
      Position(out, turns, k + 1) == pos + |ReadLine(out, turns[k].avail, pos)|
  {
    var init := turns[..|turns| - 1];
    PositionKept(out, turns, k);
    if k < |init| {
      PositionNext(out, init, k);
      PositionKept(out, turns, k + 1);
      assert turns[k] == init[k];
    }
  }

  lemma PositionKept(out: string, turns: seq<Turn>, k: nat)
    requires k < |turns|
    ensures Position(out, turns, k) == Position(out, turns[..|turns| - 1], k)
  {
    var ps := Positions(out, turns[..|turns| - 1]);
    assert Positions(out, turns)[..|ps|] == ps;
  }

  lemma {:induction false} PositionFirst(out: string, turns: seq<Turn>)
    ensures Position(out, turns, 0) == 0
  {
    if turns != [] {
      PositionFirst(out, turns[..|turns| - 1]);
    }
  }

  function TextAfter(out: string, turns: seq<Turn>, k: nat): string
    requires k <= |turns|
  {
    out[..Position(out, turns, k)]
  }

  function LastLine(text: string): string {
    var ls := Lines(text);
    if ls == [] then "" else ls[|ls| - 1]
  }

  /** At the k-th turn the server was found dead, or by then the first line with the
      prefix has been read completely. */
  ghost predicate Settled(out: string, turns: seq<Turn>, k: nat)
    requires k <= |turns|
  {
    k > 0 && (!turns[k - 1].alive || exists l :: FirstReference(TextAfter(out, turns, k), l))
  }

  /** Nothing is settled before turn `n`. */
  ghost predicate Quiet(out: string, turns: seq<Turn>, n: nat)
    requires n <= |turns| + 1
  {
    n == 0 || (Quiet(out, turns, n - 1) && !Settled(out, turns, n - 1))
  }

  /** The first turn at which anything is settled, or the end of the schedule. */
  ghost predicate StopsAt(out: string, turns: seq<Turn>, k: nat) {
    k <= |turns| && Quiet(out, turns, k) && (k == |turns| || Settled(out, turns, k))
  }

  /** The last line read has the prefix but does not match the pattern. */
  ghost predicate BadLine(text: string) {
    Occurs(PREFIX, LastLine(text)) && ExtractIor(LastLine(text)).None?
  }

  // ---------------------------------------------------------------- what has been read

  lemma LinesRead(out: string, pos: nat, before: seq<string>, line: string)
    requires Consumed(out, pos, before, line) && (IsLine(line) || '\n' !in line)
    ensures Lines(out[..pos]) == before + if line == "" then [] else [line]
  {
    LinesOfConcat(before, line);
    if IsLine(line) {
      LinesOfLine(line, "");
      assert line + "" == line;
    } else {
      LinesOfPart(line);
    }
  }

  lemma NoPrefixInNothing()
    ensures !Occurs(PREFIX, "")
  {
  }

  /** While no complete line with the prefix has been read, the text read has no first reference. */
  lemma NotYetRead(out: string, pos: nat, before: seq<string>, line: string)
    requires Consumed(out, pos, before, line) && (IsLine(line) || '\n' !in line)
    requires IsLine(line) ==> !Occurs(PREFIX, line)
    ensures !exists l :: FirstReference(out[..pos], l)
  {
    LinesRead(out, pos, before, line);
    var ls := Lines(out[..pos]);
    forall n | 0 <= n < |ls| ensures !(IsLine(ls[n]) && Occurs(PREFIX, ls[n])) {
      assert ls[n] == if n < |before| then before[n] else line;
    }
  }

  lemma JustRead(out: string, pos: nat, before: seq<string>, line: string)
    requires Consumed(out, pos, before, line) && IsLine(line) && Occurs(PREFIX, line)
    ensures FirstReference(out[..pos], line)
  {
    LinesRead(out, pos, before, line);
    var ls := Lines(out[..pos]);
    assert ls[|before|] == line;
    forall k | 0 <= k < |before| ensures !Occurs(PREFIX, ls[k]) {
      assert ls[k] == before[k];
    }
  }

  lemma LastIsHeld(out: string, pos: nat, before: seq<string>, line: string)
    requires Consumed(out, pos, before, line) && (IsLine(line) || '\n' !in line)
    ensures Occurs(PREFIX, LastLine(out[..pos])) <==> Occurs(PREFIX, line)
    ensures Occurs(PREFIX, line) ==> LastLine(out[..pos]) == line
  {
    LinesRead(out, pos, before, line);
    NoPrefixInNothing();
  }

  // ---------------------------------------------------------------- the loops

  /** A part of a line is held, and while output is missing no more than `full` turns
      have seen all of it. */
  ghost predicate Partial(out: string, turns: seq<Turn>, k: nat, pos: nat, before: seq<string>, line: string, full: nat)
    requires k <= |turns|
  {
    && pos == Position(out, turns, k) && Consumed(out, pos, before, line) && '\n' !in line && '\r' !in line
    && (FullTurns(out, turns, k) <= full || pos == |out|)
  }

  /** A line or a part of one. */
  ghost predicate Assembled(out: string, turns: seq<Turn>, k: nat, pos: nat, before: seq<string>, line: string, full: nat)
    requires k <= |turns|
  {
    if Ended(line)
    then
      && pos == Position(out, turns, k) && IsLine(line) && Consumed(out, pos, before, line)
      && (FullTurns(out, turns, k) <= full + 1 || pos == |out|)
    else Partial(out, turns, k, pos, before, line, full)
  }

  /** One `readline ()`. */
  method ReadMore(out: string, turns: seq<Turn>, k: nat, pos: nat, line: string, ghost before: seq<string>, ghost full: nat)
    returns (line': string, pos': nat)
    requires k < |turns| && '\r' !in out && Partial(out, turns, k, pos, before, line, full)
    ensures Assembled(out, turns, k + 1, pos', before, line', full)
  {
    var s := ReadLine(out, turns[k].avail, pos);
    ConsumedMore(out, pos, before, line, turns[k].avail);
    PositionNext(out, turns, k);
    line', pos' := line + s, pos + |s|;
  }

  lemma NothingHeld(out: string, turns: seq<Turn>, k: nat, pos: nat, before: seq<string>)
    requires k <= |turns| && pos == Position(out, turns, k) && Consumed(out, pos, before, "")
    ensures Partial(out, turns, k, pos, before, "", FullTurns(out, turns, k)) && !Ended("")
  {
  }

  /** A live turn that completes no line settles nothing. */
  lemma StillQuiet(out: string, turns: seq<Turn>, k: nat, pos: nat, before: seq<string>, line: string, full: nat)
    requires 0 < k <= |turns| && Quiet(out, turns, k) && turns[k - 1].alive
    requires Partial(out, turns, k, pos, before, line, full)
    ensures Quiet(out, turns, k + 1)
  {
    NotYetRead(out, pos, before, line);
  }

  /** One pass of the inner loop: from the start of a line to its end, to the death of
      the server, or to the end of the schedule. */
  method AssembleLine(out: string, turns: seq<Turn>, k0: nat, pos0: nat, ghost before: seq<string>)
    returns (line: string, k: nat, pos: nat, alive: bool)
    requires '\r' !in out && k0 <= |turns| && Quiet(out, turns, k0 + 1)
    requires pos0 == Position(out, turns, k0) && Consumed(out, pos0, before, "")
    ensures k0 <= k <= |turns| && Assembled(out, turns, k, pos, before, line, FullTurns(out, turns, k0))
    ensures !alive ==> k > k0 && !turns[k - 1].alive && Quiet(out, turns, k)
    ensures alive && Ended(line) ==> k > k0 && turns[k - 1].alive && Quiet(out, turns, k)
    ensures !Ended(line) && alive ==> k == |turns| && Quiet(out, turns, k + 1)
  {
    ghost var full := FullTurns(out, turns, k0);
    line, k, pos, alive := "", k0, pos0, true;
    NothingHeld(out, turns, k0, pos0, before);
    while alive && k < |turns|
      invariant k0 <= k <= |turns| && !Ended(line) && Partial(out, turns, k, pos, before, line, full)
      invariant alive ==> Quiet(out, turns, k + 1)
      invariant !alive ==> k > k0 && !turns[k - 1].alive && Quiet(out, turns, k)
      decreases |turns| - k
    {
      alive := turns[k].alive;
      line, pos := ReadMore(out, turns, k, pos, line, before, full);
      k := k + 1;
      if Ended(line) {
        return;
      }
      if alive {
        StillQuiet(out, turns, k, pos, before, line, full);
      }
    }
  }

  /** Nothing was found: what has been consumed holds no complete line with a reference. */
  ghost predicate NothingYet(out: string, turns: seq<Turn>, pos: nat, before: seq<string>, line: string) {
    Consumed(out, pos, before, line) && !Ended(line) && (FullTurns(out, turns, |turns|) <= |before| || pos == |out|)
  }

  /** The answer that the first settling turn calls for. */
  ghost predicate Answers(out: string, turns: seq<Turn>, r: Outcome, k: nat)
    requires k <= |turns|
  {
    var text := TextAfter(out, turns, k);
    && (r.Waiting? <==> !Settled(out, turns, k))
    && (r.Malformed? <==> Settled(out, turns, k) && BadLine(text))
    && (r.Died? <==> (exists i :: 0 <= i < k && !turns[i].alive) && !BadLine(text))
    && (r.Found? <==> Settled(out, turns, k) && (forall i :: 0 <= i < k ==> turns[i].alive) && !BadLine(text))
    && (r.Found? ==> FirstReference(out, LastLine(text)) && ExtractIor(LastLine(text)) == Some(r.ior))
  }

  lemma {:induction false} QuietIsAlive(out: string, turns: seq<Turn>, n: nat)
    requires n <= |turns| + 1 && Quiet(out, turns, n)
    ensures forall i :: 0 <= i < n - 1 ==> turns[i].alive
  {
    if n > 0 {
      QuietIsAlive(out, turns, n - 1);
    }
  }

  lemma SettledNow(out: string, turns: seq<Turn>, k: nat, before: seq<string>, line: string)
    requires 0 < k <= |turns|
    requires Consumed(out, Position(out, turns, k), before, line) && IsLine(line) && Occurs(PREFIX, line)
    ensures Settled(out, turns, k) && FirstReference(out, line)
  {
    assert FirstReference(TextAfter(out, turns, k), line) by {
      JustRead(out, Position(out, turns, k), before, line);
    }
    LineFound(out, Position(out, turns, k), before, line);
  }

  lemma AliveOrNot(turns: seq<Turn>, k: nat)
    requires 0 < k <= |turns| && forall i :: 0 <= i < k - 1 ==> turns[i].alive
    ensures (exists i :: 0 <= i < k && !turns[i].alive) <==> !turns[k - 1].alive
    ensures (forall i :: 0 <= i < k ==> turns[i].alive) <==> turns[k - 1].alive
  {
  }

  /** A line has just been completed, or the server found dead. */
  lemma Answered(out: string, turns: seq<Turn>, k: nat, before: seq<string>, line: string, r: Outcome)
    requires 0 < k <= |turns| && Quiet(out, turns, k)
    requires Consumed(out, Position(out, turns, k), before, line) && (IsLine(line) || '\n' !in line)
    requires (IsLine(line) && Occurs(PREFIX, line)) || !turns[k - 1].alive
    requires r == if Occurs(PREFIX, line) && ExtractIor(line).None? then Malformed
                  else if turns[k - 1].alive then Found(ExtractIor(line).value) else Died
    ensures StopsAt(out, turns, k) && Answers(out, turns, r, k)
  {
    QuietIsAlive(out, turns, k);
    AliveOrNot(turns, k);
    LastIsHeld(out, Position(out, turns, k), before, line);
    assert Settled(out, turns, k) && (turns[k - 1].alive ==> FirstReference(out, line)) by {
      if IsLine(line) && Occurs(PREFIX, line) {
        SettledNow(out, turns, k, before, line);
      }
    }
  }

  /** The schedule ran out with the server alive. */
  lemma RanOut(out: string, turns: seq<Turn>)
    requires Quiet(out, turns, |turns| + 1)
    ensures StopsAt(out, turns, |turns|) && Answers(out, turns, Waiting, |turns|)
  {
    QuietIsAlive(out, turns, |turns| + 1);
    assert !Settled(out, turns, |turns|);
  }

  /** A completed line without the prefix settles nothing while the server lives. */
  lemma PassedQuietly(out: string, turns: seq<Turn>, k: nat, before: seq<string>, line: string)
    requires 0 < k <= |turns| && Quiet(out, turns, k) && turns[k - 1].alive
    requires Consumed(out, Position(out, turns, k), before, line) && IsLine(line) && !Occurs(PREFIX, line)
    ensures Quiet(out, turns, k + 1)
  {
    NotYetRead(out, Position(out, turns, k), before, line);
  }

  /** The outer loop. Whatever the chunks in which the output arrives, it stops at the
      first turn at which the server is found dead or the first line with the prefix has
      been read completely. A reference is taken only from that line and only if the
      server was alive at every turn; a dead server is reported unless the line read last
      has the prefix and does not match. While the server lives, the reference is found
      once the whole output has been available for more turns than it has lines. */
  method WaitForIor(out: string, turns: seq<Turn>) returns (r: Outcome, k: nat)
    requires '\r' !in out
    ensures StopsAt(out, turns, k) && Answers(out, turns, r, k)
    ensures r.Waiting? && FullTurns(out, turns, |turns|) > Newlines(out) ==> !exists l :: FirstReference(out, l)
  {
    ghost var before: seq<string> := [];
    var pos, alive;
    k, pos, alive := 0, 0, true;
    PositionFirst(out, turns);
    while alive
      invariant 0 <= k <= |turns|
      invariant alive ==> pos == Position(out, turns, k) && Consumed(out, pos, before, "") && Quiet(out, turns, k + 1)
      invariant alive ==> FullTurns(out, turns, k) <= |before| || pos == |out|
      invariant !alive ==> StopsAt(out, turns, k) && Answers(out, turns, Died, k)
      decreases |turns| - k, alive
    {
      var line;
      line, k, pos, alive := AssembleLine(out, turns, k, pos, before);
      if !Ended(line) && alive {
        NothingMeansNone(out, turns, pos, before, line);
        RanOut(out, turns);
        return Waiting, k;
      }
      if Occurs(PREFIX, line) {
        var m := ExtractIor(line);
        if m.None? {
          Answered(out, turns, k, before, line, Malformed);
          return Malformed, k;
        }
        r := if alive then Found(m.value) else Died;
        Answered(out, turns, k, before, line, r);
        return r, k;
      }
      if alive {
        PassedQuietly(out, turns, k, before, line);
        LinePassed(out, pos, before, line);
        before := before + [line];
      } else {
        Answered(out, turns, k, before, line, Died);
      }
    }
    return Died, k;
  }

  lemma {:induction false} NewlinesConcat(a: string, b: string)
    ensures Newlines(a + b) == Newlines(a) + Newlines(b)
  {
    if b == "" {
      assert a + b == a;
    } else {
      NewlinesConcat(a, b[..|b| - 1]);
      assert (a + b)[..|a + b| - 1] == a + b[..|b| - 1];
    }
  }

  lemma {:induction false} NewlinesOfLines(ls: seq<string>)
    requires forall i :: 0 <= i < |ls| ==> IsLine(ls[i])
    ensures Newlines(Concat(ls)) >= |ls|
  {
    if ls != [] {
      NewlinesOfLines(ls[1..]);
      NewlinesConcat(ls[0], Concat(ls[1..]));
    }
  }

  lemma LinesOfPart(line: string)
    requires '\n' !in line
    ensures Lines(line) == if line == "" then [] else [line]
  {
    if line != "" {
      var n := LineLength(line);
      assert forall i :: 0 <= i < |line| ==> line[i] != '\n';
      assert line[..n] == line && line[n..] == "";
    }
  }

  lemma NewlinesCoverLines(out: string, pos: nat, before: seq<string>, line: string)
    requires Consumed(out, pos, before, line)
    ensures |before| <= Newlines(out)
  {
    NewlinesOfLines(before);
    NewlinesConcat(Concat(before), line + out[pos..]);
    assert out == Concat(before) + (line + out[pos..]) by {
      assert out == out[..pos] + out[pos..];
    }
  }

  lemma NothingMeansNone(out: string, turns: seq<Turn>, pos: nat, before: seq<string>, line: string)
    requires NothingYet(out, turns, pos, before, line) && '\n' !in line
    ensures FullTurns(out, turns, |turns|) > Newlines(out) ==> !exists l :: FirstReference(out, l)
  {
    NewlinesCoverLines(out, pos, before, line);
    if FullTurns(out, turns, |turns|) > Newlines(out) {
      LinesRead(out, |out|, before, line);
      assert out[..|out|] == out;
      forall n | 0 <= n < |Lines(out)| ensures !(IsLine(Lines(out)[n]) && Occurs(PREFIX, Lines(out)[n])) {
        assert Lines(out)[n] == if n < |before| then before[n] else line;
      }
    }
  }

  /** The line is determined by the output alone, so no two schedules disagree. */
  lemma FirstReferenceUnique(out: string, l: string, m: string)
    requires FirstReference(out, l) && FirstReference(out, m)
    ensures l == m
  {
  }

  /** From the server's octets to the client's: the server prints lines without the
      prefix, then its reference, then anything; the line the driver settles on gives
      back exactly the octets. */
  lemma ReferenceReachesClient(before: seq<string>, a: seq<Octet>, rest: string, l: string)
    requires a != []
    requires forall i :: 0 <= i < |before| ==> IsLine(before[i]) && !Occurs(PREFIX, before[i])
    requires FirstReference(Concat(before) + (ServerLine(a) + rest), l)
    ensures ExtractIor(l).Some? && Destringify(ExtractIor(l).value) == Some(a)
  {
    PrintedReferenceReturns(a);
    FoundAfter(before, ServerLine(a), rest);
    FirstReferenceUnique(Concat(before) + (ServerLine(a) + rest), l, ServerLine(a));
  }

  lemma FoundAfter(before: seq<string>, line: string, rest: string)
    requires forall i :: 0 <= i < |before| ==> IsLine(before[i]) && !Occurs(PREFIX, before[i])
    requires IsLine(line) && Occurs(PREFIX, line)
    ensures FirstReference(Concat(before) + (line + rest), line)
  {
    var out := Concat(before) + (line + rest);
    var pos := |Concat(before)| + |line|;
    assert Consumed(out, pos, before, line) by {
      TakeTwo(out, Concat(before), line, rest);
    }
    LineFound(out, pos, before, line);
  }

  lemma TakeTwo(l: string, a: string, b: string, c: string)
    requires l == a + (b + c)
    ensures |l| >= |a| + |b| && l[..|a| + |b|] == a + b
  {
  }
}
