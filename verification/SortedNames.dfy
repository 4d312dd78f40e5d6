/** `keys ()` followed by `sort ()`: a finite set of names in increasing order. */
module SortedNames {

  /** Lexicographic comparison of strings, by character code. */
  predicate Less(a: string, b: string) {
    if b == "" then false
    else if a == "" then true
    else a[0] < b[0] || (a[0] == b[0] && Less(a[1..], b[1..]))
  }

  lemma {:induction false} LessTotal(a: string, b: string)
    ensures a == b || Less(a, b) || Less(b, a)
  {
    if a != "" && b != "" && a[0] == b[0] {
      LessTotal(a[1..], b[1..]);
      assert a == [a[0]] + a[1..] && b == [b[0]] + b[1..];
    }
  }

  lemma {:induction false} LessTransitive(a: string, b: string, c: string)
    requires Less(a, b) && Less(b, c)
    ensures Less(a, c)
  {
    if a != "" && a[0] == b[0] == c[0] {
      LessTransitive(a[1..], b[1..], c[1..]);
    }
  }

  lemma {:induction false} LessIrreflexive(a: string)
    ensures !Less(a, a)
  {
    if a != "" {
      LessIrreflexive(a[1..]);
    }
  }

  predicate IsLeast(m: string, s: set<string>) {
    m in s && forall x :: x in s && x != m ==> Less(m, x)
  }

  lemma {:induction false} LeastExists(s: set<string>)
    requires s != {}
    ensures exists m :: IsLeast(m, s)
  {
    var x :| x in s;
    if s == {x} {
      assert IsLeast(x, s);
    } else {
      var t := s - {x};
      LeastExists(t);
      var m :| IsLeast(m, t);
      LessTotal(x, m);
      var least := if Less(x, m) then x else m;
      forall y | y in s && y != least
        ensures Less(least, y)
      {
        if least == x && y != m {
          LessTransitive(x, m, y);
        }
      }
      assert IsLeast(least, s);
    }
  }

  lemma LeastUnique(s: set<string>)
    ensures forall a, b :: IsLeast(a, s) && IsLeast(b, s) ==> a == b
  {
    forall a, b | IsLeast(a, s) && IsLeast(b, s)
      ensures a == b
    {
      if a != b {
        LessTransitive(a, b, a);
        LessIrreflexive(a);
      }
    }
  }

  function Sorted(s: set<string>): (r: seq<string>)
    ensures forall x :: x in r <==> x in s
  {
    if s == {} then []
    else
      LeastExists(s);
      LeastUnique(s);
      var m :| IsLeast(m, s);
      [m] + Sorted(s - {m})
  }

  predicate Increasing(r: seq<string>) {
    forall i, j :: 0 <= i < j < |r| ==> r[i] != r[j] && Less(r[i], r[j])
  }

  lemma IncreasingFirst(m: string, r: seq<string>)
    requires Increasing(r) && forall x :: x in r ==> x != m && Less(m, x)
    ensures Increasing([m] + r)
  {
    var s := [m] + r;
    forall i, j | 0 <= i < j < |s| ensures s[i] != s[j] && Less(s[i], s[j]) {
      assert s[j] == r[j - 1] && r[j - 1] in r;
      if i > 0 {
        assert s[i] == r[i - 1];
      }
    }
  }

  lemma {:induction false} SortedIncreases(s: set<string>)
    ensures Increasing(Sorted(s))
  {
    if s != {} {
      LeastExists(s);
      LeastUnique(s);
      var m := Sorted(s)[0];
      assert IsLeast(m, s);
      SortedIncreases(s - {m});
      IncreasingFirst(m, Sorted(s - {m}));
    }
  }

  /** The strings agree below `n`, where the first ends or has the smaller character. */
  predicate LessAt(a: string, b: string, n: nat) {
    && n <= |a| && n < |b| && a[..n] == b[..n]
    && (n == |a| || a[n] < b[n])
  }

  /** The order is decided by the first difference, by character code. */
  lemma {:induction false} LessIffAt(a: string, b: string)
    ensures Less(a, b) <==> exists n: nat :: LessAt(a, b, n)
  {
    if b != "" && (a == "" || a[0] < b[0]) {
      assert LessAt(a, b, 0);
    } else if b != "" && a[0] == b[0] {
      LessIffAt(a[1..], b[1..]);
      if n: nat :| LessAt(a[1..], b[1..], n) {
        assert a[..n + 1] == [a[0]] + a[1..][..n] && b[..n + 1] == [b[0]] + b[1..][..n];
        assert LessAt(a, b, n + 1);
      }
      if n: nat :| LessAt(a, b, n) {
        assert n > 0;
        assert a[1..][..n - 1] == a[..n][1..] && b[1..][..n - 1] == b[..n][1..];
        assert LessAt(a[1..], b[1..], n - 1);
      }
    } else if b != "" {
      forall n: nat ensures !LessAt(a, b, n) {
        assert 0 < n <= |a| && n <= |b| ==> a[..n][0] != b[..n][0];
      }
    }
  }
}
