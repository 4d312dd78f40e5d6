/** chk_distrib.py, `compare_lists`: what one file list has and the other lacks,
    counting repetitions, by removing from a working copy. */
module CompareLists {

  /** `ll1.remove (f)`: the first occurrence goes. */
  function RemoveFirst<T(==)>(s: seq<T>, f: T): seq<T> {
    if s == [] then [] else if s[0] == f then s[1..] else [s[0]] + RemoveFirst(s[1..], f)
  }

  /** The elements of `s` beyond the number of times `t` has them, in their order in `s`. */
  function Excess<T(==)>(s: seq<T>, t: seq<T>): seq<T> {
    if s == [] then []
    else
      var init, x := s[..|s| - 1], s[|s| - 1];
      Excess(init, t) + if multiset(init)[x] >= multiset(t)[x] then [x] else []
  }

  /** The surplus is the multiset difference. */
  lemma {:induction false} ExcessCount<T>(s: seq<T>, t: seq<T>)
    ensures multiset(Excess(s, t)) == multiset(s) - multiset(t)
  {
    if s != [] {
      var init, x := s[..|s| - 1], s[|s| - 1];
      ExcessCount(init, t);
      assert s == init + [x];
      assert multiset(s) == multiset(init) + multiset{x};
    }
  }

  lemma {:induction false} RemoveFirstAppend<T>(s: seq<T>, x: T, f: T)
    ensures RemoveFirst(s + [x], f) ==
      if f in s then RemoveFirst(s, f) + [x] else if x == f then s else s + [x]
  {
    if s != [] {
      RemoveFirstAppend(s[1..], x, f);
      assert (s + [x])[0] == s[0] && (s + [x])[1..] == s[1..] + [x];
      assert s == [s[0]] + s[1..];
    } else {
      assert s + [x] == [x];
    }
  }

  lemma {:induction false} RemoveFirstAbsent<T>(s: seq<T>, f: T)
    requires f !in s
    ensures RemoveFirst(s, f) == s
  {
    if s != [] {
      RemoveFirstAbsent(s[1..], f);
    }
  }

  lemma ExcessHas<T>(s: seq<T>, t: seq<T>, f: T)
    ensures f in Excess(s, t) <==> multiset(s)[f] > multiset(t)[f]
  {
    ExcessCount(s, t);
    assert f in Excess(s, t) <==> multiset(Excess(s, t))[f] > 0;
  }

  /** Lengthening the other list by `f` takes the first surplus `f` away, if there is one. */
  lemma {:induction false} ExcessNext<T>(s: seq<T>, t: seq<T>, f: T)
    ensures Excess(s, t + [f]) == RemoveFirst(Excess(s, t), f)
  {
    if s != [] {
      var init, x := s[..|s| - 1], s[|s| - 1];
      var e := Excess(init, t);
      ExcessNext(init, t, f);
      ExcessHas(init, t, f);
      assert multiset(t + [f]) == multiset(t) + multiset{f};
      RemoveFirstAppend(e, x, f);
      if f !in e {
        RemoveFirstAbsent(e, f);
      }
      if multiset(init)[x] >= multiset(t)[x] {
        assert Excess(s, t) == e + [x];
      } else {
        assert Excess(s, t) == e;
        assert Excess(s, t + [f]) == Excess(init, t + [f]);
      }
    }
  }

  lemma {:induction false} ExcessOfNothing<T>(s: seq<T>)
    ensures Excess(s, []) == s
  {
    if s != [] {
      var init, x := s[..|s| - 1], s[|s| - 1];
      ExcessOfNothing(init);
      assert multiset(init)[x] >= multiset([])[x];
      assert init + [x] == s;
    }
  }

  /** One turn of the loop, on an element `f` that follows `t` in the second list. */
  lemma Turn<T>(l1: seq<T>, t: seq<T>, f: T)
    ensures Excess(l1, t + [f]) == if f in Excess(l1, t) then RemoveFirst(Excess(l1, t), f) else Excess(l1, t)
    ensures Excess(t + [f], l1) == if f in Excess(l1, t) then Excess(t, l1) else Excess(t, l1) + [f]
  {
    ExcessNext(l1, t, f);
    ExcessHas(l1, t, f);
    assert (t + [f])[..|t + [f]| - 1] == t;
    if f !in Excess(l1, t) {
      RemoveFirstAbsent(Excess(l1, t), f);
    }
  }

  /** The loop: `remove` where it succeeds, `append` where it raises. */
  method Subtract<T(==)>(l1: seq<T>, l2: seq<T>) returns (ll1: seq<T>, notInLl1: seq<T>)
    ensures ll1 == Excess(l1, l2) && notInLl1 == Excess(l2, l1)
  {
    ll1, notInLl1 := l1, [];
    ExcessOfNothing(l1);
    ghost var t: seq<T> := [];
    var k := 0;
    while k < |l2|
      invariant 0 <= k <= |l2| && t == l2[..k]
      invariant ll1 == Excess(l1, t) && notInLl1 == Excess(t, l1)
    {
      var f := l2[k];
      Turn(l1, t, f);
      if f in ll1 {
        ll1 := RemoveFirst(ll1, f);
      } else {
        notInLl1 := notInLl1 + [f];
      }
      t := t + [f];
      k := k + 1;
    }
    assert t == l2;
  }

  datatype Report<T> = Report(onlyFirst: seq<T>, onlySecond: seq<T>)

  /** Both differences, exactly and in order; with `reverse` nothing is printed exactly
      when the lists agree as multisets, without it exactly when the second covers the first. */
  method Compare<T(==)>(l1: seq<T>, l2: seq<T>, reverse: bool) returns (printed: Report<T>)
    ensures printed.onlyFirst == Excess(l1, l2)
    ensures printed.onlySecond == if reverse then Excess(l2, l1) else []
    ensures multiset(printed.onlyFirst) == multiset(l1) - multiset(l2)
    ensures reverse ==> multiset(printed.onlySecond) == multiset(l2) - multiset(l1)
    ensures reverse ==> (printed == Report([], []) <==> multiset(l1) == multiset(l2))
    ensures !reverse ==> (printed == Report([], []) <==> multiset(l1) <= multiset(l2))
  {
    var ll1, notInLl1 := Subtract(l1, l2);
    ExcessCount(l1, l2);
    ExcessCount(l2, l1);
    NothingLeftIff(l1, l2);
    NothingLeftIff(l2, l1);
    printed := Report(ll1, if reverse then notInLl1 else []);
  }

  lemma NothingLeftIff<T>(s: seq<T>, t: seq<T>)
    ensures Excess(s, t) == [] <==> multiset(s) <= multiset(t)
  {
    ExcessCount(s, t);
    var e := Excess(s, t);
    if e != [] {
      ExcessHas(s, t, e[0]);
    } else {
      forall f ensures multiset(s)[f] <= multiset(t)[f] {
        ExcessHas(s, t, f);
      }
    }
  }
}
