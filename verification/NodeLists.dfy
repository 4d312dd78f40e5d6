/** idl_fe-types.adb: node lists as chains of cells, and `Append_Node`, which walks to
    the last cell of a chain and links a new one behind it, in place. */
module NodeLists {

  /** `Cdr` is 0 for null; cell number `p` is `h[p - 1]`. */
  datatype Cell = Cell(car: nat, cdr: nat)

  /** Cells are only ever linked to cells allocated after them. */
  predicate Chained(h: seq<Cell>) {
    forall i :: 0 <= i < |h| ==> h[i].cdr == 0 || i + 1 < h[i].cdr <= |h|
  }

  type Heap = h: seq<Cell> | Chained(h) witness []

  const NIL := 0

  /** The nodes of the list `p`, in order. */
  function Contents(h: Heap, p: nat): seq<nat>
    requires p <= |h|
    decreases if p == NIL then 0 else |h| + 1 - p
  {
    if p == NIL then [] else [h[p - 1].car] + Contents(h, h[p - 1].cdr)
  }

  function LastCell(h: Heap, p: nat): (l: nat)
    requires 0 < p <= |h|
    ensures p <= l <= |h| && h[l - 1].cdr == NIL
    decreases |h| - p
  {
    if h[p - 1].cdr == NIL then p else LastCell(h, h[p - 1].cdr)
  }

  /** The cells after a new one for `x` is linked behind cell `last`, or behind nothing. */
  function Link(h: Heap, last: nat, x: nat): (h': Heap)
    requires last <= |h|
    ensures |h'| == |h| + 1
  {
    var tied := if last == NIL then h else h[last - 1 := h[last - 1].(cdr := |h| + 1)];
    tied + [Cell(x, NIL)]
  }

  /** The cells and the list after `Append_Node (p, x)`. */
  function Append(h: Heap, p: nat, x: nat): (Heap, nat)
    requires p <= |h|
  {
    if p == NIL then (Link(h, NIL, x), |h| + 1) else (Link(h, LastCell(h, p), x), p)
  }

  /** Two lists end in the same cell, so that an append to one lengthens both. */
  predicate SameEnd(h: Heap, p: nat, q: nat)
    requires p <= |h| && q <= |h|
  {
    p != NIL && q != NIL && LastCell(h, p) == LastCell(h, q)
  }

  class Cells {
    var cells: Heap

    constructor ()
      ensures cells == []
    {
      cells := [];
    }

    /** The function `Append_Node`. */
    method AppendNode(list: nat, node: nat) returns (r: nat)
      requires list <= |cells|
      modifies this
      ensures (cells, r) == Append(old(cells), list, node)
    {
      if list == NIL {
        cells := Link(cells, NIL, node);
        return |cells|;
      }
      var last := list;
      while cells[last - 1].cdr != NIL
        invariant 0 < last <= |cells|
        invariant LastCell(cells, last) == LastCell(cells, list)
        decreases |cells| - last
      {
        last := cells[last - 1].cdr;
      }
      cells := Link(cells, last, node);
      return list;
    }
  }

  lemma {:induction false} LinkLast(h: Heap, last: nat, x: nat, q: nat)
    requires last <= |h| && (last != NIL ==> h[last - 1].cdr == NIL) && 0 < q <= |h|
    ensures LastCell(Link(h, last, x), q) == if LastCell(h, q) == last then |h| + 1 else LastCell(h, q)
    decreases |h| - q
  {
    if h[q - 1].cdr != NIL {
      LinkLast(h, last, x, h[q - 1].cdr);
    }
  }

  /** Linking behind the last cell of `q` lengthens it by one; linking elsewhere leaves it alone. */
  lemma {:induction false} LinkExact(h: Heap, last: nat, x: nat, q: nat)
    requires last <= |h| && (last != NIL ==> h[last - 1].cdr == NIL) && q <= |h|
    ensures Contents(Link(h, last, x), q) == Contents(h, q) + if q != NIL && LastCell(h, q) == last then [x] else []
    decreases if q == NIL then 0 else |h| + 1 - q
  {
    if q != NIL {
      var next := h[q - 1].cdr;
      if next != NIL {
        LinkExact(h, last, x, next);
      } else if q == last {
        assert Contents(Link(h, last, x), |h| + 1) == [x];
      }
    }
  }

  /** `Append_Node` adds the node to its own list and to exactly the lists that end in
      the same cell; every other list keeps its nodes and its end. */
  lemma AppendExact(h: Heap, p: nat, x: nat, q: nat)
    requires p <= |h| && q <= |h|
    ensures var (h', r) := Append(h, p, x);
      && r <= |h'| && r != NIL && Contents(h', r) == Contents(h, p) + [x] && LastCell(h', r) == |h| + 1
      && Contents(h', q) == Contents(h, q) + (if SameEnd(h, p, q) then [x] else [])
      && (q != NIL ==> LastCell(h', q) == if SameEnd(h, p, q) then |h| + 1 else LastCell(h, q))
  {
    var last := if p == NIL then NIL else LastCell(h, p);
    LinkExact(h, last, x, q);
    if q != NIL {
      LinkLast(h, last, x, q);
    }
    if p != NIL {
      LinkExact(h, last, x, p);
      LinkLast(h, last, x, p);
    }
  }
}
