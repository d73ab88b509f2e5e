/**
 * The queue's storage and its doubly linked list primitives, as an index arena. Slot 0 is the
 * sentinel node that the queue handle points at; every other slot is an element node. `next` and
 * `prev` hold slot numbers (`NIL` stands for a NULL link while the sort has the ring cut open), and
 * `value` holds the string each element owns (the sentinel's entry is unused).
 */
module ListArena {
  import opened StrOrder
  import opened Sequences
  import opened MergeSortSpec

  /** The sentinel's slot. */
  const HEAD := 0

  /** The slot number that stands for a NULL link. */
  const NIL := -1

  /** The ring read forward: the sentinel, the element slots in order, and the sentinel again. */
  function Ring(elems: seq<int>): seq<int> {
    [HEAD] + elems + [HEAD]
  }

  /** Entries `k` and `k + 1` of `r` are linked forward by `next` and backward by `prev`. */
  ghost predicate LinkedAt(next: seq<int>, prev: seq<int>, r: seq<int>, k: int)
    requires 0 <= k < |r| - 1
  {
    0 <= r[k] < |next| && 0 <= r[k + 1] < |prev| && next[r[k]] == r[k + 1] && prev[r[k + 1]] == r[k]
  }

  /** Every consecutive pair of `r` is linked both ways. */
  ghost predicate Linked(next: seq<int>, prev: seq<int>, r: seq<int>) {
    forall k :: 0 <= k < |r| - 1 ==> LinkedAt(next, prev, r, k)
  }

  /**
   * The arena holds a circular doubly linked list through the sentinel and the element slots
   * `elems`, each element slot occurring once.
   */
  ghost predicate RingOk(next: seq<int>, prev: seq<int>, elems: seq<int>) {
    |next| == |prev| >= 1 &&
    (forall k :: 0 <= k < |elems| ==> HEAD < elems[k] < |next|) &&
    Distinct(elems) &&
    Linked(next, prev, Ring(elems))
  }

  /**
   * The list invariant in its usual form: for the sentinel and every element node `n`,
   * `n->next->prev == n` and `n->prev->next == n`.
   */
  lemma RingNeighbours(next: seq<int>, prev: seq<int>, elems: seq<int>, n: int)
    requires RingOk(next, prev, elems)
    requires n == HEAD || n in elems
    ensures 0 <= n < |next| && 0 <= next[n] < |prev| && 0 <= prev[n] < |next|
    ensures prev[next[n]] == n && next[prev[n]] == n
  {
    var r := Ring(elems);
    var k := if n == HEAD then 0 else
      var i :| 0 <= i < |elems| && elems[i] == n; i + 1;
    assert r[k] == n && LinkedAt(next, prev, r, k);
    var j := if k == 0 then |r| - 1 else k;
    assert r[j] == n && LinkedAt(next, prev, r, j - 1);
  }

  /** `list_empty`: the sentinel links to itself exactly when there are no elements. */
  lemma RingEmpty(next: seq<int>, prev: seq<int>, elems: seq<int>)
    requires RingOk(next, prev, elems)
    ensures next[HEAD] == HEAD <==> elems == []
    ensures elems != [] ==> next[HEAD] == elems[0] && prev[HEAD] == elems[|elems| - 1]
  {
    var r := Ring(elems);
    assert LinkedAt(next, prev, r, 0) && LinkedAt(next, prev, r, |r| - 2);
  }

  /** Appending fresh slots to the arena leaves the ring as it was. */
  lemma RingExtend(next: seq<int>, prev: seq<int>, elems: seq<int>, n: int, p: int)
    requires RingOk(next, prev, elems)
    ensures RingOk(next + [n], prev + [p], elems)
  {
    var r := Ring(elems);
    forall k | 0 <= k < |r| - 1
      ensures LinkedAt(next + [n], prev + [p], r, k)
    {
      assert LinkedAt(next, prev, r, k);
    }
  }

  /** Two entries of the ring are the same slot only when both are the sentinel at its two ends. */
  lemma RingEntriesDiffer(next: seq<int>, prev: seq<int>, elems: seq<int>, i: int, j: int)
    requires RingOk(next, prev, elems)
    requires 0 <= i < j < |elems| + 2 && !(i == 0 && j == |elems| + 1)
    ensures Ring(elems)[i] != Ring(elems)[j]
  {
    var r := Ring(elems);
    if i > 0 {
      assert r[i] == elems[i - 1];
    }
    if j <= |elems| {
      assert r[j] == elems[j - 1];
    }
    if 0 < i && j <= |elems| {
      DistinctAt(elems, i - 1, j - 1);
    }
  }

  /** `__list_add`: linking `node` in after ring position `p` puts it at index `p` of the elements. */
  lemma RingAdd(next: seq<int>, prev: seq<int>, elems: seq<int>, p: int, node: int)
    requires RingOk(next, prev, elems)
    requires 0 <= p <= |elems| && HEAD < node < |next| && node !in elems
    ensures var r := Ring(elems);
      RingOk(next[node := r[p + 1]][r[p] := node], prev[node := r[p]][r[p + 1] := node],
             InsertAt(elems, p, node))
  {
    var r := Ring(elems);
    var next', prev' := next[node := r[p + 1]][r[p] := node], prev[node := r[p]][r[p + 1] := node];
    var r' := Ring(InsertAt(elems, p, node));
    forall k | 0 <= k < |r'| - 1
      ensures LinkedAt(next', prev', r', k)
    {
      RingAddLinkAt(next, prev, elems, p, node, k);
    }
    InsertAtDistinct(elems, p, node);
  }

  /** One link of `RingAdd`: entries `k` and `k + 1` of the ring with `node` inserted at `p`. */
  lemma RingAddLinkAt(next: seq<int>, prev: seq<int>, elems: seq<int>, p: int, node: int, k: int)
    requires RingOk(next, prev, elems)
    requires 0 <= p <= |elems| && HEAD < node < |next| && node !in elems
    requires 0 <= k <= |elems| + 1
    ensures var r := Ring(elems);
      LinkedAt(next[node := r[p + 1]][r[p] := node], prev[node := r[p]][r[p + 1] := node],
               Ring(InsertAt(elems, p, node)), k)
  {
    var r := Ring(elems);
    var r' := Ring(InsertAt(elems, p, node));
    if k < p {
      RingAddLinkBefore(next, prev, elems, p, node, k);
    } else if k == p {
      assert r' == r[..p + 1] + [node] + r[p + 1..];
      assert r'[k] == r[p] && r'[k + 1] == node;
    } else if k == p + 1 {
      assert r' == r[..p + 1] + [node] + r[p + 1..];
      assert node !in r by {
        assert r == [HEAD] + elems + [HEAD];
      }
      assert r'[k] == node && r'[k + 1] == r[p + 1];
    } else {
      RingAddLinkAfter(next, prev, elems, p, node, k);
    }
  }

  /** A link of the ring before the insertion point is kept, at the same entries. */
  lemma RingAddLinkBefore(next: seq<int>, prev: seq<int>, elems: seq<int>, p: int, node: int, k: int)
    requires RingOk(next, prev, elems)
    requires 0 <= p <= |elems| && HEAD < node < |next| && node !in elems
    requires 0 <= k < p
    ensures var r := Ring(elems);
      LinkedAt(next[node := r[p + 1]][r[p] := node], prev[node := r[p]][r[p + 1] := node],
               Ring(InsertAt(elems, p, node)), k)
  {
    var r := Ring(elems);
    var r' := Ring(InsertAt(elems, p, node));
    assert r' == r[..p + 1] + [node] + r[p + 1..];
    assert node !in r by {
      assert r == [HEAD] + elems + [HEAD];
    }
    assert r'[k] == r[k] && r'[k + 1] == r[k + 1] && LinkedAt(next, prev, r, k);
    RingEntriesDiffer(next, prev, elems, k, p);
    RingEntriesDiffer(next, prev, elems, k + 1, p + 1);
  }

  /** A link of the ring after the insertion point is kept, one entry further on. */
  lemma RingAddLinkAfter(next: seq<int>, prev: seq<int>, elems: seq<int>, p: int, node: int, k: int)
    requires RingOk(next, prev, elems)
    requires 0 <= p <= |elems| && HEAD < node < |next| && node !in elems
    requires p + 1 < k <= |elems| + 1
    ensures var r := Ring(elems);
      LinkedAt(next[node := r[p + 1]][r[p] := node], prev[node := r[p]][r[p + 1] := node],
               Ring(InsertAt(elems, p, node)), k)
  {
    var r := Ring(elems);
    var r' := Ring(InsertAt(elems, p, node));
    assert r' == r[..p + 1] + [node] + r[p + 1..];
    assert node !in r by {
      assert r == [HEAD] + elems + [HEAD];
    }
    assert r'[k] == r[k - 1] && r'[k + 1] == r[k] && LinkedAt(next, prev, r, k - 1);
    RingEntriesDiffer(next, prev, elems, p, k - 1);
    RingEntriesDiffer(next, prev, elems, p + 1, k);
  }

  /** `list_del`: unlinking the element at index `k` removes it from the elements. */
  lemma RingDel(next: seq<int>, prev: seq<int>, elems: seq<int>, k: int)
    requires RingOk(next, prev, elems)
    requires 0 <= k < |elems|
    ensures var r := Ring(elems);
      RingOk(next[r[k] := r[k + 2]], prev[r[k + 2] := r[k]], RemoveAt(elems, k))
  {
    var r := Ring(elems);
    var pv, nx := r[k], r[k + 2];
    var next', prev' := next[pv := nx], prev[nx := pv];
    var e' := RemoveAt(elems, k);
    var r' := Ring(e');
    assert r' == r[..k + 1] + r[k + 2..];
    forall j | 0 <= j < |r'| - 1
      ensures LinkedAt(next', prev', r', j)
    {
      if j < k {
        assert r'[j] == r[j] && r'[j + 1] == r[j + 1] && LinkedAt(next, prev, r, j);
        RingEntriesDiffer(next, prev, elems, j, k);
        RingEntriesDiffer(next, prev, elems, j + 1, k + 2);
      } else if j == k {
        assert r'[j] == r[k] && r'[j + 1] == r[k + 2];
        assert LinkedAt(next, prev, r, k) && LinkedAt(next, prev, r, k + 1);
      } else {
        assert r'[j] == r[j + 1] && r'[j + 1] == r[j + 2] && LinkedAt(next, prev, r, j + 1);
        RingEntriesDiffer(next, prev, elems, k, j + 1);
        RingEntriesDiffer(next, prev, elems, k + 2, j + 2);
      }
    }
    RemoveAtDistinct(elems, k);
  }

  /**
   * One step along the ring from position `j`: what is at positions `j` and `j + 1`, and that
   * `next` leads from one to the other.
   */
  lemma RingNext(next: seq<int>, prev: seq<int>, elems: seq<int>, j: int)
    requires RingOk(next, prev, elems)
    requires 0 <= j <= |elems|
    ensures Ring(elems)[j] == if j == 0 then HEAD else elems[j - 1]
    ensures Ring(elems)[j + 1] == if j == |elems| then HEAD else elems[j]
    ensures Ring(elems)[j] == HEAD <==> j == 0
    ensures Ring(elems)[j + 1] == HEAD <==> j == |elems|
    ensures 0 <= Ring(elems)[j] < |next| && next[Ring(elems)[j]] == Ring(elems)[j + 1]
  {
    assert LinkedAt(next, prev, Ring(elems), j);
  }

  /** Walking starts at the sentinel: its `next` is the first element, or itself when empty. */
  lemma WalkStart(next: seq<int>, prev: seq<int>, elems: seq<int>)
    requires RingOk(next, prev, elems)
    ensures 0 < |next| && next[HEAD] == if elems == [] then HEAD else elems[0]
  {
    RingNext(next, prev, elems, 0);
  }

  /** From the element at index `j` the walk goes on to the next element, or back to the sentinel. */
  lemma WalkFrom(next: seq<int>, prev: seq<int>, elems: seq<int>, j: int)
    requires RingOk(next, prev, elems)
    requires 0 <= j < |elems|
    ensures HEAD < elems[j] < |next|
    ensures next[elems[j]] == if j + 1 < |elems| then elems[j + 1] else HEAD
  {
    RingNext(next, prev, elems, j + 1);
  }

  /**
   * A queue: the sentinel node in slot 0 and the element nodes linked into its ring. The ghost
   * `elems` lists the element slots in the order `next` visits them from the sentinel.
   */
  class Queue {
    var next: seq<int>
    var prev: seq<int>
    var value: seq<CString>
    ghost var elems: seq<int>

    /** The ring invariant, which every operation keeps. */
    ghost predicate Valid()
      reads this
    {
      |value| == |next| && RingOk(next, prev, elems)
    }

    /** The strings of the queue, from head to tail. */
    ghost function Contents(): seq<CString>
      reads this
    {
      Values(value, elems)
    }

    /** A freshly allocated sentinel after `INIT_LIST_HEAD`: the empty queue. */
    constructor ()
      ensures Valid() && elems == [] && Contents() == []
    {
      next, prev, value := [HEAD], [HEAD], [[]];
      elems := [];
      new;
      assert LinkedAt(next, prev, Ring(elems), 0);
    }

    /** `list_empty(head)`. */
    function IsEmpty(): (empty: bool)
      reads this
      requires Valid()
      ensures empty <==> elems == []
    {
      RingEmpty(next, prev, elems);
      next[HEAD] == HEAD
    }

    /** `list_first_entry(head, ...)`: the slot at the front of the queue. */
    function First(): (node: int)
      reads this
      requires Valid() && elems != []
      ensures node == elems[0]
    {
      RingEmpty(next, prev, elems);
      next[HEAD]
    }

    /** `list_last_entry(head, ...)`: the slot at the back of the queue. */
    function Last(): (node: int)
      reads this
      requires Valid() && elems != []
      ensures node == elems[|elems| - 1]
    {
      RingEmpty(next, prev, elems);
      prev[HEAD]
    }

    /**
     * A new element node holding a copy of `s`: a slot appended to the arena, not yet linked into
     * the ring (its links are unset until it is added).
     */
    method NewNode(s: CString) returns (node: int)
      requires Valid()
      modifies this
      ensures Valid() && elems == old(elems) && Contents() == old(Contents())
      ensures node == old(|next|) && |next| == node + 1 && node !in elems
      ensures value == old(value) + [s]
    {
      node := |next|;
      RingExtend(next, prev, elems, NIL, NIL);
      ValuesGrow(value, [s], elems);
      next, prev, value := next + [NIL], prev + [NIL], value + [s];
    }

    /** `list_add(node, at)`: link `node` in right after `at`, which is ring position `p`. */
    method ListAdd(node: int, at: int, ghost p: int)
      requires Valid() && HEAD < node < |next| && node !in elems
      requires 0 <= p <= |elems| && at == Ring(elems)[p]
      modifies this
      ensures Valid() && value == old(value)
      ensures elems == InsertAt(old(elems), p, node)
      ensures Contents() == InsertAt(old(Contents()), p, value[node])
    {
      var r := Ring(elems);
      assert LinkedAt(next, prev, r, p);
      assert node !in r;
      RingAdd(next, prev, elems, p, node);
      ValuesInsertAt(value, elems, p, node);
      ghost var next', prev' := next[node := r[p + 1]][at := node], prev[node := at][r[p + 1] := node];
      var nx := next[at];
      prev := prev[nx := node];
      next := next[node := nx];
      prev := prev[node := at];
      next := next[at := node];
      assert prev == prev' && next == next';
      elems := InsertAt(elems, p, node);
    }

    /** `list_add_tail(node, head)`: link `node` in at the back of the queue. */
    method ListAddTail(node: int)
      requires Valid() && HEAD < node < |next| && node !in elems
      modifies this
      ensures Valid() && value == old(value)
      ensures elems == old(elems) + [node]
      ensures Contents() == old(Contents()) + [value[node]]
    {
      var r := Ring(elems);
      assert LinkedAt(next, prev, r, |r| - 2);
      ListAdd(node, prev[HEAD], |elems|);
    }

    /** `list_del(node)`: unlink the element at index `k`; its own links are left as they were. */
    method ListDel(node: int, ghost k: int)
      requires Valid() && 0 <= k < |elems| && node == elems[k]
      modifies this
      ensures Valid() && value == old(value)
      ensures elems == RemoveAt(old(elems), k) && node !in elems
      ensures Contents() == RemoveAt(old(Contents()), k)
    {
      var r := Ring(elems);
      assert r[k + 1] == node && LinkedAt(next, prev, r, k) && LinkedAt(next, prev, r, k + 1);
      RingDel(next, prev, elems, k);
      RemoveAtDistinct(elems, k);
      ValuesRemoveAt(value, elems, k);
      var nx, pv := next[node], prev[node];
      prev := prev[nx := pv];
      next := next[pv := nx];
      elems := RemoveAt(elems, k);
    }

    /**
     * `list_move(node, at)`: unlink the element at index `k` and link it in after `at`, which is
     * ring position `p` once the node is out.
     */
    method ListMove(node: int, at: int, ghost k: int, ghost p: int)
      requires Valid() && 0 <= k < |elems| && node == elems[k]
      requires 0 <= p < |elems| && at == Ring(RemoveAt(elems, k))[p]
      modifies this
      ensures Valid() && value == old(value)
      ensures elems == InsertAt(RemoveAt(old(elems), k), p, node)
    {
      ListDel(node, k);
      ListAdd(node, at, p);
    }
  }
}
