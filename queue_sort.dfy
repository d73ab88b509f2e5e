/**
 * `q_sort` and its helpers. The sort cuts the ring open after the last element, so the elements
 * form a chain along `next` that ends in NULL; `merge_recur` sorts that chain by relinking `next`
 * only, and `q_sort` then rebuilds the ring, in ascending order or reversed.
 */
module QueueSort {
  import opened StrOrder
  import opened Sequences
  import opened MergeSortSpec
  import opened ListArena
  import QueueOps

  /** The slot number standing for the `list_head` that `merge_two_list` keeps on its stack. */
  const DUMMY := -2

  /** Every slot of `s` is an element slot of the arena. */
  ghost predicate InArena(next: seq<int>, s: seq<int>) {
    forall k :: 0 <= k < |s| ==> HEAD < s[k] < |next|
  }

  /** `next` leads from entry `k` of `s` to entry `k + 1`. */
  ghost predicate StepAt(next: seq<int>, s: seq<int>, k: int)
    requires 0 <= k < |s| - 1
  {
    0 <= s[k] < |next| && next[s[k]] == s[k + 1]
  }

  /** Following `next` from the first entry of `s` visits the rest of `s` in order. */
  ghost predicate Path(next: seq<int>, s: seq<int>) {
    forall k :: 0 <= k < |s| - 1 ==> StepAt(next, s, k)
  }

  /** A NULL-terminated chain: from `h`, `next` visits the distinct element slots `s` and then NULL. */
  ghost predicate Chain(next: seq<int>, h: int, s: seq<int>) {
    InArena(next, s) && Distinct(s) && (s + [NIL])[0] == h && Path(next, s + [NIL])
  }

  /** A chain stays a chain when no `next` entry of its slots changes. */
  lemma ChainFrame(next: seq<int>, next': seq<int>, h: int, s: seq<int>)
    requires Chain(next, h, s) && |next'| == |next|
    requires forall x :: 0 <= x < |next| && x in s ==> next'[x] == next[x]
    ensures Chain(next', h, s)
  {
    var p := s + [NIL];
    forall k | 0 <= k < |p| - 1
      ensures StepAt(next', p, k)
    {
      assert StepAt(next, p, k) && p[k] == s[k];
    }
  }

  /** A chain with at least two slots starts with a slot whose successor is not NULL. */
  lemma ChainFirst(next: seq<int>, h: int, s: seq<int>)
    requires Chain(next, h, s) && s != []
    ensures 0 <= h < |next| && h == s[0]
    ensures next[h] == (s + [NIL])[1] && (next[h] == NIL <==> |s| == 1)
  {
    assert StepAt(next, s + [NIL], 0);
  }

  /** `slow->next = NULL` at entry `m - 1` splits a chain into its first `m` slots and the rest. */
  lemma ChainSplit(next: seq<int>, h: int, s: seq<int>, m: int)
    requires Chain(next, h, s) && 0 < m < |s|
    ensures Chain(next[s[m - 1] := NIL], h, s[..m])
    ensures Chain(next[s[m - 1] := NIL], s[m], s[m..])
  {
    var next' := next[s[m - 1] := NIL];
    var p := s + [NIL];
    var l, r := s[..m] + [NIL], s[m..] + [NIL];
    forall k | 0 <= k < |l| - 1
      ensures StepAt(next', l, k)
    {
      assert StepAt(next, p, k);
      if k < m - 1 {
        DistinctAt(s, k, m - 1);
      }
    }
    forall k | 0 <= k < |r| - 1
      ensures StepAt(next', r, k)
    {
      assert StepAt(next, p, m + k) && r[k] == p[m + k] && r[k + 1] == p[m + k + 1];
      DistinctAt(s, m + k, m - 1);
    }
    assert s == s[..m] + s[m..];
    DistinctAppend(s[..m], s[m..]);
  }

  /** Linking the last slot of a path to the first slot of another joins them into one path. */
  lemma PathJoin(next: seq<int>, p: seq<int>, q: seq<int>)
    requires Path(next, p) && Path(next, q) && p != [] && q != []
    requires 0 <= p[|p| - 1] < |next| && next[p[|p| - 1]] == q[0]
    ensures Path(next, p + q)
  {
    var pq := p + q;
    forall k | 0 <= k < |pq| - 1
      ensures StepAt(next, pq, k)
    {
      if k < |p| - 1 {
        assert StepAt(next, p, k);
      } else if k >= |p| {
        assert StepAt(next, q, k - |p|);
      }
    }
  }

  /** `q_sort`'s `head->prev->next = NULL`: cutting the ring after the last element leaves a chain. */
  lemma RingCut(next: seq<int>, prev: seq<int>, elems: seq<int>)
    requires RingOk(next, prev, elems) && elems != []
    ensures HEAD < prev[HEAD] < |next|
    ensures Chain(next[prev[HEAD] := NIL], next[HEAD], elems)
  {
    RingEmpty(next, prev, elems);
    var r := Ring(elems);
    var last := prev[HEAD];
    var next' := next[last := NIL];
    var p := elems + [NIL];
    forall k | 0 <= k < |p| - 1
      ensures StepAt(next', p, k)
    {
      assert LinkedAt(next, prev, r, k + 1) && r[k + 1] == elems[k];
      if k + 1 < |elems| {
        assert r[k + 2] == elems[k + 1];
        DistinctAt(elems, k, |elems| - 1);
      }
    }
    assert LinkedAt(next, prev, r, 0);
  }

  /** Linking the last slot of a path of distinct slots to `x` extends the path by `x`. */
  lemma PathExtend(next: seq<int>, out: seq<int>, x: int)
    requires Path(next, out) && InArena(next, out) && Distinct(out) && out != []
    ensures Path(next[out[|out| - 1] := x], out + [x])
    ensures Path(next[out[|out| - 1] := x], out)
  {
    var next' := next[out[|out| - 1] := x];
    var p := out + [x];
    forall k | 0 <= k < |p| - 1
      ensures StepAt(next', p, k)
    {
      if k < |out| - 1 {
        assert StepAt(next, out, k);
        DistinctAt(out, k, |out| - 1);
      }
    }
    forall k | 0 <= k < |out| - 1
      ensures StepAt(next', out, k)
    {
      assert StepAt(next', p, k);
    }
  }

  /**
   * The slot `h` last taken by the merge, entry `i - 1` of `a` or `j - 1` of `b`, is in one of the
   * chains and is none of the slots still to be merged.
   */
  lemma Consumed(a: seq<int>, b: seq<int>, i: int, j: int, h: int)
    requires Distinct(a + b) && 0 <= i <= |a| && 0 <= j <= |b|
    requires (0 < i && h == a[i - 1]) || (0 < j && h == b[j - 1])
    ensures h in a || h in b
    ensures forall k :: i <= k < |a| ==> a[k] != h
    ensures forall k :: j <= k < |b| ==> b[k] != h
  {
    var ab := a + b;
    var hi := if 0 < i && h == a[i - 1] then i - 1 else |a| + j - 1;
    assert ab[hi] == h;
    forall k | i <= k < |a|
      ensures a[k] != h
    {
      DistinctAt(ab, k, hi);
    }
    forall k | j <= k < |b|
      ensures b[k] != h
    {
      DistinctAt(ab, |a| + k, hi);
    }
  }

  /**
   * The state of `merge_two_list` after taking `i` slots of `a` and `j` of `b`: the slots taken so
   * far, `out`, are a prefix of the merge linked into a path that ends at `h`, and the `next`
   * entries of everything not yet taken are as they were in `next0`.
   */
  ghost predicate Merging(vals: seq<CString>, next0: seq<int>, next: seq<int>, a: seq<int>,
                          b: seq<int>, i: int, j: int, out: seq<int>, h: int)
  {
    Chain(next0, (a + [NIL])[0], a) && Chain(next0, (b + [NIL])[0], b) && Distinct(a + b) &&
    0 <= i <= |a| && 0 <= j <= |b| && |next| == |next0| &&
    out + Merge(vals, a[i..], b[j..]) == Merge(vals, a, b) &&
    h == (if out == [] then DUMMY else out[|out| - 1]) &&
    (out != [] ==> (0 < i && h == a[i - 1]) || (0 < j && h == b[j - 1])) &&
    InArena(next, out) && Distinct(out) && Path(next, out) &&
    (forall k :: i <= k < |a| ==> next[a[k]] == next0[a[k]]) &&
    (forall k :: j <= k < |b| ==> next[b[k]] == next0[b[k]]) &&
    (forall x :: 0 <= x < |next| && x !in a && x !in b ==> next[x] == next0[x])
  }

  /**
   * `h->next = x`, where `h` may be the on-stack list head (whose `next` is a local) or a node of
   * the arena.
   */
  function LinkAfter(next: seq<int>, h: int, x: int): seq<int>
    requires h == DUMMY || 0 <= h < |next|
  {
    if h == DUMMY then next else next[h := x]
  }

  /**
   * One iteration of the merge loop keeps its state: taking the front of the chain the comparison
   * picks and linking it after `h` leaves its successor in the old chain where it was.
   */
  lemma MergingStep(vals: seq<CString>, next0: seq<int>, next: seq<int>, a: seq<int>, b: seq<int>,
                    i: int, j: int, out: seq<int>, h: int)
    requires Merging(vals, next0, next, a, b, i, j, out, h) && i < |a| && j < |b|
    ensures h == DUMMY || 0 <= h < |next|
    ensures StrLeq(Key(vals, a[i]), Key(vals, b[j])) ==>
      var next' := LinkAfter(next, h, a[i]);
      next'[a[i]] == (a + [NIL])[i + 1] && Merging(vals, next0, next', a, b, i + 1, j, out + [a[i]], a[i])
    ensures !StrLeq(Key(vals, a[i]), Key(vals, b[j])) ==>
      var next' := LinkAfter(next, h, b[j]);
      next'[b[j]] == (b + [NIL])[j + 1] && Merging(vals, next0, next', a, b, i, j + 1, out + [b[j]], b[j])
  {
    if StrLeq(Key(vals, a[i]), Key(vals, b[j])) {
      MergingTakeLeft(vals, next0, next, a, b, i, j, out, h);
    } else {
      MergingTakeRight(vals, next0, next, a, b, i, j, out, h);
    }
  }

  /**
   * What linking a slot after `h` needs: the merge and both chains are distinct, and `h` is the
   * on-stack head or a merged slot, none of the slots still to be merged.
   */
  lemma MergingTake(vals: seq<CString>, next0: seq<int>, next: seq<int>, a: seq<int>, b: seq<int>,
                    i: int, j: int, out: seq<int>, h: int)
    requires Merging(vals, next0, next, a, b, i, j, out, h)
    ensures Distinct(Merge(vals, a, b)) && Distinct(a) && Distinct(b)
    ensures h == DUMMY || (0 <= h < |next| && h !in a[i..] && h !in b[j..])
  {
    var m := Merge(vals, a, b);
    MergeMultiset(vals, a, b);
    DistinctPreserved(a + b, m);
    DistinctAppend(a, b);
    if h != DUMMY {
      Consumed(a, b, i, j, h);
    }
  }

  /** The comparison picks the left chain: its front slot joins the merged path. */
  lemma MergingTakeLeft(vals: seq<CString>, next0: seq<int>, next: seq<int>, a: seq<int>,
                        b: seq<int>, i: int, j: int, out: seq<int>, h: int)
    requires Merging(vals, next0, next, a, b, i, j, out, h) && i < |a| && j < |b|
    requires StrLeq(Key(vals, a[i]), Key(vals, b[j]))
    ensures h == DUMMY || 0 <= h < |next|
    ensures var next' := LinkAfter(next, h, a[i]);
      next'[a[i]] == (a + [NIL])[i + 1] && Merging(vals, next0, next', a, b, i + 1, j, out + [a[i]], a[i])
  {
    MergingTake(vals, next0, next, a, b, i, j, out, h);
    var m := Merge(vals, a, b);
    MergeTakeStep(vals, a, b, i, j, out, m);
    DistinctAppend(out + [a[i]], Merge(vals, a[i + 1..], b[j..]));
    assert StepAt(next0, a + [NIL], i);
    var next' := LinkAfter(next, h, a[i]);
    if h != DUMMY {
      PathExtend(next, out, a[i]);
    }
    assert Path(next', out + [a[i]]);
  }

  /** The comparison picks the right chain: its front slot joins the merged path. */
  lemma MergingTakeRight(vals: seq<CString>, next0: seq<int>, next: seq<int>, a: seq<int>,
                         b: seq<int>, i: int, j: int, out: seq<int>, h: int)
    requires Merging(vals, next0, next, a, b, i, j, out, h) && i < |a| && j < |b|
    requires !StrLeq(Key(vals, a[i]), Key(vals, b[j]))
    ensures h == DUMMY || 0 <= h < |next|
    ensures var next' := LinkAfter(next, h, b[j]);
      next'[b[j]] == (b + [NIL])[j + 1] && Merging(vals, next0, next', a, b, i, j + 1, out + [b[j]], b[j])
  {
    MergingTake(vals, next0, next, a, b, i, j, out, h);
    var m := Merge(vals, a, b);
    MergeTakeStep(vals, a, b, i, j, out, m);
    DistinctAppend(out + [b[j]], Merge(vals, a[i..], b[j + 1..]));
    assert StepAt(next0, b + [NIL], j);
    var next' := LinkAfter(next, h, b[j]);
    if h != DUMMY {
      PathExtend(next, out, b[j]);
    }
    assert Path(next', out + [b[j]]);
  }

  /**
   * The loop ends with one chain used up: linking the rest of the other after `h` completes the
   * merge, and only `next` entries of merged slots have changed.
   */
  lemma MergingDone(vals: seq<CString>, next0: seq<int>, next: seq<int>, a: seq<int>, b: seq<int>,
                    i: int, j: int, out: seq<int>, h: int)
    requires Merging(vals, next0, next, a, b, i, j, out, h) && (i == |a| || j == |b|)
    ensures h == DUMMY || 0 <= h < |next|
    ensures var tail := if i < |a| then a[i] else (b + [NIL])[j];
      var next' := LinkAfter(next, h, tail);
      Chain(next', if h == DUMMY then tail else out[0], Merge(vals, a, b))
  {
    if i < |a| {
      MergingDoneLeft(vals, next0, next, a, b, i, j, out, h);
    } else {
      MergingDoneRight(vals, next0, next, a, b, i, j, out, h);
    }
  }

  /** The right chain is used up: the rest of the left one completes the merge. */
  lemma MergingDoneLeft(vals: seq<CString>, next0: seq<int>, next: seq<int>, a: seq<int>,
                        b: seq<int>, i: int, j: int, out: seq<int>, h: int)
    requires Merging(vals, next0, next, a, b, i, j, out, h) && i < |a| && j == |b|
    ensures h == DUMMY || 0 <= h < |next|
    ensures var next' := LinkAfter(next, h, a[i]);
      Chain(next', if h == DUMMY then a[i] else out[0], Merge(vals, a, b))
  {
    MergingTake(vals, next0, next, a, b, i, j, out, h);
    var next' := LinkAfter(next, h, a[i]);
    if h != DUMMY {
      PathExtend(next, out, a[i]);
    }
    assert Path(next', out);
    assert Merge(vals, a[i..], b[j..]) == a[i..];
    assert forall k :: i <= k < |a| ==> next'[a[k]] == next0[a[k]];
    MergeTail(next0, next', a, i, out);
  }

  /** The left chain is used up: the rest of the right one (possibly nothing) completes the merge. */
  lemma MergingDoneRight(vals: seq<CString>, next0: seq<int>, next: seq<int>, a: seq<int>,
                         b: seq<int>, i: int, j: int, out: seq<int>, h: int)
    requires Merging(vals, next0, next, a, b, i, j, out, h) && i == |a|
    ensures h == DUMMY || 0 <= h < |next|
    ensures var next' := LinkAfter(next, h, (b + [NIL])[j]);
      Chain(next', if h == DUMMY then (b + [NIL])[j] else out[0], Merge(vals, a, b))
  {
    MergingTake(vals, next0, next, a, b, i, j, out, h);
    var tail := (b + [NIL])[j];
    var next' := LinkAfter(next, h, tail);
    if h != DUMMY {
      PathExtend(next, out, tail);
    }
    assert Path(next', out);
    assert Merge(vals, a[i..], b[j..]) == b[j..];
    assert forall k :: j <= k < |b| ==> next'[b[k]] == next0[b[k]];
    MergeTail(next0, next', b, j, out);
  }

  /** Linking any slot after `h` changes no `next` entry outside the two chains. */
  lemma MergingFrame(vals: seq<CString>, next0: seq<int>, next: seq<int>, a: seq<int>, b: seq<int>,
                     i: int, j: int, out: seq<int>, h: int, y: int)
    requires Merging(vals, next0, next, a, b, i, j, out, h)
    ensures h == DUMMY || 0 <= h < |next|
    ensures var next' := LinkAfter(next, h, y);
      |next'| == |next0| && forall x :: 0 <= x < |next'| && x !in a && x !in b ==> next'[x] == next0[x]
  {
    if h != DUMMY {
      Consumed(a, b, i, j, h);
    }
  }

  /**
   * `merge_two_list`: merge the chains `a` (from `left`) and `b` (from `right`) by relinking
   * `next`, taking from the left chain while its string is `<=` the right one. Only the `next`
   * entries of the merged slots change.
   */
  method MergeTwoList(q: Queue, left: int, right: int, ghost a: seq<int>, ghost b: seq<int>)
    returns (r: int)
    requires |q.value| == |q.next|
    requires Chain(q.next, left, a) && Chain(q.next, right, b) && Distinct(a + b)
    modifies q
    ensures Chain(q.next, r, Merge(q.value, a, b))
    ensures q.prev == old(q.prev) && q.value == old(q.value) && q.elems == old(q.elems)
    ensures |q.next| == old(|q.next|)
    ensures forall x :: 0 <= x < |q.next| && x !in a && x !in b ==> q.next[x] == old(q.next[x])
  {
    if left == NIL && right == NIL {
      return NIL;
    }
    ghost var next0 := q.next;
    var left, right := left, right;
    var h := DUMMY;
    var first := NIL;
    ghost var i, j := 0, 0;
    ghost var out: seq<int> := [];
    while left != NIL && right != NIL
      invariant Merging(q.value, next0, q.next, a, b, i, j, out, h)
      invariant left == (a + [NIL])[i] && right == (b + [NIL])[j]
      invariant out != [] ==> first == out[0]
      invariant q.prev == old(q.prev) && q.value == old(q.value) && q.elems == old(q.elems)
      decreases |a| - i + |b| - j
    {
      MergingStep(q.value, next0, q.next, a, b, i, j, out, h);
      assert Key(q.value, left) == q.value[left] && Key(q.value, right) == q.value[right];
      if Strcmp(q.value[left], q.value[right]) <= 0 {
        if h == DUMMY {
          first := left;
        } else {
          q.next := q.next[h := left];
        }
        out, i := out + [left], i + 1;
        left := q.next[left];
        h := if h == DUMMY then first else q.next[h];
      } else {
        if h == DUMMY {
          first := right;
        } else {
          q.next := q.next[h := right];
        }
        out, j := out + [right], j + 1;
        right := q.next[right];
        h := if h == DUMMY then first else q.next[h];
      }
    }
    MergingDone(q.value, next0, q.next, a, b, i, j, out, h);
    MergingFrame(q.value, next0, q.next, a, b, i, j, out, h, if left != NIL then left else right);
    var tail := if left != NIL then left else right;
    if h == DUMMY {
      first := tail;
    } else {
      q.next := q.next[h := tail];
    }
    r := first;
  }

  /**
   * One step of the merge loop: the merge of what is left starts with the slot the comparison
   * picks, which is not yet among the merged slots `out`.
   */
  lemma MergeTakeStep(vals: seq<CString>, a: seq<int>, b: seq<int>, i: int, j: int, out: seq<int>,
                      m: seq<int>)
    requires 0 <= i < |a| && 0 <= j < |b| && out + Merge(vals, a[i..], b[j..]) == m && Distinct(m)
    ensures StrLeq(Key(vals, a[i]), Key(vals, b[j])) ==>
      (out + [a[i]]) + Merge(vals, a[i + 1..], b[j..]) == m && a[i] !in out
    ensures !StrLeq(Key(vals, a[i]), Key(vals, b[j])) ==>
      (out + [b[j]]) + Merge(vals, a[i..], b[j + 1..]) == m && b[j] !in out
  {
    assert a[i..][1..] == a[i + 1..] && b[j..][1..] == b[j + 1..];
    var x := Merge(vals, a[i..], b[j..])[0];
    assert m[|out|] == x;
    forall k | 0 <= k < |out|
      ensures out[k] != x
    {
      assert m[k] == out[k];
      DistinctAt(m, k, |out|);
    }
  }

  /**
   * The last step of `merge_two_list`: once the merged slots `out` lead to what is left of one
   * chain `w`, from entry `base` on, the merged slots and that rest form a NULL-terminated path.
   */
  lemma MergeTail(next0: seq<int>, next: seq<int>, w: seq<int>, base: int, out: seq<int>)
    requires Chain(next0, (w + [NIL])[0], w) && |next| == |next0| && 0 <= base <= |w|
    requires forall k :: base <= k < |w| ==> next[w[k]] == next0[w[k]]
    requires InArena(next, out) && Distinct(out + w[base..]) && Path(next, out)
    requires out != [] ==> next[out[|out| - 1]] == (w + [NIL])[base]
    ensures InArena(next, out + w[base..]) && Path(next, out + w[base..] + [NIL])
  {
    var p := w[base..] + [NIL];
    var wn := w + [NIL];
    assert p == wn[base..];
    forall k | 0 <= k < |p| - 1
      ensures StepAt(next, p, k)
    {
      assert StepAt(next0, wn, base + k);
    }
    forall k | 0 <= k < |out + w[base..]|
      ensures HEAD < (out + w[base..])[k] < |next|
    {
      if k >= |out| {
        assert (out + w[base..])[k] == w[base + k - |out|];
      }
    }
    if out != [] {
      PathJoin(next, out, p);
      assert out + p == out + w[base..] + [NIL];
    } else {
      assert out + w[base..] + [NIL] == p;
    }
  }

  /**
   * `merge_recur`: a chain of one slot is sorted already; otherwise split it after its first
   * `ceil(n / 2)` slots (the slow cursor steps once while the fast one steps twice), sort both
   * halves and merge them. Only the `next` entries of the chain's slots change.
   */
  method MergeRecur(q: Queue, head: int, ghost s: seq<int>) returns (r: int)
    requires |q.value| == |q.next| && s != [] && Chain(q.next, head, s)
    modifies q
    ensures Chain(q.next, r, MergeSort(q.value, s))
    ensures q.prev == old(q.prev) && q.value == old(q.value) && q.elems == old(q.elems)
    ensures |q.next| == old(|q.next|)
    ensures forall x :: 0 <= x < |q.next| && x !in s ==> q.next[x] == old(q.next[x])
    decreases |s|
  {
    ChainFirst(q.next, head, s);
    if q.next[head] == NIL {
      return head;
    }
    ghost var p := s + [NIL];
    var slow := head;
    var fast := q.next[head];
    ghost var k := 0;
    while fast != NIL && q.next[fast] != NIL
      modifies {}
      invariant 0 <= k && 2 * k + 1 <= |s| && slow == s[k] && fast == p[2 * k + 1]
      decreases |s| - 2 * k
    {
      assert StepAt(q.next, p, k) && StepAt(q.next, p, 2 * k + 1) && StepAt(q.next, p, 2 * k + 2);
      slow := q.next[slow];
      fast := q.next[q.next[fast]];
      k := k + 1;
    }
    if fast != NIL {
      assert StepAt(q.next, p, 2 * k + 1);
    }
    ghost var m := k + 1;
    assert m == (|s| + 1) / 2;
    assert StepAt(q.next, p, k);
    var mid := q.next[slow];
    ChainSplit(q.next, head, s, m);
    q.next := q.next[slow := NIL];
    ghost var sl, sr := s[..m], s[m..];
    ghost var next1 := q.next;

    var left := MergeRecur(q, head, sl);
    ghost var tl := MergeSort(q.value, sl);
    RightHalfKept(next1, q.next, mid, s, m);
    ghost var next2 := q.next;

    var right := MergeRecur(q, mid, sr);
    ghost var tr := MergeSort(q.value, sr);
    LeftSortedKept(q.value, next2, q.next, left, s, m);
    ghost var next3 := q.next;

    assert Distinct(tl + tr) by {
      Halves(q.value, s, m);
    }
    assert MergeSort(q.value, s) == Merge(q.value, tl, tr);
    r := MergeTwoList(q, left, right, tl, tr);
    FrameOutside(q.value, old(q.next), next1, next2, next3, q.next, s, m);
  }

  /**
   * The two halves `merge_recur` sorts are disjoint, as are their sorted versions, and every slot
   * outside the chain is outside all of them.
   */
  lemma Halves(vals: seq<CString>, s: seq<int>, m: int)
    requires Distinct(s) && 0 < m < |s|
    ensures forall x :: x in s[m..] ==> x !in s[..m]
    ensures forall x :: x in MergeSort(vals, s[..m]) ==> x !in s[m..]
    ensures Distinct(MergeSort(vals, s[..m]) + MergeSort(vals, s[m..]))
    ensures forall x :: x !in s ==>
      x !in s[..m] && x !in s[m..] && x !in MergeSort(vals, s[..m]) + MergeSort(vals, s[m..])
  {
    var sl, sr := s[..m], s[m..];
    var tl, tr := MergeSort(vals, sl), MergeSort(vals, sr);
    assert s == sl + sr;
    DistinctAppend(sl, sr);
    MergeSortMultiset(vals, sl);
    MergeSortMultiset(vals, sr);
    forall x | x in tl
      ensures x !in sr
    {
      assert x in multiset(sl);
    }
    assert multiset(tl + tr) == multiset(s);
    DistinctPreserved(s, tl + tr);
    forall x | x !in s
      ensures x !in tl + tr
    {
      assert x !in multiset(s);
    }
  }

  /** A chain stays a chain when `next` changes only at slots in `other`, which it avoids. */
  lemma ChainFrameOutside(next: seq<int>, next': seq<int>, h: int, s: seq<int>, other: seq<int>)
    requires Chain(next, h, s) && |next'| == |next|
    requires forall x :: 0 <= x < |next| && x !in other ==> next'[x] == next[x]
    requires forall x :: x in s ==> x !in other
    ensures Chain(next', h, s)
  {
    ChainFrame(next, next', h, s);
  }

  /** Sorting the left half changes `next` only at its slots, so the right half stays a chain. */
  lemma RightHalfKept(next: seq<int>, next': seq<int>, h: int, s: seq<int>, m: int)
    requires Distinct(s) && 0 < m < |s| && Chain(next, h, s[m..]) && |next'| == |next|
    requires forall x :: 0 <= x < |next| && x !in s[..m] ==> next'[x] == next[x]
    ensures Chain(next', h, s[m..])
  {
    assert s == s[..m] + s[m..];
    DistinctAppend(s[..m], s[m..]);
    ChainFrameOutside(next, next', h, s[m..], s[..m]);
  }

  /** Sorting the right half changes `next` only at its slots, so the sorted left half stays a chain. */
  lemma LeftSortedKept(vals: seq<CString>, next: seq<int>, next': seq<int>, h: int, s: seq<int>, m: int)
    requires Distinct(s) && 0 < m < |s| && Chain(next, h, MergeSort(vals, s[..m])) && |next'| == |next|
    requires forall x :: 0 <= x < |next| && x !in s[m..] ==> next'[x] == next[x]
    ensures Chain(next', h, MergeSort(vals, s[..m]))
  {
    Halves(vals, s, m);
    ChainFrameOutside(next, next', h, MergeSort(vals, s[..m]), s[m..]);
  }

  /** The steps of `merge_recur` each change `next` only at slots of the chain `s`. */
  lemma FrameOutside(vals: seq<CString>, n0: seq<int>, n1: seq<int>, n2: seq<int>, n3: seq<int>,
                     n4: seq<int>, s: seq<int>, m: int)
    requires Distinct(s) && 0 < m < |s|
    requires |n0| == |n1| == |n2| == |n3| == |n4|
    requires forall x :: 0 <= x < |n0| && x !in s ==> n1[x] == n0[x]
    requires forall x :: 0 <= x < |n1| && x !in s[..m] ==> n2[x] == n1[x]
    requires forall x :: 0 <= x < |n2| && x !in s[m..] ==> n3[x] == n2[x]
    requires forall x :: 0 <= x < |n3| && x !in MergeSort(vals, s[..m]) + MergeSort(vals, s[m..]) ==>
      n4[x] == n3[x]
    ensures forall x :: 0 <= x < |n4| && x !in s ==> n4[x] == n0[x]
  {
    Halves(vals, s, m);
  }

  /**
   * The first part of `q_sort` on a non-empty queue: cut the ring after its last element, sort
   * the chain with `merge_recur`, and hang the sorted chain off the sentinel.
   */
  method CutAndSort(head: Queue)
    requires head.Valid() && head.elems != []
    modifies head
    ensures head.prev == old(head.prev) && head.value == old(head.value)
    ensures head.elems == old(head.elems) && |head.value| == |head.next| == |head.prev| > 0
    ensures Chain(head.next, head.next[HEAD], MergeSort(head.value, head.elems))
  {
    RingCut(head.next, head.prev, head.elems);
    head.next := head.next[head.prev[HEAD] := NIL];
    var r := MergeRecur(head, head.next[HEAD], head.elems);
    ghost var t := MergeSort(head.value, head.elems);
    ghost var next1 := head.next;
    head.next := head.next[HEAD := r];
    assert HEAD !in t by {
      assert InArena(next1, t);
    }
    ChainFrame(next1, head.next, r, t);
  }

  /**
   * The ascending branch of `q_sort`: walk the sorted chain setting each node's `prev` to the
   * node before it, then close the ring through the sentinel.
   */
  method RelinkAscending(q: Queue, ghost t: seq<int>)
    requires |q.value| == |q.next| == |q.prev| > 0 && t != [] && Chain(q.next, q.next[HEAD], t)
    modifies q
    ensures q.Valid() && q.elems == t && q.value == old(q.value)
  {
    ghost var p := t + [NIL];
    var c := HEAD;
    var n := q.next[HEAD];
    ghost var i := 0;
    while n != NIL
      invariant 0 <= i <= |t| && c == (if i == 0 then HEAD else t[i - 1]) && n == p[i]
      invariant q.next == old(q.next) && q.value == old(q.value) && |q.prev| == |q.next|
      invariant 0 < i ==> q.prev[t[0]] == HEAD
      invariant forall k :: 0 < k < i ==> q.prev[t[k]] == t[k - 1]
      decreases |t| - i
    {
      assert StepAt(q.next, p, i);
      DistinctFrom(t, i);
      q.prev := q.prev[n := c];
      c := n;
      n := q.next[n];
      i := i + 1;
    }
    AscendingRing(q.next, q.prev, t);
    q.next := q.next[c := HEAD];
    q.prev := q.prev[HEAD := c];
    q.elems := t;
  }

  /**
   * After the ascending walk every node's `prev` names the node before it; closing the ring
   * through the sentinel at the last node makes it a ring in the chain's order.
   */
  lemma AscendingRing(next: seq<int>, prev: seq<int>, t: seq<int>)
    requires |next| > 0 && t != [] && Chain(next, next[HEAD], t) && |prev| == |next|
    requires prev[t[0]] == HEAD && forall k :: 0 < k < |t| ==> prev[t[k]] == t[k - 1]
    ensures RingOk(next[t[|t| - 1] := HEAD], prev[HEAD := t[|t| - 1]], t)
  {
    var last := t[|t| - 1];
    var next', prev' := next[last := HEAD], prev[HEAD := last];
    var r := Ring(t);
    var p := t + [NIL];
    forall k | 0 <= k < |r| - 1
      ensures LinkedAt(next', prev', r, k)
    {
      if k == 0 {
        assert r[1] == t[0] && prev[t[0]] == HEAD;
      } else if k < |t| {
        assert StepAt(next, p, k - 1);
        assert r[k] == t[k - 1] && r[k + 1] == t[k];
        DistinctAt(t, k - 1, |t| - 1);
      } else {
        assert r[k] == last && r[k + 1] == HEAD;
      }
    }
  }

  /**
   * The cursors of the descending walk before node `t[i]`: `n` is that node, `c` the one before
   * it (the sentinel at the start) and `b` the one after it (NULL at the end).
   */
  ghost predicate DescendingWalk(q: Queue, t: seq<int>, i: int, c: int, n: int, b: int)
    reads q
  {
    Reversing(q.next, q.prev, t, i) && n == t[i] && c == ([HEAD] + t)[i] && b == (t + [NIL])[i + 1]
  }

  /**
   * One round of the descending walk: point `n`'s `next` back at `c` and its `prev` at `b`, then
   * move the three cursors one node on.
   */
  method DescendingStep(q: Queue, ghost t: seq<int>, ghost i: int, c: int, n: int, b: int)
    returns (ghost i': int, c': int, n': int, b': int)
    requires DescendingWalk(q, t, i, c, n, b) && b != NIL
    modifies q
    ensures DescendingWalk(q, t, i', c', n', b') && i' == i + 1
    ensures |q.next| == old(|q.next|) && q.prev[HEAD] == old(q.prev[HEAD]) && q.value == old(q.value)
  {
    ReversingStep(q.next, q.prev, t, i);
    q.next := q.next[n := c];
    q.prev := q.prev[n := b];
    i' := i + 1;
    c' := n;
    n' := b;
    b' := q.next[b];
  }

  /** The sorted chain hanging off the sentinel is the descending walk's state before its first node. */
  lemma DescendingBegin(q: Queue, t: seq<int>)
    requires |q.value| == |q.next| == |q.prev| > 0 && t != [] && Chain(q.next, q.next[HEAD], t)
    ensures 0 <= q.next[HEAD] < |q.next|
    ensures DescendingWalk(q, t, 0, HEAD, q.next[HEAD], q.next[q.next[HEAD]])
  {
    ChainFirst(q.next, q.next[HEAD], t);
    ReversingStart(q.next, q.prev, t);
  }

  /**
   * When the walk runs out of nodes, `n` is the last node of the chain: pointing it back at `c`,
   * its `prev` at the sentinel and the sentinel's `next` at it makes the reversed chain a ring,
   * once the sentinel's `prev` names the chain's first node.
   */
  lemma DescendingEnd(q: Queue, t: seq<int>, i: int, c: int, n: int, b: int)
    requires DescendingWalk(q, t, i, c, n, b) && b == NIL
    ensures HEAD < n < |q.next| && |q.prev| == |q.next|
    ensures RingOk(q.next[n := c][HEAD := n], q.prev[n := HEAD][HEAD := t[0]], Reverse(t))
  {
    assert InArena(q.next, t);
    assert i == |t| - 1;
    DescendingRing(q.next, q.prev, t);
  }

  /**
   * The descending branch of `q_sort` as written: walk the sorted chain pointing each node's
   * `next` back at the node before it and its `prev` at the node after it, then make the last
   * node the new first. The sentinel's `prev` is not touched.
   */
  method RelinkDescending(q: Queue, ghost t: seq<int>)
    requires |q.value| == |q.next| == |q.prev| > 0 && t != [] && Chain(q.next, q.next[HEAD], t)
    modifies q
    ensures q.elems == Reverse(t) && q.value == old(q.value)
    ensures |q.value| == |q.next| == |q.prev| == old(|q.prev|)
    ensures q.prev[HEAD] == old(q.prev[HEAD])
    ensures RingOk(q.next, q.prev[HEAD := t[0]], q.elems)
  {
    DescendingBegin(q, t);
    var c := HEAD;
    var n := q.next[HEAD];
    var b := q.next[q.next[HEAD]];
    ghost var i := 0;
    while b != NIL
      invariant DescendingWalk(q, t, i, c, n, b)
      invariant |q.next| == old(|q.next|) && q.prev[HEAD] == old(q.prev[HEAD]) && q.value == old(q.value)
      decreases |t| - i
    {
      i, c, n, b := DescendingStep(q, t, i, c, n, b);
    }
    DescendingEnd(q, t, i, c, n, b);
    q.next := q.next[n := c];
    q.prev := q.prev[n := HEAD];
    q.next := q.next[HEAD := n];
    q.elems := Reverse(t);
  }

  /** The last node of the reversed chain is the chain's first. */
  lemma ReverseLast(t: seq<int>, e: seq<int>)
    requires t != [] && e == Reverse(t)
    ensures e != [] && e[|e| - 1] == t[0]
  {
    ReverseAt(t, |t| - 1);
  }

  /**
   * The state of the descending walk before node `t[i]`: the nodes before it point `next` back
   * and `prev` forward, the rest still form the sorted chain.
   */
  ghost predicate Reversing(next: seq<int>, prev: seq<int>, t: seq<int>, i: int) {
    0 <= i < |t| && InArena(next, t) && Distinct(t) && |prev| == |next| &&
    (0 < i ==> next[t[0]] == HEAD) &&
    (forall k :: 0 < k < i ==> next[t[k]] == t[k - 1]) &&
    (forall k :: 0 <= k < i ==> prev[t[k]] == t[k + 1]) &&
    (forall k :: i <= k < |t| - 1 ==> next[t[k]] == t[k + 1]) &&
    next[t[|t| - 1]] == NIL
  }

  /** The sorted chain is the walk's state before its first node. */
  lemma ReversingStart(next: seq<int>, prev: seq<int>, t: seq<int>)
    requires |next| > 0 && t != [] && Chain(next, next[HEAD], t) && |prev| == |next|
    ensures Reversing(next, prev, t, 0)
  {
    forall k | 0 <= k < |t|
      ensures next[t[k]] == (t + [NIL])[k + 1]
    {
      assert StepAt(next, t + [NIL], k);
    }
    assert next[t[|t| - 1]] == (t + [NIL])[|t|];
  }

  /** Turning node `t[i]` around moves the walk on to `t[i + 1]`, whose `next` is still intact. */
  lemma ReversingStep(next: seq<int>, prev: seq<int>, t: seq<int>, i: int)
    requires Reversing(next, prev, t, i) && i + 1 < |t|
    ensures Reversing(next[t[i] := ([HEAD] + t)[i]], prev[t[i] := t[i + 1]], t, i + 1)
    ensures next[t[i] := ([HEAD] + t)[i]][t[i + 1]] == (t + [NIL])[i + 2]
  {
    var next', prev' := next[t[i] := ([HEAD] + t)[i]], prev[t[i] := t[i + 1]];
    forall k | 0 <= k < i + 1
      ensures next'[t[k]] == ([HEAD] + t)[k] && prev'[t[k]] == t[k + 1]
    {
      if k < i {
        DistinctAt(t, k, i);
      }
    }
    forall k | i + 1 <= k < |t| - 1
      ensures next'[t[k]] == t[k + 1]
    {
      DistinctAt(t, k, i);
    }
    DistinctAt(t, |t| - 1, i);
  }

  /**
   * After the descending walk every node but the last points `next` at the node before it and
   * `prev` at the node after it; finishing the last node and the sentinel's `next` makes the
   * reversed chain a ring once the sentinel's `prev` names the first node of the chain.
   */
  lemma DescendingRing(next: seq<int>, prev: seq<int>, t: seq<int>)
    requires Reversing(next, prev, t, |t| - 1)
    ensures var L := |t|;
      RingOk(next[t[L - 1] := ([HEAD] + t)[L - 1]][HEAD := t[L - 1]],
             prev[t[L - 1] := HEAD][HEAD := t[0]], Reverse(t))
  {
    var L := |t|;
    var next' := next[t[L - 1] := ([HEAD] + t)[L - 1]][HEAD := t[L - 1]];
    var prev' := prev[t[L - 1] := HEAD][HEAD := t[0]];
    var e := Reverse(t);
    ReversedSlots(t, e, |next'|);
    forall k | 0 <= k < |e| + 1
      ensures LinkedAt(next', prev', Ring(e), k)
    {
      DescendingLinkAt(next, prev, t, e, k);
    }
    assert Linked(next', prev', Ring(e));
    ReverseMultiset(t);
    DistinctPreserved(t, e);
  }

  /** The reversal of a sequence of slots below `n` holds slots below `n`. */
  lemma ReversedSlots(t: seq<int>, e: seq<int>, n: int)
    requires (forall k :: 0 <= k < |t| ==> HEAD < t[k] < n) && e == Reverse(t)
    ensures forall k :: 0 <= k < |e| ==> HEAD < e[k] < n
  {
    forall k | 0 <= k < |e|
      ensures HEAD < e[k] < n
    {
      ReverseAt(t, k);
    }
  }

  /** One link of `DescendingRing`: entries `k` and `k + 1` of the ring through `e`, the reversal of `t`. */
  lemma DescendingLinkAt(next: seq<int>, prev: seq<int>, t: seq<int>, e: seq<int>, k: int)
    requires Reversing(next, prev, t, |t| - 1)
    requires e == Reverse(t) && 0 <= k <= |t|
    ensures var L := |t|;
      LinkedAt(next[t[L - 1] := ([HEAD] + t)[L - 1]][HEAD := t[L - 1]],
               prev[t[L - 1] := HEAD][HEAD := t[0]], Ring(e), k)
  {
    if k == 0 {
      DescendingLinkFirst(next, prev, t, e, k);
    } else if k < |t| {
      DescendingLinkMiddle(next, prev, t, e, k);
    } else {
      DescendingLinkLast(next, prev, t, e, k);
    }
  }

  /** The sentinel and the first node of the reversed ring, which is the last node of `t`. */
  lemma DescendingLinkFirst(next: seq<int>, prev: seq<int>, t: seq<int>, e: seq<int>, k: int)
    requires Reversing(next, prev, t, |t| - 1)
    requires e == Reverse(t) && k == 0
    ensures var L := |t|;
      LinkedAt(next[t[L - 1] := ([HEAD] + t)[L - 1]][HEAD := t[L - 1]],
               prev[t[L - 1] := HEAD][HEAD := t[0]], Ring(e), k)
  {
    var last := t[|t| - 1];
    assert HEAD < last < |next| == |prev| by {
      assert InArena(next, t);
    }
    ReverseAt(t, 0);
    assert Ring(e)[0] == HEAD && Ring(e)[1] == e[0] == last;
  }

  /** Two neighbouring nodes of the reversed ring: entry `k - 1` of `e` is `t[L - k]`. */
  lemma DescendingLinkMiddle(next: seq<int>, prev: seq<int>, t: seq<int>, e: seq<int>, k: int)
    requires Reversing(next, prev, t, |t| - 1)
    requires e == Reverse(t) && 0 < k < |t|
    ensures var L := |t|;
      LinkedAt(next[t[L - 1] := ([HEAD] + t)[L - 1]][HEAD := t[L - 1]],
               prev[t[L - 1] := HEAD][HEAD := t[0]], Ring(e), k)
  {
    var L := |t|;
    var r := Ring(e);
    ReverseAt(t, k - 1);
    ReverseAt(t, k);
    assert r[k] == e[k - 1] == t[L - k] && r[k + 1] == e[k] == t[L - 1 - k];
    DistinctAt(t, L - 1 - k, L - 1);
    if k > 1 {
      DistinctAt(t, L - k, L - 1);
    }
  }

  /** The last node of the reversed ring, which is the first node of `t`, and the sentinel. */
  lemma DescendingLinkLast(next: seq<int>, prev: seq<int>, t: seq<int>, e: seq<int>, k: int)
    requires Reversing(next, prev, t, |t| - 1)
    requires e == Reverse(t) && k == |t|
    ensures var L := |t|;
      LinkedAt(next[t[L - 1] := ([HEAD] + t)[L - 1]][HEAD := t[L - 1]],
               prev[t[L - 1] := HEAD][HEAD := t[0]], Ring(e), k)
  {
    var L := |t|;
    ReverseAt(t, L - 1);
    assert Ring(e)[k] == e[L - 1] == t[0];
    if L > 1 {
      DistinctAt(t, 0, L - 1);
    }
  }

  /**
   * `q_sort`, with the sentinel's `prev` set to the new last node in the descending branch (see
   * `QSortAsWritten`): the queue is sorted stably by `strcmp`, ascending, or descending by
   * reversing the stable ascending order.
   */
  method QSort(head: Queue?, descend: bool)
    requires head != null ==> head.Valid()
    modifies head
    ensures head != null ==> head.Valid() && head.value == old(head.value)
    ensures head != null ==>
      head.elems == (var t := MergeSort(old(head.value), old(head.elems)); if descend then Reverse(t) else t)
    ensures head != null ==> multiset(head.Contents()) == multiset(old(head.Contents()))
    ensures head != null && !descend ==> Ascending(head.Contents())
    ensures head != null && descend ==> Descending(head.Contents())
  {
    if head == null {
      return;
    }
    ghost var vals, s := head.value, head.elems;
    ghost var t := MergeSort(vals, s);
    if head.IsEmpty() {
      SortOutcome(vals, s, descend);
      return;
    }
    MergeSortMultiset(vals, s);
    CutAndSort(head);
    var first := head.next[HEAD];
    ChainFirst(head.next, first, t);
    if !descend {
      RelinkAscending(head, t);
    } else {
      RelinkDescending(head, t);
      ghost var relinked := head.prev;
      head.prev := head.prev[HEAD := first];
      assert head.prev == relinked[HEAD := t[0]];
    }
    SortOutcome(vals, s, descend);
  }

  /**
   * `q_sort` exactly as written: in the descending branch the sentinel's `prev` keeps the old
   * last node, so the links read forwards are the descending order but the ring is broken unless
   * that node is the new last one. The strings and their order are what `QSort` promises.
   */
  method QSortAsWritten(head: Queue?, descend: bool)
    requires head != null ==> head.Valid()
    modifies head
    ensures head != null ==> head.value == old(head.value) && |head.prev| == old(|head.prev|)
    ensures head != null && (!descend || old(head.elems) == []) ==>
      head.Valid() && head.elems == MergeSort(old(head.value), old(head.elems))
    ensures head != null && descend && old(head.elems) != [] ==>
      var t := MergeSort(old(head.value), old(head.elems));
      head.elems == Reverse(t) && head.elems != [] && head.prev[HEAD] == old(head.prev[HEAD]) &&
      RingOk(head.next, head.prev[HEAD := head.elems[|head.elems| - 1]], head.elems)
    ensures head != null ==> multiset(head.Contents()) == multiset(old(head.Contents()))
    ensures head != null && !descend ==> Ascending(head.Contents())
    ensures head != null && descend ==> Descending(head.Contents())
  {
    if head == null {
      return;
    }
    ghost var vals, s := head.value, head.elems;
    if head.IsEmpty() {
      SortOutcome(vals, s, false);
      return;
    }
    ghost var t := MergeSort(vals, s);
    MergeSortMultiset(vals, s);
    CutAndSort(head);
    if !descend {
      RelinkAscending(head, t);
    } else {
      RelinkDescending(head, t);
      ReverseLast(t, head.elems);
    }
    SortOutcome(vals, s, descend);
  }

  /**
   * What the stale `prev` does: whenever the old tail is not the node the descending order ends
   * with, the descending result is not a ring, whatever the other links are.
   */
  lemma StaleTailBreaksRing(next: seq<int>, prev: seq<int>, t: seq<int>)
    requires t != [] && |prev| > 0 && prev[HEAD] != t[0]
    ensures !RingOk(next, prev, Reverse(t))
  {
    if RingOk(next, prev, Reverse(t)) {
      RingEmpty(next, prev, Reverse(t));
      ReverseAt(t, |t| - 1);
    }
  }

  /** The strings of a queue built by inserting "a" and then "b" at the tail, in slots 1 and 2. */
  const AB: seq<CString> := [[], "a", "b"]

  /**
   * A counterexample: sorting the queue "a", "b" in descending order with `QSortAsWritten` keeps
   * slot 2 as the sentinel's `prev`, but the descending queue ends with slot 1, so the result is
   * not a ring (walking backwards from the sentinel meets "b" first instead of "a").
   */
  lemma AsWrittenDescendingSortOfAB(next: seq<int>, prev: seq<int>)
    requires |prev| > 0 && prev[HEAD] == 2
    ensures MergeSort(AB, [1, 2]) == [1, 2]
    ensures !RingOk(next, prev, Reverse(MergeSort(AB, [1, 2])))
  {
    assert Strcmp("a", "b") < 0;
    assert [1, 2][..1] == [1] && [1, 2][1..] == [2];
    assert Merge(AB, [1], [2]) == [1] + Merge(AB, [], [2]);
    StaleTailBreaksRing(next, prev, [1, 2]);
  }

  /** The only descending arrangement of the strings "a" and "b" is "b", "a". */
  lemma DescendingAB(c: seq<CString>)
    requires multiset(c) == multiset(["a", "b"]) && Descending(c)
    ensures c == ["b", "a"]
  {
    assert |c| == |multiset(c)| == 2;
    assert c == [c[0]] + [c[1]];
    assert multiset(c) == multiset{c[0], c[1]};
    assert Strcmp("b", "a") > 0;
  }

  /**
   * The same counterexample run through the queue operations: a new queue, "a" and then "b"
   * inserted at the tail, then the descending sort as written. The strings come out as "b", "a",
   * but the sentinel still points back to the node holding "b", so the queue is not a ring.
   */
  method AsWrittenDescendingSortRun() returns (head: Queue)
    ensures head.Contents() == ["b", "a"]
    ensures !head.Valid()
  {
    var h := QueueOps.QNew(true);
    head := h;
    var ok := QueueOps.QInsertTail(head, "a", true, true);
    ok := QueueOps.QInsertTail(head, "b", true, true);
    assert head.Contents() == ["a", "b"];
    RingEmpty(head.next, head.prev, head.elems);
    assert Key(head.value, head.prev[HEAD]) == "b";
    ghost var t := MergeSort(head.value, head.elems);
    QSortAsWritten(head, true);
    DescendingAB(head.Contents());
    ReverseAt(t, 1);
    assert Key(head.value, t[0]) == "a";
    StaleTailBreaksRing(head.next, head.prev, t);
  }
}
