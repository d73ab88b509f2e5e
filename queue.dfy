/**
 * The queue operations of `queue.c` other than sorting, over the arena. Each takes the queue
 * handle, which may be NULL; allocation results are parameters because whether `malloc` or
 * `strdup` succeeds is decided outside the queue.
 */
module QueueOps {
  import opened StrOrder
  import opened Sequences
  import opened MergeSortSpec
  import opened ListArena

  datatype Option<T> = None | Some(value: T)

  /** `q_new`: a fresh empty queue, or NULL when `malloc` fails. */
  method QNew(mallocOk: bool) returns (head: Queue?)
    ensures mallocOk <==> head != null
    ensures head != null ==> fresh(head) && head.Valid() && head.Contents() == []
  {
    if !mallocOk {
      return null;
    }
    head := new Queue();
  }

  /**
   * `q_free`: release every element, walking from the front and reading each successor before
   * releasing the node. Releasing takes the node out of the ring, so the queue ends up empty.
   */
  method QFree(head: Queue?)
    requires head != null ==> head.Valid()
    modifies head
    ensures head != null ==> head.Valid() && head.elems == [] && head.Contents() == []
  {
    if head == null {
      return;
    }
    ghost var all := head.elems;
    ghost var i := 0;
    RingNext(head.next, head.prev, head.elems, 0);
    var entry := head.next[HEAD];
    while entry != HEAD
      invariant head.Valid() && 0 <= i <= |all| && head.elems == all[i..]
      invariant entry == Ring(head.elems)[1]
      invariant entry == HEAD <==> head.elems == []
      decreases |head.elems|
    {
      ghost var e := head.elems;
      RingNext(head.next, head.prev, e, 1);
      var safe := head.next[entry];
      head.ListDel(entry, 0);
      assert head.elems == e[1..] == all[i + 1..];
      RingNext(head.next, head.prev, head.elems, 0);
      entry := safe;
      i := i + 1;
    }
  }

  /**
   * `q_insert_head`: false on a NULL queue or when either allocation fails, leaving the queue as
   * it was (a node whose string could not be copied is freed again); otherwise `s` goes in front.
   */
  method QInsertHead(head: Queue?, s: CString, mallocOk: bool, strdupOk: bool) returns (ok: bool)
    requires head != null ==> head.Valid()
    modifies head
    ensures ok <==> head != null && mallocOk && strdupOk
    ensures head != null ==> head.Valid()
    ensures head != null && ok ==> head.Contents() == [s] + old(head.Contents())
    ensures head != null && !ok ==> unchanged(head)
  {
    if head == null || !mallocOk || !strdupOk {
      return false;
    }
    var node := head.NewNode(s);
    head.ListAdd(node, HEAD, 0);
    ok := true;
  }

  /** `q_insert_tail`: as `q_insert_head`, but `s` goes at the back. */
  method QInsertTail(head: Queue?, s: CString, mallocOk: bool, strdupOk: bool) returns (ok: bool)
    requires head != null ==> head.Valid()
    modifies head
    ensures ok <==> head != null && mallocOk && strdupOk
    ensures head != null ==> head.Valid()
    ensures head != null && ok ==> head.Contents() == old(head.Contents()) + [s]
    ensures head != null && !ok ==> unchanged(head)
  {
    if head == null || !mallocOk || !strdupOk {
      return false;
    }
    var node := head.NewNode(s);
    head.ListAddTail(node);
    ok := true;
  }

  /** The string a reader of `buf` sees: everything before the first NUL. */
  function ReadCString(buf: seq<char>): (r: CString)
    ensures |r| <= |buf| && r == buf[..|r|]
  {
    if buf == [] || buf[0] == '\0' then [] else [buf[0]] + ReadCString(buf[1..])
  }

  /**
   * `memcpy(sp, value, bufsize - 1); sp[bufsize - 1] = '\0';`: the first `bufsize - 1` bytes of
   * the string with its terminator, then a terminator. The copy reads the string's bytes, so it
   * needs `bufsize - 1` to be at most the string's length plus its terminator.
   */
  method CopyOut(sp: array<char>, v: CString, bufsize: int)
    requires 1 <= bufsize <= sp.Length && bufsize - 1 <= |v| + 1
    modifies sp
    ensures sp[..bufsize - 1] == (v + ['\0'])[..bufsize - 1] && sp[bufsize - 1] == '\0'
    ensures sp[bufsize..] == old(sp[bufsize..])
  {
    forall i | 0 <= i < bufsize - 1 {
      sp[i] := (v + ['\0'])[i];
    }
    sp[bufsize - 1] := '\0';
  }

  /**
   * What the copy means to the caller: the buffer reads back as the removed string cut to
   * `bufsize - 1` characters, never reading past the buffer's terminator.
   */
  lemma {:induction false} CopyOutReadsBack(buf: seq<char>, v: CString, bufsize: int)
    requires 1 <= bufsize <= |buf| && bufsize - 1 <= |v| + 1
    requires buf[..bufsize - 1] == (v + ['\0'])[..bufsize - 1] && buf[bufsize - 1] == '\0'
    ensures ReadCString(buf) == v[..if |v| < bufsize - 1 then |v| else bufsize - 1]
  {
    if v == [] || bufsize == 1 {
      assert buf[0] == '\0';
    } else {
      assert v[0] in v;
      assert buf[0] == v[0];
      assert (v + ['\0'])[1..] == v[1..] + ['\0'];
      assert buf[1..][..bufsize - 2] == buf[..bufsize - 1][1..];
      assert (v[1..] + ['\0'])[..bufsize - 2] == (v + ['\0'])[..bufsize - 1][1..];
      CopyOutReadsBack(buf[1..], v[1..], bufsize - 1);
    }
  }

  /**
   * `q_remove_head`: NULL on a NULL or empty queue, with nothing changed. Otherwise the front
   * element is unlinked and handed to the caller; when `sp` is given it receives the element's
   * string, cut to `bufsize - 1` bytes and terminated.
   */
  method QRemoveHead(head: Queue?, sp: array?<char>, bufsize: int) returns (removed: Option<CString>)
    requires head != null ==> head.Valid()
    requires head != null && head.elems != [] && sp != null ==>
      1 <= bufsize <= sp.Length && bufsize - 1 <= |head.Contents()[0]| + 1
    modifies head, sp
    ensures head == null || old(head.Contents()) == [] ==> removed == None
    ensures head != null ==> head.Valid()
    ensures head != null && old(head.Contents()) == [] ==> unchanged(head)
    ensures removed == None && sp != null ==> unchanged(sp)
    ensures head != null && old(head.Contents()) != [] ==>
      removed == Some(old(head.Contents())[0]) && head.Contents() == old(head.Contents())[1..]
    ensures removed.Some? && sp != null ==>
      sp[..bufsize - 1] == (removed.value + ['\0'])[..bufsize - 1] && sp[bufsize - 1] == '\0' &&
      sp[bufsize..] == old(sp[bufsize..])
  {
    if head == null || head.IsEmpty() {
      return None;
    }
    var node := head.First();
    var v := head.value[node];
    if sp != null {
      CopyOut(sp, v, bufsize);
    }
    head.ListDel(node, 0);
    removed := Some(v);
  }

  /** `q_remove_tail`: as `q_remove_head`, for the back element. */
  method QRemoveTail(head: Queue?, sp: array?<char>, bufsize: int) returns (removed: Option<CString>)
    requires head != null ==> head.Valid()
    requires head != null && head.elems != [] && sp != null ==>
      1 <= bufsize <= sp.Length && bufsize - 1 <= |head.Contents()[|head.elems| - 1]| + 1
    modifies head, sp
    ensures head == null || old(head.Contents()) == [] ==> removed == None
    ensures head != null ==> head.Valid()
    ensures head != null && old(head.Contents()) == [] ==> unchanged(head)
    ensures removed == None && sp != null ==> unchanged(sp)
    ensures head != null && old(head.Contents()) != [] ==>
      var n := |old(head.Contents())|;
      removed == Some(old(head.Contents())[n - 1]) && head.Contents() == old(head.Contents())[..n - 1]
    ensures removed.Some? && sp != null ==>
      sp[..bufsize - 1] == (removed.value + ['\0'])[..bufsize - 1] && sp[bufsize - 1] == '\0' &&
      sp[bufsize..] == old(sp[bufsize..])
  {
    if head == null || head.IsEmpty() {
      return None;
    }
    var node := head.Last();
    var v := head.value[node];
    if sp != null {
      CopyOut(sp, v, bufsize);
    }
    head.ListDel(node, |head.elems| - 1);
    removed := Some(v);
  }

  /** `q_size`: counts the elements by walking the ring; 0 for a NULL or empty queue. */
  method QSize(head: Queue?) returns (n: int)
    requires head != null ==> head.Valid()
    ensures n == if head == null then 0 else |head.Contents()|
  {
    if head == null || head.IsEmpty() {
      return 0;
    }
    ghost var s := head.elems;
    n := 0;
    WalkStart(head.next, head.prev, s);
    var node := head.next[HEAD];
    while node != HEAD
      invariant 0 <= n <= |s|
      invariant n < |s| ==> HEAD < node && node == s[n]
      invariant n == |s| ==> node == HEAD
      decreases |s| - n
    {
      WalkFrom(head.next, head.prev, s, n);
      n := n + 1;
      node := head.next[node];
    }
  }

  /**
   * The two-cursor scan of `q_delete_mid`: `slow` starts at the first node and `fast` at the one
   * after it; each round `slow` steps one node and `fast` two, until `fast` is the sentinel or the
   * last node. `slow` is then the node at index `(n - 1) / 2`, the lower middle when `n` is even.
   */
  method MiddleNode(head: Queue) returns (slow: int, ghost k: int)
    requires head.Valid() && head.elems != []
    ensures slow == head.elems[(|head.elems| - 1) / 2]
    ensures 0 <= k < |head.elems| && k == (|head.elems| - 1) / 2 && slow == head.elems[k]
  {
    ghost var s := head.elems;
    ghost var n := |s|;
    WalkStart(head.next, head.prev, s);
    WalkFrom(head.next, head.prev, s, 0);
    slow := head.next[HEAD];
    var fast := head.next[head.next[HEAD]];
    k := 0;
    if 1 < n {
      WalkFrom(head.next, head.prev, s, 1);
    }
    while fast != HEAD && head.next[fast] != HEAD
      invariant 0 <= k && 2 * k + 1 <= n
      invariant HEAD < slow && slow == s[k]
      invariant 2 * k + 1 < n ==> HEAD < fast && fast == s[2 * k + 1]
      invariant 2 * k + 1 == n ==> fast == HEAD
      invariant 2 * k + 1 < n ==> head.next[fast] == if 2 * k + 2 < n then s[2 * k + 2] else HEAD
      invariant 2 * k + 2 < n ==> HEAD < s[2 * k + 2]
      decreases n - 2 * k
    {
      WalkFrom(head.next, head.prev, s, k);
      WalkFrom(head.next, head.prev, s, 2 * k + 2);
      if 2 * k + 3 < n {
        WalkFrom(head.next, head.prev, s, 2 * k + 3);
      }
      if 2 * k + 4 < n {
        WalkFrom(head.next, head.prev, s, 2 * k + 4);
      }
      slow := head.next[slow];
      fast := head.next[head.next[fast]];
      k := k + 1;
    }
  }

  /**
   * `q_delete_mid`: false on a NULL or empty queue. Otherwise the node the two-cursor scan stops
   * at, index `(n - 1) / 2`, is removed and released.
   */
  method QDeleteMid(head: Queue?) returns (ok: bool)
    requires head != null ==> head.Valid()
    modifies head
    ensures ok <==> head != null && old(head.Contents()) != []
    ensures head != null ==> head.Valid()
    ensures head != null && !ok ==> unchanged(head)
    ensures ok ==> head.Contents() == RemoveAt(old(head.Contents()), (|old(head.Contents())| - 1) / 2)
  {
    if head == null || head.IsEmpty() {
      return false;
    }
    var slow;
    ghost var k;
    slow, k := MiddleNode(head);
    head.ListDel(slow, k);
    ok := true;
  }

  /** Where a walk from the sentinel starts: the front node, which is followed by the second. */
  lemma WalkFront(next: seq<int>, prev: seq<int>, s: seq<int>)
    requires RingOk(next, prev, s)
    ensures 0 < |next| && next[HEAD] == if s == [] then HEAD else s[0]
    ensures s != [] ==> HEAD < s[0] < |next| && next[s[0]] == if 1 < |s| then s[1] else HEAD
    ensures 1 < |s| ==> HEAD < s[1]
  {
    WalkStart(next, prev, s);
    if s != [] {
      WalkFrom(next, prev, s, 0);
    }
    if 1 < |s| {
      WalkFrom(next, prev, s, 1);
    }
  }

  /**
   * The state of the `q_swap` loop over the queue that held the slots `s`: the pairs already
   * swapped, `done`, are in front of the nodes still to do, `rest`, and swapping what is left
   * completes the swap of `s`; `node` is the first node still to do (the sentinel when none is
   * left) and `safe` the one after it.
   */
  ghost predicate SwapLoop(q: Queue, s: seq<int>, done: seq<int>, rest: seq<int>, node: int, safe: int)
    reads q
  {
    q.Valid() && q.elems == done + rest && done + SwapPairs(rest) == SwapPairs(s) &&
    node == (if rest == [] then HEAD else rest[0]) &&
    (rest != [] ==> HEAD < node && safe == if 1 < |rest| then rest[1] else HEAD) &&
    (1 < |rest| ==> HEAD < safe)
  }

  /** The loop starts with `node = head->next` and `safe = node->next`, and nothing swapped. */
  lemma SwapBegin(q: Queue)
    requires q.Valid()
    ensures 0 < |q.next| && 0 <= q.next[HEAD] < |q.next|
    ensures SwapLoop(q, q.elems, [], q.elems, q.next[HEAD], q.next[q.next[HEAD]])
  {
    WalkFront(q.next, q.prev, q.elems);
    AppendEmpty(q.elems);
    AppendEmpty(SwapPairs(q.elems));
  }

  /**
   * The body of the `q_swap` loop: `list_move(node, safe)` puts the pair's first node after its
   * partner, then `node = node->next` and `safe = node->next` step to the next pair.
   */
  method SwapStep(head: Queue, ghost s: seq<int>, ghost done: seq<int>, ghost rest: seq<int>,
                  node: int, safe: int)
    returns (ghost done': seq<int>, ghost rest': seq<int>, node': int, safe': int)
    requires SwapLoop(head, s, done, rest, node, safe) && node != HEAD && safe != HEAD
    modifies head
    ensures SwapLoop(head, s, done', rest', node', safe') && head.value == old(head.value)
    ensures |rest'| < |rest|
  {
    SwapAt(done, rest);
    head.ListMove(node, safe, |done|, |done| + 1);
    rest' := SwapMoved(done, rest, head.elems, head.next, head.prev);
    done' := done + [safe, node];
    if 1 < |rest'| {
      assert head.elems[|done'| + 1] == rest'[1];
      WalkFrom(head.next, head.prev, head.elems, |done'| + 1);
    }
    node' := head.next[node];
    safe' := head.next[node'];
  }

  /** When no complete pair is left, the slots and the strings are those of `s` swapped pairwise. */
  lemma SwapEnd(q: Queue, s: seq<int>, done: seq<int>, rest: seq<int>, node: int, safe: int)
    requires SwapLoop(q, s, done, rest, node, safe) && (node == HEAD || safe == HEAD)
    ensures q.Valid() && q.elems == SwapPairs(s) && q.Contents() == SwapPairs(Values(q.value, s))
  {
    assert |rest| < 2 && SwapPairs(rest) == rest;
    ValuesSwapPairs(q.value, s);
  }

  /**
   * `q_swap`: walk the queue a pair at a time and move the first node of each pair after the
   * second. Stops when no complete pair is left.
   */
  method QSwap(head: Queue?)
    requires head != null ==> head.Valid()
    modifies head
    ensures head != null ==> head.Valid() && head.value == old(head.value)
    ensures head != null ==> head.elems == SwapPairs(old(head.elems))
    ensures head != null ==> head.Contents() == SwapPairs(old(head.Contents()))
  {
    if head == null {
      return;
    }
    ghost var s := head.elems;
    ghost var done: seq<int> := [];
    ghost var rest := s;
    SwapBegin(head);
    var node := head.next[HEAD];
    var safe := head.next[node];
    while node != HEAD && safe != HEAD
      invariant SwapLoop(head, s, done, rest, node, safe) && head.value == old(head.value)
      decreases |rest|
    {
      done, rest, node, safe := SwapStep(head, s, done, rest, node, safe);
    }
    SwapEnd(head, s, done, rest, node, safe);
  }

  /**
   * Before a move of `q_swap`, with the swapped pairs `done` in front of the unswapped nodes
   * `rest`: the pair's first node is at index `|done|`, and once it is out its partner sits at
   * ring position `|done| + 1`.
   */
  lemma SwapAt(done: seq<int>, rest: seq<int>)
    requires 1 < |rest|
    ensures (done + rest)[|done|] == rest[0] && Ring(RemoveAt(done + rest, |done|))[|done| + 1] == rest[1]
  {
    assert RemoveAt(done + rest, |done|) == done + rest[1..];
  }

  /**
   * One move of `q_swap`: node `rest[0]` goes after its partner `rest[1]`. The pair joins the
   * swapped ones, swapping what is left still completes the swap, the moved node is followed by
   * the next pair's first node (or by the sentinel), and that node by its partner.
   */
  lemma SwapMoved(done: seq<int>, rest: seq<int>, e: seq<int>, next: seq<int>, prev: seq<int>)
    returns (tail: seq<int>)
    requires 1 < |rest| && e == InsertAt(RemoveAt(done + rest, |done|), |done| + 1, rest[0])
    requires RingOk(next, prev, e)
    ensures rest == [rest[0], rest[1]] + tail && e == done + [rest[1], rest[0]] + tail
    ensures (done + [rest[1], rest[0]]) + SwapPairs(tail) == done + SwapPairs(rest)
    ensures HEAD < rest[0] < |next| && next[rest[0]] == if tail == [] then HEAD else tail[0]
    ensures tail != [] ==> HEAD < tail[0] < |next| && next[tail[0]] == if 1 < |tail| then tail[1] else HEAD
  {
    tail := rest[2..];
    MoveAfterNext(done, rest);
    SwapPairsFrontAppend(done, rest);
    assert e[|done| + 1] == rest[0];
    WalkFrom(next, prev, e, |done| + 1);
    if tail != [] {
      assert e[|done| + 2] == tail[0];
      WalkFrom(next, prev, e, |done| + 2);
      if 1 < |tail| {
        assert e[|done| + 3] == tail[1];
      }
    }
  }

  /**
   * One move of `q_reverse`: node `rest[0]`, next in line just after the nodes already moved,
   * goes to the front. It joins the moved nodes, the reversal of the remaining nodes followed by
   * the moved ones is unchanged, and in the relinked ring the new node in line is followed by the
   * one after it (or by the sentinel).
   */
  lemma ReverseMoved(done: seq<int>, rest: seq<int>, e: seq<int>, next: seq<int>, prev: seq<int>)
    returns (tail: seq<int>)
    requires rest != [] && e == InsertAt(RemoveAt(done + rest, |done|), 0, rest[0])
    requires RingOk(next, prev, e)
    ensures rest == [rest[0]] + tail && e == [rest[0]] + done + tail
    ensures Reverse(tail) + ([rest[0]] + done) == Reverse(rest) + done
    ensures tail != [] ==> HEAD < tail[0] < |next| && next[tail[0]] == if 1 < |tail| then tail[1] else HEAD
  {
    tail := rest[1..];
    MoveToFront(done, rest);
    ReverseFrontAppend(rest, done);
    if tail != [] {
      assert e[|done| + 1] == tail[0];
      WalkFrom(next, prev, e, |done| + 1);
      if 1 < |tail| {
        assert e[|done| + 2] == tail[1];
      }
    }
  }

  /**
   * The state of the `q_reverse` loop over the queue that held the slots `s`: the nodes already
   * moved to the front, `done`, are followed by those still to move, `rest`, and the reversal of
   * `rest` followed by `done` is the reversal of `s`; `node` is the next node to move (the
   * sentinel when none is left) and `safe` the one after it.
   */
  ghost predicate ReverseLoop(q: Queue, s: seq<int>, done: seq<int>, rest: seq<int>, node: int, safe: int)
    reads q
  {
    q.Valid() && q.elems == done + rest && Reverse(rest) + done == Reverse(s) &&
    node == (if rest == [] then HEAD else rest[0]) &&
    (rest != [] ==> HEAD < node && safe == if 1 < |rest| then rest[1] else HEAD)
  }

  /** The loop starts with `node = head->next` and `safe = node->next`, and nothing moved. */
  lemma ReverseBegin(q: Queue)
    requires q.Valid()
    ensures 0 < |q.next| && 0 <= q.next[HEAD] < |q.next|
    ensures ReverseLoop(q, q.elems, [], q.elems, q.next[HEAD], q.next[q.next[HEAD]])
  {
    WalkFront(q.next, q.prev, q.elems);
    AppendEmpty(q.elems);
    AppendEmptyRight(Reverse(q.elems));
  }

  /**
   * The body of the `q_reverse` loop: `list_move(node, head)` puts the next node in line in front
   * of the queue, then `node = safe` and `safe = node->next` step to the following one.
   */
  method ReverseStep(head: Queue, ghost s: seq<int>, ghost done: seq<int>, ghost rest: seq<int>,
                     node: int, safe: int)
    returns (ghost done': seq<int>, ghost rest': seq<int>, node': int, safe': int)
    requires ReverseLoop(head, s, done, rest, node, safe) && node != HEAD
    modifies head
    ensures ReverseLoop(head, s, done', rest', node', safe') && head.value == old(head.value)
    ensures |rest'| < |rest|
  {
    head.ListMove(node, HEAD, |done|, 0);
    rest' := ReverseMoved(done, rest, head.elems, head.next, head.prev);
    done' := [node] + done;
    node' := safe;
    WalkStart(head.next, head.prev, head.elems);
    safe' := head.next[node'];
  }

  /** When every node has moved, the slots and the strings are those of `s` reversed. */
  lemma ReverseEnd(q: Queue, s: seq<int>, done: seq<int>, rest: seq<int>, node: int, safe: int)
    requires ReverseLoop(q, s, done, rest, node, safe) && node == HEAD
    ensures q.Valid() && q.elems == Reverse(s) && q.Contents() == Reverse(Values(q.value, s))
  {
    assert rest == [] && Reverse(rest) + done == done;
    ValuesReverse(q.value, s);
  }

  /** `q_reverse`: move every node, from the front to the back, to the front of the queue. */
  method QReverse(head: Queue?)
    requires head != null ==> head.Valid()
    modifies head
    ensures head != null ==> head.Valid() && head.value == old(head.value)
    ensures head != null ==> head.elems == Reverse(old(head.elems))
    ensures head != null ==> head.Contents() == Reverse(old(head.Contents()))
  {
    if head == null {
      return;
    }
    ghost var s := head.elems;
    ghost var done: seq<int> := [];
    ghost var rest := s;
    ReverseBegin(head);
    var node := head.next[HEAD];
    var safe := head.next[node];
    while node != HEAD
      invariant ReverseLoop(head, s, done, rest, node, safe) && head.value == old(head.value)
      decreases |rest|
    {
      done, rest, node, safe := ReverseStep(head, s, done, rest, node, safe);
    }
    ReverseEnd(head, s, done, rest, node, safe);
  }
}
