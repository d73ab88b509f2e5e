/** Pure sequence functions that say what the structural queue operations do to the element order. */
module Sequences {

  /**
   * `s[i]`. Distinctness is stated over this function rather than over indexing, so that a proof
   * applies it only at the positions it names, not to every pair of positions in sight.
   */
  ghost function At(s: seq<int>, i: int): int
    requires 0 <= i < |s|
  {
    s[i]
  }

  /** No slot occurs twice. */
  ghost predicate Distinct(s: seq<int>) {
    forall i, j {:trigger At(s, i), At(s, j)} :: 0 <= i < j < |s| ==> At(s, i) != At(s, j)
  }

  /** Two positions of a distinct sequence hold different slots. */
  lemma DistinctAt(s: seq<int>, i: int, j: int)
    requires Distinct(s) && 0 <= i < |s| && 0 <= j < |s| && i != j
    ensures s[i] != s[j]
  {
    if i < j {
      assert At(s, i) != At(s, j);
    } else {
      assert At(s, j) != At(s, i);
    }
  }

  /** The slot at index `i` of a distinct sequence is at no other index. */
  lemma DistinctFrom(s: seq<int>, i: int)
    requires Distinct(s) && 0 <= i < |s|
    ensures forall k :: 0 <= k < |s| && k != i ==> s[k] != s[i]
  {
    forall k | 0 <= k < |s| && k != i
      ensures s[k] != s[i]
    {
      DistinctAt(s, k, i);
    }
  }

  /** Slots distinct in a concatenation are distinct in each part, and no slot is in both. */
  lemma DistinctAppend(a: seq<int>, b: seq<int>)
    requires Distinct(a + b)
    ensures Distinct(a) && Distinct(b) && forall x :: x in a ==> x !in b
  {
    forall i, j | 0 <= i < j < |a|
      ensures At(a, i) != At(a, j)
    {
      DistinctAt(a + b, i, j);
    }
    forall i, j | 0 <= i < j < |b|
      ensures At(b, i) != At(b, j)
    {
      DistinctAt(a + b, |a| + i, |a| + j);
    }
    forall i, j | 0 <= i < |a| && 0 <= j < |b|
      ensures a[i] != b[j]
    {
      DistinctAt(a + b, i, |a| + j);
    }
  }

  /** A distinct sequence holds each value at most once. */
  lemma {:induction false} DistinctCount(s: seq<int>, x: int)
    requires Distinct(s)
    ensures multiset(s)[x] <= 1
  {
    if s != [] {
      assert s == [s[0]] + s[1..];
      DistinctAppend([s[0]], s[1..]);
      DistinctCount(s[1..], x);
      if x == s[0] {
        assert s[0] in [s[0]];
      }
    }
  }

  /** A value at two positions of a sequence occurs in it at least twice. */
  lemma RepeatCount(t: seq<int>, i: int, j: int)
    requires 0 <= i < j < |t|
    ensures t[i] == t[j] ==> multiset(t)[t[i]] >= 2
  {
    assert t == t[..i] + [t[i]] + t[i + 1..j] + [t[j]] + t[j + 1..];
  }

  /** Concatenation is associative. */
  lemma AppendAssoc<T>(a: seq<T>, b: seq<T>, c: seq<T>)
    ensures a + (b + c) == (a + b) + c
  {
  }

  /** The empty sequence is a left unit of concatenation. */
  lemma AppendEmpty<T>(s: seq<T>)
    ensures [] + s == s
  {
  }

  /** The empty sequence is a right unit of concatenation. */
  lemma AppendEmptyRight<T>(s: seq<T>)
    ensures s + [] == s
  {
  }

  /** The elements of a non-empty sequence are its first one and those of the rest. */
  lemma MultisetFront<T>(s: seq<T>)
    requires s != []
    ensures multiset(s) == multiset{s[0]} + multiset(s[1..])
  {
    assert s == [s[0]] + s[1..];
  }

  /** A rearrangement of distinct slots is distinct. */
  lemma DistinctPreserved(s: seq<int>, t: seq<int>)
    requires Distinct(s) && multiset(s) == multiset(t)
    ensures Distinct(t)
  {
    forall i, j | 0 <= i < j < |t|
      ensures At(t, i) != At(t, j)
    {
      DistinctCount(s, t[i]);
      RepeatCount(t, i, j);
    }
  }

  /** `s` without its element at index `k`. */
  function RemoveAt<T>(s: seq<T>, k: int): (r: seq<T>)
    requires 0 <= k < |s|
    ensures |r| == |s| - 1
  {
    s[..k] + s[k + 1..]
  }

  /** `s` with `x` placed at index `k`; at the front that is `[x] + s`, written out as such. */
  function InsertAt<T>(s: seq<T>, k: int, x: T): (r: seq<T>)
    requires 0 <= k <= |s|
    ensures |r| == |s| + 1
  {
    if k == 0 then [x] + s else s[..k] + [x] + s[k..]
  }

  /** Inserting a new slot keeps the slots distinct. */
  lemma InsertAtDistinct(s: seq<int>, k: int, x: int)
    requires Distinct(s) && x !in s && 0 <= k <= |s|
    ensures Distinct(InsertAt(s, k, x))
  {
    var t := InsertAt(s, k, x);
    forall i, j | 0 <= i < j < |t|
      ensures At(t, i) != At(t, j)
    {
      if i < k && j > k {
        DistinctAt(s, i, j - 1);
      } else if j > k && i > k {
        DistinctAt(s, i - 1, j - 1);
      } else if j < k {
        DistinctAt(s, i, j);
      }
    }
  }

  /** Removing a slot keeps the slots distinct. */
  lemma RemoveAtDistinct(s: seq<int>, k: int)
    requires Distinct(s) && 0 <= k < |s|
    ensures Distinct(RemoveAt(s, k)) && s[k] !in RemoveAt(s, k)
  {
    var t := RemoveAt(s, k);
    forall i, j | 0 <= i < j < |t|
      ensures At(t, i) != At(t, j)
    {
      if i >= k {
        DistinctAt(s, i + 1, j + 1);
      } else if j >= k {
        DistinctAt(s, i, j + 1);
      } else {
        DistinctAt(s, i, j);
      }
    }
    forall i | 0 <= i < |t|
      ensures t[i] != s[k]
    {
      if i >= k {
        DistinctAt(s, i + 1, k);
      } else {
        DistinctAt(s, i, k);
      }
    }
  }

  /**
   * The elements of `s` in the opposite order. It peels off the LAST element, which is the order
   * in which moving each node to the front of a list rebuilds it.
   */
  function Reverse<T>(s: seq<T>): (r: seq<T>)
    ensures |r| == |s|
  {
    if s == [] then [] else [s[|s| - 1]] + Reverse(s[..|s| - 1])
  }

  /** Element `k` of the reversal is element `|s| - 1 - k` of the original. */
  lemma {:induction false} ReverseAt<T>(s: seq<T>, k: int)
    requires 0 <= k < |s|
    ensures Reverse(s)[k] == s[|s| - 1 - k]
  {
    if k > 0 {
      ReverseAt(s[..|s| - 1], k - 1);
    }
  }

  /** Reversing twice gives back the original sequence. */
  lemma {:induction false} ReverseReverse<T>(s: seq<T>)
    ensures Reverse(Reverse(s)) == s
  {
    forall k | 0 <= k < |s|
      ensures Reverse(Reverse(s))[k] == s[k]
    {
      ReverseAt(Reverse(s), k);
      ReverseAt(s, |s| - 1 - k);
    }
  }

  /** Reversal keeps every element with its multiplicity. */
  lemma {:induction false} ReverseMultiset<T>(s: seq<T>)
    ensures multiset(Reverse(s)) == multiset(s)
  {
    if s != [] {
      ReverseMultiset(s[..|s| - 1]);
      assert s == s[..|s| - 1] + [s[|s| - 1]];
    }
  }

  /** Taking the first element of `rest` out from after `done` and putting it in front. */
  lemma MoveToFront<T>(done: seq<T>, rest: seq<T>)
    requires rest != []
    ensures InsertAt(RemoveAt(done + rest, |done|), 0, rest[0]) == [rest[0]] + done + rest[1..]
  {
    assert RemoveAt(done + rest, |done|) == done + rest[1..];
  }

  /** The reversal ends with the first element, after the reversal of the rest. */
  lemma {:induction false} ReverseFront<T>(s: seq<T>)
    requires s != []
    ensures Reverse(s) == Reverse(s[1..]) + [s[0]]
  {
    if 1 < |s| {
      ReverseFront(s[..|s| - 1]);
      assert s[..|s| - 1][1..] == s[1..][..|s| - 2];
    }
  }

  /** Moving the first element of `rest` onto the front of `done` keeps `Reverse(rest) + done`. */
  lemma ReverseFrontAppend<T>(rest: seq<T>, done: seq<T>)
    requires rest != []
    ensures Reverse(rest[1..]) + ([rest[0]] + done) == Reverse(rest) + done
  {
    ReverseFront(rest);
    assert Reverse(rest[1..]) + ([rest[0]] + done) == (Reverse(rest[1..]) + [rest[0]]) + done;
  }

  /** Positions `2i` and `2i + 1` exchanged for every complete pair; a trailing odd element stays. */
  function SwapPairs<T>(s: seq<T>): (r: seq<T>)
    ensures |r| == |s|
  {
    if |s| < 2 then s else [s[1], s[0]] + SwapPairs(s[2..])
  }

  /** Pair by pair: each complete pair is exchanged and an unpaired last element is untouched. */
  lemma {:induction false} SwapPairsAt<T>(s: seq<T>, i: int)
    requires 0 <= i && 2 * i < |s|
    ensures 2 * i + 1 < |s| ==> SwapPairs(s)[2 * i] == s[2 * i + 1] && SwapPairs(s)[2 * i + 1] == s[2 * i]
    ensures 2 * i + 1 == |s| ==> SwapPairs(s)[2 * i] == s[2 * i]
  {
    if i > 0 {
      SwapPairsAt(s[2..], i - 1);
    }
  }

  /** Swapping pairs twice gives back the original sequence. */
  lemma {:induction false} SwapPairsTwice<T>(s: seq<T>)
    ensures SwapPairs(SwapPairs(s)) == s
  {
    if |s| >= 2 {
      SwapPairsTwice(s[2..]);
      assert ([s[1], s[0]] + SwapPairs(s[2..]))[2..] == SwapPairs(s[2..]);
    }
  }

  /** Swapping pairs keeps every element with its multiplicity. */
  lemma {:induction false} SwapPairsMultiset<T>(s: seq<T>)
    ensures multiset(SwapPairs(s)) == multiset(s)
  {
    if |s| >= 2 {
      SwapPairsMultiset(s[2..]);
      assert s == [s[0], s[1]] + s[2..];
    }
  }

  /** Taking the first element of `rest` out from after `done` and putting it after the second. */
  lemma MoveAfterNext<T>(done: seq<T>, rest: seq<T>)
    requires 1 < |rest|
    ensures InsertAt(RemoveAt(done + rest, |done|), |done| + 1, rest[0])
      == done + [rest[1], rest[0]] + rest[2..]
  {
    assert RemoveAt(done + rest, |done|) == done + rest[1..];
  }

  /** Swapping the front pair of `rest` onto the end of `done` keeps `done + SwapPairs(rest)`. */
  lemma SwapPairsFrontAppend<T>(done: seq<T>, rest: seq<T>)
    requires 1 < |rest|
    ensures (done + [rest[1], rest[0]]) + SwapPairs(rest[2..]) == done + SwapPairs(rest)
  {
    assert SwapPairs(rest) == [rest[1], rest[0]] + SwapPairs(rest[2..]);
  }
}
