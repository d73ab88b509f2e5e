/**
 * What the sort does to a chain of arena slots, as pure functions: a stable merge sort keyed on the
 * string stored in each slot and ordered by `strcmp`, split so that the left half gets the extra
 * slot of an odd-length chain.
 */
module MergeSortSpec {
  import opened StrOrder
  import opened Sequences

  /** The string stored in slot `i` of the value column `vals` (the empty string outside it). */
  function Key(vals: seq<CString>, i: int): CString {
    if 0 <= i < |vals| then vals[i] else []
  }

  /** The strings stored in the slots `s`, in order. */
  function Values(vals: seq<CString>, s: seq<int>): (r: seq<CString>)
    ensures |r| == |s|
    ensures forall k :: 0 <= k < |s| ==> r[k] == Key(vals, s[k])
  {
    seq(|s|, k requires 0 <= k < |s| => Key(vals, s[k]))
  }

  /** Ascending by `strcmp`: every string is `<=` every later one. */
  ghost predicate Ascending(t: seq<CString>) {
    forall i, j :: 0 <= i < j < |t| ==> StrLeq(t[i], t[j])
  }

  /** Descending by `strcmp`: every string is `<=` every earlier one. */
  ghost predicate Descending(t: seq<CString>) {
    forall i, j :: 0 <= i < j < |t| ==> StrLeq(t[j], t[i])
  }

  /** The slots `s` are in ascending order of their strings. */
  ghost predicate Sorted(vals: seq<CString>, s: seq<int>) {
    forall i, j :: 0 <= i < j < |s| ==> StrLeq(Key(vals, s[i]), Key(vals, s[j]))
  }

  /** The slots of `s` whose string is `x`, in their order in `s`. */
  function Filter(vals: seq<CString>, s: seq<int>, x: CString): seq<int> {
    if s == [] then []
    else (if Key(vals, s[0]) == x then [s[0]] else []) + Filter(vals, s[1..], x)
  }

  /** For every string, `t` holds the same slots with that string as `s`, in the same order. */
  ghost predicate SameRuns(vals: seq<CString>, s: seq<int>, t: seq<int>) {
    forall x: CString :: Filter(vals, t, x) == Filter(vals, s, x)
  }

  /**
   * `merge_two_list`: repeatedly take the front of whichever chain has the smaller string; on a tie
   * take the left one (`strcmp(...) <= 0`); append what remains of the other chain.
   */
  function Merge(vals: seq<CString>, a: seq<int>, b: seq<int>): seq<int>
    decreases |a| + |b|
  {
    if a == [] then b
    else if b == [] then a
    else if StrLeq(Key(vals, a[0]), Key(vals, b[0])) then [a[0]] + Merge(vals, a[1..], b)
    else [b[0]] + Merge(vals, a, b[1..])
  }

  /** `merge_recur`: the left half takes the first `ceil(n / 2)` slots. */
  function MergeSort(vals: seq<CString>, s: seq<int>): seq<int>
    decreases |s|
  {
    if |s| <= 1 then s
    else
      var m := (|s| + 1) / 2;
      Merge(vals, MergeSort(vals, s[..m]), MergeSort(vals, s[m..]))
  }

  // ---------------------------------------------------------------------------------------------
  // Values

  lemma ValuesAppend(vals: seq<CString>, a: seq<int>, b: seq<int>)
    ensures Values(vals, a + b) == Values(vals, a) + Values(vals, b)
  {
  }

  /** Reading the strings commutes with inserting a slot. */
  lemma ValuesInsertAt(vals: seq<CString>, s: seq<int>, k: int, x: int)
    requires 0 <= k <= |s|
    ensures Values(vals, InsertAt(s, k, x)) == InsertAt(Values(vals, s), k, Key(vals, x))
  {
    var r, v := InsertAt(s, k, x), InsertAt(Values(vals, s), k, Key(vals, x));
    forall i | 0 <= i < |v|
      ensures Values(vals, r)[i] == v[i]
    {
      if i < k {
        assert r[i] == s[i] && v[i] == Values(vals, s)[i];
      } else if k < i {
        assert r[i] == s[i - 1] && v[i] == Values(vals, s)[i - 1];
      }
    }
  }

  /** Reading the strings commutes with removing a slot. */
  lemma ValuesRemoveAt(vals: seq<CString>, s: seq<int>, k: int)
    requires 0 <= k < |s|
    ensures Values(vals, RemoveAt(s, k)) == RemoveAt(Values(vals, s), k)
  {
  }

  /** Slots already in use read the same after the value column grows. */
  lemma ValuesGrow(vals: seq<CString>, more: seq<CString>, s: seq<int>)
    requires forall k :: 0 <= k < |s| ==> 0 <= s[k] < |vals|
    ensures Values(vals + more, s) == Values(vals, s)
  {
  }

  /** Reading the strings commutes with reversing the slots. */
  lemma ValuesReverse(vals: seq<CString>, s: seq<int>)
    ensures Values(vals, Reverse(s)) == Reverse(Values(vals, s))
  {
    forall k | 0 <= k < |s|
      ensures Values(vals, Reverse(s))[k] == Reverse(Values(vals, s))[k]
    {
      ReverseAt(s, k);
      ReverseAt(Values(vals, s), k);
    }
  }

  /** Reading the strings commutes with swapping adjacent pairs of slots. */
  lemma {:induction false} ValuesSwapPairs(vals: seq<CString>, s: seq<int>)
    ensures Values(vals, SwapPairs(s)) == SwapPairs(Values(vals, s))
  {
    if |s| >= 2 {
      ValuesSwapPairs(vals, s[2..]);
      ValuesAppend(vals, [s[1], s[0]], SwapPairs(s[2..]));
      assert Values(vals, s)[2..] == Values(vals, s[2..]);
    }
  }

  /** Permuting the slots permutes their strings. */
  lemma {:induction false} ValuesMultiset(vals: seq<CString>, s: seq<int>, t: seq<int>)
    requires multiset(s) == multiset(t)
    ensures multiset(Values(vals, s)) == multiset(Values(vals, t))
    decreases |s|
  {
    if s == [] {
      assert |t| == |multiset(t)| == 0;
    } else {
      var x := s[0];
      assert x in multiset(t);
      var i :| 0 <= i < |t| && t[i] == x;
      var rest := t[..i] + t[i + 1..];
      assert t == t[..i] + [x] + t[i + 1..];
      assert s == [x] + s[1..];
      assert multiset(t) == multiset(t[..i]) + multiset{x} + multiset(t[i + 1..]);
      assert multiset(rest) == multiset(t[..i]) + multiset(t[i + 1..]);
      assert multiset(rest) == multiset(t) - multiset{x};
      assert multiset(s) == multiset{x} + multiset(s[1..]);
      assert multiset(s[1..]) == multiset(s) - multiset{x};
      ValuesMultiset(vals, s[1..], rest);
      ValuesAppend(vals, [x], s[1..]);
      ValuesAppend(vals, t[..i] + [x], t[i + 1..]);
      ValuesAppend(vals, t[..i], [x]);
      ValuesAppend(vals, t[..i], t[i + 1..]);
    }
  }

  /** Sorted slots read as ascending strings. */
  lemma SortedValues(vals: seq<CString>, s: seq<int>)
    requires Sorted(vals, s)
    ensures Ascending(Values(vals, s))
  {
  }

  /** Reversed sorted slots read as descending strings. */
  lemma ReverseSortedValues(vals: seq<CString>, s: seq<int>)
    requires Sorted(vals, s)
    ensures Descending(Values(vals, Reverse(s)))
  {
    ValuesReverse(vals, s);
    var t := Values(vals, s);
    forall i, j | 0 <= i < j < |t|
      ensures StrLeq(Reverse(t)[j], Reverse(t)[i])
    {
      ReverseAt(t, i);
      ReverseAt(t, j);
    }
  }

  /**
   * What sorting promises about the strings: the same strings with the same multiplicities,
   * ascending, or descending when the sorted slots are read backwards.
   */
  lemma SortOutcome(vals: seq<CString>, s: seq<int>, descend: bool)
    ensures var t := MergeSort(vals, s);
      var u := if descend then Reverse(t) else t;
      multiset(Values(vals, u)) == multiset(Values(vals, s)) &&
      (descend ==> Descending(Values(vals, u))) && (!descend ==> Ascending(Values(vals, u)))
  {
    var t := MergeSort(vals, s);
    MergeSortMultiset(vals, s);
    MergeSortSorted(vals, s);
    ValuesMultiset(vals, s, t);
    if descend {
      ReverseSortedValues(vals, t);
      ReverseMultiset(t);
      ValuesMultiset(vals, t, Reverse(t));
    } else {
      SortedValues(vals, t);
    }
  }

  // ---------------------------------------------------------------------------------------------
  // Merge

  /** Merging keeps every slot of both chains, and no other. */
  lemma {:induction false} MergeMultiset(vals: seq<CString>, a: seq<int>, b: seq<int>)
    ensures multiset(Merge(vals, a, b)) == multiset(a) + multiset(b)
    decreases |a| + |b|
  {
    if a == [] || b == [] {
    } else if StrLeq(Key(vals, a[0]), Key(vals, b[0])) {
      assert Merge(vals, a, b) == [a[0]] + Merge(vals, a[1..], b);
      MergeMultiset(vals, a[1..], b);
      MultisetFront(a);
    } else {
      assert Merge(vals, a, b) == [b[0]] + Merge(vals, a, b[1..]);
      MergeMultiset(vals, a, b[1..]);
      MultisetFront(b);
    }
  }

  /** The first slot of a sorted chain has a string `<=` that of every slot of the chain. */
  lemma SortedFirst(vals: seq<CString>, s: seq<int>, y: int)
    requires Sorted(vals, s) && s != [] && y in s
    ensures StrLeq(Key(vals, s[0]), Key(vals, y))
  {
    var i :| 0 <= i < |s| && s[i] == y;
    if i == 0 {
      StrLeqTotal(Key(vals, y), Key(vals, y));
    }
  }

  /** Merging two sorted chains gives a sorted chain. */
  lemma {:induction false} MergeSorted(vals: seq<CString>, a: seq<int>, b: seq<int>)
    requires Sorted(vals, a) && Sorted(vals, b)
    ensures Sorted(vals, Merge(vals, a, b))
    decreases |a| + |b|
  {
    if a == [] || b == [] {
    } else if StrLeq(Key(vals, a[0]), Key(vals, b[0])) {
      MergeSorted(vals, a[1..], b);
      MergeSortedLeft(vals, a, b);
    } else {
      MergeSorted(vals, a, b[1..]);
      MergeSortedRight(vals, a, b);
    }
  }

  /** `MergeSorted` when the merge takes the front of `a`, which is `<=` everything after it. */
  lemma MergeSortedLeft(vals: seq<CString>, a: seq<int>, b: seq<int>)
    requires Sorted(vals, a) && Sorted(vals, b) && a != [] && b != []
    requires StrLeq(Key(vals, a[0]), Key(vals, b[0])) && Sorted(vals, Merge(vals, a[1..], b))
    ensures Sorted(vals, Merge(vals, a, b))
  {
    var m := Merge(vals, a[1..], b);
    assert Merge(vals, a, b) == [a[0]] + m;
    MergeMultiset(vals, a[1..], b);
    StrLeqTotal(Key(vals, a[0]), Key(vals, a[0]));
    MultisetFront(a);
    MergeFront(vals, a, b, a[0], m);
    SortedCons(vals, a[0], m);
  }

  /** `MergeSorted` when the merge takes the front of `b`, which is below the front of `a`. */
  lemma MergeSortedRight(vals: seq<CString>, a: seq<int>, b: seq<int>)
    requires Sorted(vals, a) && Sorted(vals, b) && a != [] && b != []
    requires !StrLeq(Key(vals, a[0]), Key(vals, b[0])) && Sorted(vals, Merge(vals, a, b[1..]))
    ensures Sorted(vals, Merge(vals, a, b))
  {
    var m := Merge(vals, a, b[1..]);
    assert Merge(vals, a, b) == [b[0]] + m;
    MergeMultiset(vals, a, b[1..]);
    StrLeqTotal(Key(vals, a[0]), Key(vals, b[0]));
    StrLeqTotal(Key(vals, b[0]), Key(vals, b[0]));
    MultisetFront(b);
    MergeFront(vals, a, b, b[0], m);
    SortedCons(vals, b[0], m);
  }

  /** A slot `<=` the fronts of two sorted chains is `<=` every slot taken from them. */
  lemma MergeFront(vals: seq<CString>, a: seq<int>, b: seq<int>, x: int, m: seq<int>)
    requires Sorted(vals, a) && Sorted(vals, b) && a != [] && b != []
    requires StrLeq(Key(vals, x), Key(vals, a[0])) && StrLeq(Key(vals, x), Key(vals, b[0]))
    requires multiset(m) <= multiset(a) + multiset(b)
    ensures forall y :: y in m ==> StrLeq(Key(vals, x), Key(vals, y))
  {
    forall y | y in m
      ensures StrLeq(Key(vals, x), Key(vals, y))
    {
      assert y in multiset(m);
      if y in a {
        SortedFirst(vals, a, y);
        StrLeqTransitive(Key(vals, x), Key(vals, a[0]), Key(vals, y));
      } else {
        assert y in multiset(b);
        SortedFirst(vals, b, y);
        StrLeqTransitive(Key(vals, x), Key(vals, b[0]), Key(vals, y));
      }
    }
  }

  /** A slot `<=` every slot of a sorted chain can go in front of it. */
  lemma SortedCons(vals: seq<CString>, x: int, m: seq<int>)
    requires Sorted(vals, m) && forall y :: y in m ==> StrLeq(Key(vals, x), Key(vals, y))
    ensures Sorted(vals, [x] + m)
  {
    var s := [x] + m;
    forall i, j | 0 <= i < j < |s|
      ensures StrLeq(Key(vals, s[i]), Key(vals, s[j]))
    {
      assert s[j] == m[j - 1];
      if i > 0 {
        assert s[i] == m[i - 1];
      }
    }
  }

  // ---------------------------------------------------------------------------------------------
  // Filter: runs of equal strings

  lemma {:induction false} FilterAppend(vals: seq<CString>, a: seq<int>, b: seq<int>, x: CString)
    ensures Filter(vals, a + b, x) == Filter(vals, a, x) + Filter(vals, b, x)
  {
    if a != [] {
      FilterAppend(vals, a[1..], b, x);
      assert (a + b)[0] == a[0] && (a + b)[1..] == a[1..] + b;
      var h := if Key(vals, a[0]) == x then [a[0]] else [];
      assert Filter(vals, a + b, x) == h + Filter(vals, a[1..] + b, x);
      assert Filter(vals, a, x) == h + Filter(vals, a[1..], x);
    } else {
      assert a + b == b;
    }
  }

  /** A chain none of whose slots holds `x` has an empty run of `x`. */
  lemma {:induction false} FilterNone(vals: seq<CString>, s: seq<int>, x: CString)
    requires forall y :: y in s ==> Key(vals, y) != x
    ensures Filter(vals, s, x) == []
  {
    if s != [] {
      FilterNone(vals, s[1..], x);
    }
  }

  /** Every slot of a run of `x` holds `x` and belongs to the chain. */
  lemma {:induction false} FilterMembers(vals: seq<CString>, s: seq<int>, x: CString)
    ensures forall y :: y in Filter(vals, s, x) ==> y in s && Key(vals, y) == x
  {
    if s != [] {
      FilterMembers(vals, s[1..], x);
    }
  }

  /**
   * Merging two sorted chains keeps, for every string, the left chain's slots with that string
   * before the right chain's: the merge is stable.
   */
  lemma {:induction false} MergeFilter(vals: seq<CString>, a: seq<int>, b: seq<int>, x: CString)
    requires Sorted(vals, a) && Sorted(vals, b)
    ensures Filter(vals, Merge(vals, a, b), x) == Filter(vals, a, x) + Filter(vals, b, x)
    decreases |a| + |b|
  {
    if a == [] || b == [] {
    } else if StrLeq(Key(vals, a[0]), Key(vals, b[0])) {
      MergeFilter(vals, a[1..], b, x);
      MergeFilterLeft(vals, a, b, x);
    } else {
      MergeFilter(vals, a, b[1..], x);
      MergeFilterRight(vals, a, b, x);
    }
  }

  /** `MergeFilter` when the merge takes the front of `a`: that slot comes first in both. */
  lemma MergeFilterLeft(vals: seq<CString>, a: seq<int>, b: seq<int>, x: CString)
    requires a != [] && b != [] && StrLeq(Key(vals, a[0]), Key(vals, b[0]))
    requires Filter(vals, Merge(vals, a[1..], b), x) == Filter(vals, a[1..], x) + Filter(vals, b, x)
    ensures Filter(vals, Merge(vals, a, b), x) == Filter(vals, a, x) + Filter(vals, b, x)
  {
    var m := Merge(vals, a[1..], b);
    var h := if Key(vals, a[0]) == x then [a[0]] else [];
    assert Merge(vals, a, b) == [a[0]] + m && ([a[0]] + m)[1..] == m;
    assert Filter(vals, Merge(vals, a, b), x) == h + Filter(vals, m, x);
    assert Filter(vals, a, x) == h + Filter(vals, a[1..], x);
    AppendAssoc(h, Filter(vals, a[1..], x), Filter(vals, b, x));
  }

  /**
   * `MergeFilter` when the merge takes the front of `b`: its string is below every string of the
   * sorted `a`, so if it is `x` then `a` holds no slot with `x`.
   */
  lemma MergeFilterRight(vals: seq<CString>, a: seq<int>, b: seq<int>, x: CString)
    requires a != [] && b != [] && Sorted(vals, a) && !StrLeq(Key(vals, a[0]), Key(vals, b[0]))
    requires Filter(vals, Merge(vals, a, b[1..]), x) == Filter(vals, a, x) + Filter(vals, b[1..], x)
    ensures Filter(vals, Merge(vals, a, b), x) == Filter(vals, a, x) + Filter(vals, b, x)
  {
    assert Merge(vals, a, b) == [b[0]] + Merge(vals, a, b[1..]);
    if Key(vals, b[0]) == x {
      forall y | y in a
        ensures Key(vals, y) != x
      {
        SortedFirst(vals, a, y);
      }
      FilterNone(vals, a, x);
    }
  }

  /** The sort keeps every slot of the chain, and no other. */
  lemma {:induction false} MergeSortMultiset(vals: seq<CString>, s: seq<int>)
    ensures multiset(MergeSort(vals, s)) == multiset(s)
    decreases |s|
  {
    if |s| > 1 {
      var m := (|s| + 1) / 2;
      var l, r := MergeSort(vals, s[..m]), MergeSort(vals, s[m..]);
      MergeSortMultiset(vals, s[..m]);
      MergeSortMultiset(vals, s[m..]);
      MergeMultiset(vals, l, r);
      SplitMultiset(s, m, l, r, Merge(vals, l, r));
    }
  }

  /** Rearranging each part of a split and then combining them rearranges the whole. */
  lemma SplitMultiset(s: seq<int>, m: int, l: seq<int>, r: seq<int>, t: seq<int>)
    requires 0 <= m <= |s| && multiset(l) == multiset(s[..m]) && multiset(r) == multiset(s[m..])
    requires multiset(t) == multiset(l) + multiset(r)
    ensures multiset(t) == multiset(s)
  {
    assert s == s[..m] + s[m..];
  }

  /** The sort's result is in ascending order. */
  lemma {:induction false} MergeSortSorted(vals: seq<CString>, s: seq<int>)
    ensures Sorted(vals, MergeSort(vals, s))
    decreases |s|
  {
    if |s| > 1 {
      var m := (|s| + 1) / 2;
      assert MergeSort(vals, s) == Merge(vals, MergeSort(vals, s[..m]), MergeSort(vals, s[m..]));
      MergeSortSorted(vals, s[..m]);
      MergeSortSorted(vals, s[m..]);
      MergeSorted(vals, MergeSort(vals, s[..m]), MergeSort(vals, s[m..]));
    }
  }

  /** The sort is stable: slots holding equal strings keep their relative order. */
  lemma {:induction false} MergeSortStable(vals: seq<CString>, s: seq<int>)
    ensures SameRuns(vals, s, MergeSort(vals, s))
    decreases |s|
  {
    if |s| > 1 {
      var m := (|s| + 1) / 2;
      var l, r := MergeSort(vals, s[..m]), MergeSort(vals, s[m..]);
      assert MergeSort(vals, s) == Merge(vals, l, r);
      MergeSortStable(vals, s[..m]);
      MergeSortStable(vals, s[m..]);
      MergeSortSorted(vals, s[..m]);
      MergeSortSorted(vals, s[m..]);
      forall x: CString
        ensures Filter(vals, MergeSort(vals, s), x) == Filter(vals, s, x)
      {
        MergeHalvesFilter(vals, s, m, x);
      }
    }
  }

  /**
   * One string's slots through one level of `merge_recur`: merging the sorted halves, each with
   * the same slots per string as its unsorted half, keeps that string's slots in their order.
   */
  lemma MergeHalvesFilter(vals: seq<CString>, s: seq<int>, m: int, x: CString)
    requires 0 <= m <= |s|
    requires Sorted(vals, MergeSort(vals, s[..m])) && Sorted(vals, MergeSort(vals, s[m..]))
    requires Filter(vals, MergeSort(vals, s[..m]), x) == Filter(vals, s[..m], x)
    requires Filter(vals, MergeSort(vals, s[m..]), x) == Filter(vals, s[m..], x)
    ensures Filter(vals, Merge(vals, MergeSort(vals, s[..m]), MergeSort(vals, s[m..])), x) == Filter(vals, s, x)
  {
    MergeFilter(vals, MergeSort(vals, s[..m]), MergeSort(vals, s[m..]), x);
    FilterSplit(vals, s, m, x);
  }

  /** A string's slots in `s` are its slots in the first `m` entries followed by those in the rest. */
  lemma FilterSplit(vals: seq<CString>, s: seq<int>, m: int, x: CString)
    requires 0 <= m <= |s|
    ensures Filter(vals, s, x) == Filter(vals, s[..m], x) + Filter(vals, s[m..], x)
  {
    assert s == s[..m] + s[m..];
    FilterAppend(vals, s[..m], s[m..], x);
  }

  /** Sorted sequences with the same runs start with the same string. */
  lemma SameRunsFront(vals: seq<CString>, t: seq<int>, u: seq<int>)
    requires Sorted(vals, t) && Sorted(vals, u) && SameRuns(vals, t, u) && t != [] && u != []
    ensures Key(vals, t[0]) == Key(vals, u[0])
  {
    var kt, ku := Key(vals, t[0]), Key(vals, u[0]);
    RunOfFirst(vals, t);
    FilterNonEmpty(vals, u, kt);
    var y :| y in u && Key(vals, y) == kt;
    SortedFirst(vals, u, y);
    RunOfFirst(vals, u);
    FilterNonEmpty(vals, t, ku);
    var z :| z in t && Key(vals, z) == ku;
    SortedFirst(vals, t, z);
    StrLeqAntisymmetric(kt, ku);
  }

  /** Sequences with the same runs and the same first string have the same runs after it. */
  lemma SameRunsTail(vals: seq<CString>, t: seq<int>, u: seq<int>)
    requires SameRuns(vals, t, u) && t != [] && u != [] && Key(vals, t[0]) == Key(vals, u[0])
    ensures SameRuns(vals, t[1..], u[1..])
  {
    forall x: CString
      ensures Filter(vals, u[1..], x) == Filter(vals, t[1..], x)
    {
      assert Filter(vals, u, x) == Filter(vals, t, x);
      var hu := if Key(vals, u[0]) == x then [u[0]] else [];
      var ht := if Key(vals, t[0]) == x then [t[0]] else [];
      assert Filter(vals, u, x) == hu + Filter(vals, u[1..], x);
      assert Filter(vals, t, x) == ht + Filter(vals, t[1..], x);
      assert (hu + Filter(vals, u[1..], x))[|hu|..] == Filter(vals, u[1..], x);
      assert (ht + Filter(vals, t[1..], x))[|ht|..] == Filter(vals, t[1..], x);
    }
  }

  /** The run of a chain's first string starts with its first slot. */
  lemma RunOfFirst(vals: seq<CString>, s: seq<int>)
    requires s != []
    ensures Filter(vals, s, Key(vals, s[0])) == [s[0]] + Filter(vals, s[1..], Key(vals, s[0]))
  {
  }

  /** A chain whose run of `x` is non-empty holds `x` somewhere. */
  lemma FilterNonEmpty(vals: seq<CString>, s: seq<int>, x: CString)
    requires Filter(vals, s, x) != []
    ensures exists y :: y in s && Key(vals, y) == x
  {
    FilterMembers(vals, s, x);
    assert Filter(vals, s, x)[0] in Filter(vals, s, x);
  }

  /**
   * Sorted and stable pins the result down: two sorted chains with the same runs of equal strings
   * are the same chain. So any stable ascending sort agrees with `MergeSort`.
   */
  lemma {:induction false} SortedSameRunsUnique(vals: seq<CString>, t: seq<int>, u: seq<int>)
    requires Sorted(vals, t) && Sorted(vals, u) && SameRuns(vals, t, u)
    ensures t == u
    decreases |t| + |u|
  {
    if t == [] && u == [] {
    } else if t == [] || u == [] {
      // The non-empty one has a non-empty run of its first string; the other has none.
      var w := if t == [] then u else t;
      RunOfFirst(vals, w);
      assert false;
    } else {
      SameRunsFront(vals, t, u);
      SameRunsTail(vals, t, u);
      var kt := Key(vals, t[0]);
      RunOfFirst(vals, t);
      RunOfFirst(vals, u);
      assert t[0] == Filter(vals, t, kt)[0] == Filter(vals, u, kt)[0] == u[0];
      SortedSameRunsUnique(vals, t[1..], u[1..]);
      assert t == [t[0]] + t[1..] && u == [u[0]] + u[1..];
    }
  }

  /** `MergeSort` is THE stable ascending sort: any sorted chain with the same runs equals it. */
  lemma MergeSortIsTheStableSort(vals: seq<CString>, s: seq<int>, t: seq<int>)
    requires Sorted(vals, t) && SameRuns(vals, s, t)
    ensures t == MergeSort(vals, s)
  {
    MergeSortSorted(vals, s);
    MergeSortStable(vals, s);
    SortedSameRunsUnique(vals, t, MergeSort(vals, s));
  }

  // ---------------------------------------------------------------------------------------------
  // Descending order by reversal

  lemma {:induction false} FilterReverse(vals: seq<CString>, s: seq<int>, x: CString)
    ensures Filter(vals, Reverse(s), x) == Reverse(Filter(vals, s, x))
  {
    if s != [] {
      var init, last := s[..|s| - 1], s[|s| - 1];
      FilterReverse(vals, init, x);
      assert s == init + [last];
      FilterAppend(vals, init, [last], x);
      var f := Filter(vals, init, x);
      if Key(vals, last) == x {
        assert (f + [last])[..|f|] == f;
      } else {
        assert f + [] == f;
      }
    }
  }

  /**
   * The descending result, the reversal of the stable ascending sort, is in descending order and
   * lists the slots of each run of equal strings in the reverse of their original order.
   */
  lemma ReverseMergeSortRuns(vals: seq<CString>, s: seq<int>, x: CString)
    ensures Descending(Values(vals, Reverse(MergeSort(vals, s))))
    ensures Filter(vals, Reverse(MergeSort(vals, s)), x) == Reverse(Filter(vals, s, x))
  {
    MergeSortSorted(vals, s);
    ReverseSortedValues(vals, MergeSort(vals, s));
    MergeSortStable(vals, s);
    FilterReverse(vals, MergeSort(vals, s), x);
  }
}
