/** The string order the queue sorts by: C's `strcmp` over NUL-terminated strings. */
module StrOrder {

  /** The contents of a C string: the characters before its terminating NUL, so it holds no NUL. */
  type CString = s: string | '\0' !in s

  /** The byte `strcmp` reads at the front of `s`: the terminator reads as 0. */
  function Front(s: string): int {
    if s == [] then 0 else s[0] as int
  }

  /**
   * `strcmp(a, b)`: the difference of the first pair of bytes that differ, the terminator counting
   * as 0. Only its sign is ever used.
   */
  function Strcmp(a: string, b: string): int {
    if a == [] || b == [] || a[0] != b[0] then Front(a) - Front(b)
    else Strcmp(a[1..], b[1..])
  }

  /** `strcmp(a, b) <= 0`, the test the merge step uses. */
  predicate StrLeq(a: string, b: string) {
    Strcmp(a, b) <= 0
  }

  /** Swapping the arguments of `strcmp` flips the sign of its result. */
  lemma {:induction false} StrcmpFlip(a: string, b: string)
    ensures Strcmp(b, a) == -Strcmp(a, b)
  {
    if !(a == [] || b == [] || a[0] != b[0]) {
      StrcmpFlip(a[1..], b[1..]);
    }
  }

  /** Any two strings are comparable. */
  lemma StrLeqTotal(a: string, b: string)
    ensures StrLeq(a, b) || StrLeq(b, a)
  {
    StrcmpFlip(a, b);
  }

  /** On C strings `strcmp` returns 0 exactly for equal strings. */
  lemma {:induction false} StrcmpZero(a: CString, b: CString)
    ensures Strcmp(a, b) == 0 <==> a == b
  {
    if a == [] || b == [] || a[0] != b[0] {
      if a != [] { assert a[0] in a; }
      if b != [] { assert b[0] in b; }
    } else {
      assert a == [a[0]] + a[1..] && b == [b[0]] + b[1..];
      StrcmpZero(a[1..], b[1..]);
    }
  }

  /** Two C strings that are each `<=` the other are equal. */
  lemma StrLeqAntisymmetric(a: CString, b: CString)
    requires StrLeq(a, b) && StrLeq(b, a)
    ensures a == b
  {
    StrcmpFlip(a, b);
    StrcmpZero(a, b);
  }

  /** The order is transitive on C strings. */
  lemma {:induction false} StrLeqTransitive(a: CString, b: CString, c: CString)
    requires StrLeq(a, b) && StrLeq(b, c)
    ensures StrLeq(a, c)
  {
    if a != [] { assert a[0] in a; }
    if b != [] { assert b[0] in b; }
    if c != [] { assert c[0] in c; }
    if a != [] && b != [] && c != [] && a[0] == b[0] && b[0] == c[0] {
      StrLeqTransitive(a[1..], b[1..], c[1..]);
    }
  }
}
