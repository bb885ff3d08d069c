/** Option and Result, and the few generic sequence helpers the model shares. */
module Wrappers {

  datatype Option<+T> = None | Some(value: T)

  datatype Result<+T, +E> = Ok(value: T) | Err(error: E)

  /** No element occurs twice. */
  predicate Distinct<T(==)>(s: seq<T>)
  {
    forall i, j :: 0 <= i < j < |s| ==> s[i] != s[j]
  }

  /** First position of `x` in `s`, or -1 (Go's `slices.Index`). */
  function IndexOf<T(==)>(s: seq<T>, x: T): (i: int)
    ensures -1 <= i < |s|
    ensures i == -1 <==> x !in s
    ensures 0 <= i ==> s[i] == x && forall k :: 0 <= k < i ==> s[k] != x
  {
    if s == [] then -1
    else if s[0] == x then 0
    else
      var j := IndexOf(s[1..], x);
      if j == -1 then -1 else j + 1
  }

  /** Last position of `x` in `s`, or -1. */
  function LastIndexOf<T(==)>(s: seq<T>, x: T): (i: int)
    ensures -1 <= i < |s|
    ensures i == -1 <==> x !in s
    ensures 0 <= i ==> s[i] == x && forall k :: i < k < |s| ==> s[k] != x
  {
    if s == [] then -1
    else if s[|s| - 1] == x then |s| - 1
    else LastIndexOf(s[..|s| - 1], x)
  }

  /** A position holding `x` with no `x` before it is the one IndexOf finds. */
  lemma IndexOfUnique<T>(s: seq<T>, x: T, i: int)
    requires 0 <= i < |s| && s[i] == x
    requires forall k :: 0 <= k < i ==> s[k] != x
    ensures IndexOf(s, x) == i
  {
  }

  /** A position holding `x` with no `x` after it is the one LastIndexOf finds. */
  lemma LastIndexOfUnique<T>(s: seq<T>, x: T, i: int)
    requires 0 <= i < |s| && s[i] == x
    requires forall k :: i < k < |s| ==> s[k] != x
    ensures LastIndexOf(s, x) == i
  {
  }

  /** In a sequence without repetitions, a position determines its element. */
  lemma DistinctIndexOf<T>(s: seq<T>, i: int)
    requires Distinct(s) && 0 <= i < |s|
    ensures IndexOf(s, s[i]) == i && LastIndexOf(s, s[i]) == i
  {
    IndexOfUnique(s, s[i], i);
    LastIndexOfUnique(s, s[i], i);
  }

  /** Taking the first element off a sequence built in front of another. */
  lemma AppendFirst<T>(x: T, r: seq<T>, last: seq<T>)
    ensures ([x] + r + last)[0] == x && ([x] + r + last)[1..] == r + last
  {
  }

  /** Concatenation is associative. */
  lemma AppendAssoc<T>(a: seq<T>, b: seq<T>, c: seq<T>)
    ensures a + b + c == a + (b + c)
  {
  }

  /** Extending a prefix by one element: LastIndexOf either finds the new
    * element or keeps its earlier answer. */
  lemma LastIndexOfExtend<T>(s: seq<T>, k: int, x: T)
    requires 0 <= k < |s|
    ensures LastIndexOf(s[..k + 1], x) == if s[k] == x then k else LastIndexOf(s[..k], x)
  {
    assert s[..k + 1][..k] == s[..k];
  }
}
