/**
 Linear searches over string lists: the program's `indexOf` and `contains`
 helpers, plus the last-occurrence search that describes which position of a
 header wins when a column name is repeated.
 */
module Search {

  /** The set of elements of a sequence. */
  function Elems<T>(s: seq<T>): set<T>
  {
    set x | x in s
  }

  /** No element occurs twice. */
  predicate Distinct<T(==)>(s: seq<T>)
  {
    forall i, j :: 0 <= i < j < |s| ==> s[i] != s[j]
  }

  /** `indexOf`: the position of the first occurrence of `e` in `s`, or -1. */
  function IndexOf<T(==)>(e: T, s: seq<T>): (k: int)
    ensures -1 <= k < |s|
    ensures k == -1 <==> e !in s
    ensures 0 <= k ==> s[k] == e && forall j :: 0 <= j < k ==> s[j] != e
  {
    if |s| == 0 then -1
    else if s[0] == e then 0
    else
      var k := IndexOf(e, s[1..]);
      if k == -1 then -1 else k + 1
  }

  /** `contains`: whether `e` occurs in `s`. */
  function Contains<T(==)>(s: seq<T>, e: T): (found: bool)
    ensures found <==> e in s
  {
    if |s| == 0 then false
    else s[0] == e || Contains(s[1..], e)
  }

  /** The position of the last occurrence of `e` in `s`, or -1. */
  function LastIndexOf<T(==)>(e: T, s: seq<T>): (k: int)
    ensures -1 <= k < |s|
    ensures k == -1 <==> e !in s
    ensures 0 <= k ==> s[k] == e && forall j :: k < j < |s| ==> s[j] != e
  {
    if |s| == 0 then -1
    else if s[|s| - 1] == e then |s| - 1
    else LastIndexOf(e, s[..|s| - 1])
  }
}
