/**
 Sorting of record keys (`sort.Strings`). The keys of a map are distinct, so
 the sorted list is strictly ascending; `SortedUnique` shows that a strictly
 ascending list is determined by its elements, so any correct sorting
 algorithm yields the list `SortKeys` yields.
 */
module Sorting {
  import opened Search
  import opened Lex

  /** Every element sorts strictly before every later one. */
  predicate StrictlyAscending(s: seq<string>)
  {
    forall i, j :: 0 <= i < j < |s| ==> Less(s[i], s[j])
  }

  /** Inserts `x` at its place in an ascending list that does not hold it. */
  function Insert(x: string, s: seq<string>): (r: seq<string>)
    requires StrictlyAscending(s) && x !in s
    ensures StrictlyAscending(r)
    ensures multiset(r) == multiset(s) + multiset{x}
  {
    if |s| == 0 then [x]
    else if Less(x, s[0]) then
      BelowHead(x, s);
      [x] + s
    else
      LessTotal(x, s[0]);
      var t := Insert(x, s[1..]);
      HeadBelowRest(x, s, t);
      assert s == [s[0]] + s[1..];
      [s[0]] + t
  }

  lemma BelowHead(x: string, s: seq<string>)
    requires StrictlyAscending(s) && |s| > 0 && Less(x, s[0])
    ensures StrictlyAscending([x] + s)
  {
    forall j | 0 < j < |s| {
      LessTransitive(x, s[0], s[j]);
    }
  }

  lemma HeadBelowRest(x: string, s: seq<string>, t: seq<string>)
    requires StrictlyAscending(s) && |s| > 0 && Less(s[0], x)
    requires StrictlyAscending(t) && multiset(t) == multiset(s[1..]) + multiset{x}
    ensures StrictlyAscending([s[0]] + t)
  {
    forall j | 0 <= j < |t|
      ensures Less(s[0], t[j])
    {
      assert t[j] in multiset(t);
      if t[j] != x {
        assert t[j] in multiset(s[1..]);
        var k :| 0 <= k < |s[1..]| && s[1..][k] == t[j];
        assert s[k + 1] == t[j];
      }
    }
  }

  lemma ElemsEmpty(s: seq<string>)
    ensures Elems(s) == {} <==> |s| == 0
  {
    if |s| > 0 {
      assert s[0] in Elems(s);
    }
  }

  /** Two lists with the same multiset have the same elements. */
  lemma SameElems(a: seq<string>, b: seq<string>)
    requires multiset(a) == multiset(b)
    ensures Elems(a) == Elems(b)
  {
    forall x | x in Elems(a) ensures x in Elems(b) {
      assert x in multiset(a);
    }
    forall x | x in Elems(b) ensures x in Elems(a) {
      assert x in multiset(b);
    }
  }

  /** The keys in ascending order (insertion sort). */
  function SortKeys(keys: seq<string>): (r: seq<string>)
    requires Distinct(keys)
    ensures StrictlyAscending(r)
    ensures multiset(r) == multiset(keys)
  {
    if |keys| == 0 then []
    else
      var t := SortKeys(keys[1..]);
      assert keys == [keys[0]] + keys[1..];
      assert keys[0] !in multiset(keys[1..]);
      Insert(keys[0], t)
  }

  /** A strictly ascending list is fixed by its set of elements. */
  lemma {:induction false} SortedUnique(a: seq<string>, b: seq<string>)
    requires StrictlyAscending(a) && StrictlyAscending(b)
    requires Elems(a) == Elems(b)
    ensures a == b
  {
    ElemsEmpty(a);
    ElemsEmpty(b);
    if |a| == 0 || |b| == 0 {
    } else {
      assert a[0] in Elems(b) && b[0] in Elems(a);
      var i :| 0 <= i < |a| && a[i] == b[0];
      var j :| 0 <= j < |b| && b[j] == a[0];
      if i > 0 && j > 0 {
        LessAsymmetric(a[0], a[i]);
        assert false;
      }
      assert a[0] == b[0];
      forall x | x in a[1..]
        ensures x in b[1..]
      {
        var p :| 1 <= p < |a| && a[p] == x;
        assert x in Elems(b);
        var q :| 0 <= q < |b| && b[q] == x;
        if q == 0 {
          LessIrreflexive(a[0]);
        }
      }
      forall x | x in b[1..]
        ensures x in a[1..]
      {
        var q :| 1 <= q < |b| && b[q] == x;
        assert x in Elems(a);
        var p :| 0 <= p < |a| && a[p] == x;
        if p == 0 {
          LessIrreflexive(b[0]);
        }
      }
      assert Elems(a[1..]) == Elems(b[1..]);
      SortedUnique(a[1..], b[1..]);
      assert a == [a[0]] + a[1..] && b == [b[0]] + b[1..];
    }
  }

  /** Sorting does not depend on the order in which the keys were enumerated. */
  lemma SortKeysCanonical(k1: seq<string>, k2: seq<string>)
    requires Distinct(k1) && Distinct(k2)
    requires Elems(k1) == Elems(k2)
    ensures SortKeys(k1) == SortKeys(k2)
  {
    var s1, s2 := SortKeys(k1), SortKeys(k2);
    SameElems(s1, k1);
    SameElems(s2, k2);
    SortedUnique(s1, s2);
  }
}
