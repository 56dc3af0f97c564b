/**
 * The library calls getLongestCompWord makes on its word lists:
 * sort.Strings, sort.Sort(ByLength(...)) and sort.SearchStrings.  The sorts
 * are modelled by what they deliver (a sorted permutation), through an
 * insertion sort of the model's own.
 */
module Sorting {
  import opened Order

  /** Puts `x` into the sorted `s` before the first element not less than it. */
  function Insert<T(!new)>(x: T, s: seq<T>, less: (T, T) -> bool): (r: seq<T>)
    requires StrictWeakOrder(less) && SortedBy(s, less)
    ensures SortedBy(r, less)
    ensures multiset(r) == multiset(s) + multiset{x}
    decreases |s|
  {
    if s == [] || !less(s[0], x) then [x] + s
    else
      var tail := Insert(x, s[1..], less);
      assert s == [s[0]] + s[1..];
      assert forall k :: 0 <= k < |tail| ==> !less(tail[k], s[0]) by {
        forall k | 0 <= k < |tail| ensures !less(tail[k], s[0]) {
          assert tail[k] in multiset(tail);
          if tail[k] != x {
            assert tail[k] in multiset(s[1..]);
            var q :| 0 <= q < |s[1..]| && s[1..][q] == tail[k];
            assert s[q + 1] == tail[k];
          }
        }
      }
      [s[0]] + tail
  }

  /** An ordering of `s` by `less`; ties keep no promised order. */
  function SortBy<T(!new)>(s: seq<T>, less: (T, T) -> bool): (r: seq<T>)
    requires StrictWeakOrder(less)
    ensures SortedBy(r, less)
    ensures multiset(r) == multiset(s)
    decreases |s|
  {
    if s == [] then []
    else
      assert s == [s[0]] + s[1..];
      Insert(s[0], SortBy(s[1..], less), less)
  }

  /** sort.Strings: the words in ascending lexical order. */
  function SortStrings(words: seq<string>): (r: seq<string>)
    ensures SortedBy(r, LexLess)
    ensures multiset(r) == multiset(words)
  {
    LexIsStrictWeakOrder();
    SortBy(words, LexLess)
  }

  /** sort.Sort(ByLength(words)): the words in non-decreasing length. */
  function SortByLength(words: seq<string>): (r: seq<string>)
    ensures LengthSorted(r)
    ensures multiset(r) == multiset(words)
  {
    LengthIsStrictWeakOrder();
    var r := SortBy(words, LengthLess);
    SortedByLength(r);
    r
  }

  /**
   * sort.SearchStrings: the least index `pos` at which `a[pos] >= x` in the
   * lexically sorted `a` (|a| when there is none), found by sort.Search's
   * halving loop.
   */
  method SearchStrings(a: seq<string>, x: string) returns (pos: int)
    requires SortedBy(a, LexLess)
    ensures 0 <= pos <= |a|
    ensures forall k :: 0 <= k < pos ==> LexLess(a[k], x)
    ensures forall k :: pos <= k < |a| ==> !LexLess(a[k], x)
  {
    LexIsStrictWeakOrder();
    var i, j := 0, |a|;
    while i < j
      invariant 0 <= i <= j <= |a|
      invariant forall k :: 0 <= k < i ==> LexLess(a[k], x)
      invariant forall k :: j <= k < |a| ==> !LexLess(a[k], x)
    {
      var h := (i + j) / 2;
      if LexLess(a[h], x) {
        assert forall k :: 0 <= k < h ==> !LexLess(a[h], a[k]);
        i := h + 1;
      } else {
        assert forall k :: h < k < |a| ==> !LexLess(a[k], a[h]);
        j := h;
      }
    }
    pos := i;
  }

  /**
   * At the index SearchStrings returns, the comparison
   * `pos < len(a) && a[pos] == x` holds exactly when `x` is in `a`.
   */
  lemma SearchFindsMember(a: seq<string>, x: string, pos: int)
    requires SortedBy(a, LexLess)
    requires 0 <= pos <= |a|
    requires forall k :: 0 <= k < pos ==> LexLess(a[k], x)
    requires forall k :: pos <= k < |a| ==> !LexLess(a[k], x)
    ensures (pos < |a| && a[pos] == x) <==> x in a
  {
    if x in a {
      var k :| 0 <= k < |a| && a[k] == x;
      LexLessIrreflexive(x);
      assert pos <= k;
      LexLessTotal(a[pos], x);
      if pos < k {
        assert !LexLess(a[k], a[pos]);
      }
    }
  }
}
