/**
 * The two orders the word list is sorted by: Go's built-in `<` on strings
 * (used by sort.Strings and sort.SearchStrings) and ByLength.Less.
 */
module Order {

  /** A strict weak order: asymmetric, and its negation is transitive. */
  ghost predicate StrictWeakOrder<T(!new)>(less: (T, T) -> bool)
  {
    && (forall a, b :: less(a, b) ==> !less(b, a))
    && (forall a, b, c :: !less(a, b) && !less(b, c) ==> !less(a, c))
  }

  /** No element is `less` than an element before it. */
  ghost predicate SortedBy<T>(s: seq<T>, less: (T, T) -> bool)
  {
    forall i, j :: 0 <= i < j < |s| ==> !less(s[j], s[i])
  }

  /**
   * Go's `a < b` on strings: at the first position where they differ `a` has
   * the smaller character, or `a` is a proper prefix of `b`.
   */
  predicate LexLess(a: string, b: string)
    decreases |a|
  {
    if a == [] then b != []
    else if b == [] then false
    else a[0] < b[0] || (a[0] == b[0] && LexLess(a[1..], b[1..]))
  }

  lemma {:induction false} LexLessIrreflexive(a: string)
    ensures !LexLess(a, a)
    decreases |a|
  {
    if a != [] {
      LexLessIrreflexive(a[1..]);
    }
  }

  lemma {:induction false} LexLessTransitive(a: string, b: string, c: string)
    requires LexLess(a, b) && LexLess(b, c)
    ensures LexLess(a, c)
    decreases |a|
  {
    if a != [] && a[0] == b[0] && b[0] == c[0] {
      LexLessTransitive(a[1..], b[1..], c[1..]);
    }
  }

  /** Any two distinct strings are ordered one way or the other. */
  lemma {:induction false} LexLessTotal(a: string, b: string)
    ensures a == b || LexLess(a, b) || LexLess(b, a)
    decreases |a|
  {
    if a != [] && b != [] && a[0] == b[0] {
      LexLessTotal(a[1..], b[1..]);
      if a[1..] == b[1..] {
        assert a == [a[0]] + a[1..] && b == [b[0]] + b[1..];
      }
    }
  }

  lemma LexLessAsymmetric(a: string, b: string)
    requires LexLess(a, b)
    ensures !LexLess(b, a)
  {
    if LexLess(b, a) {
      LexLessTransitive(a, b, a);
      LexLessIrreflexive(a);
    }
  }

  /** sort.Strings and sort.SearchStrings may rely on `<` being a strict weak order. */
  lemma LexIsStrictWeakOrder()
    ensures StrictWeakOrder(LexLess)
  {
    forall a, b | LexLess(a, b) ensures !LexLess(b, a) {
      LexLessAsymmetric(a, b);
    }
    forall a, b, c | !LexLess(a, b) && !LexLess(b, c) ensures !LexLess(a, c) {
      LexLessTotal(a, b);
      LexLessTotal(b, c);
      if LexLess(a, c) {
        if a == b {
          LexLessAsymmetric(a, c);
        } else if b == c {
          LexLessAsymmetric(a, b);
        } else {
          LexLessTransitive(c, b, a);
          LexLessAsymmetric(a, c);
        }
      }
    }
  }

  /** ByLength.Less: a word is less than another when it is shorter. */
  predicate LengthLess(a: string, b: string)
  {
    |a| < |b|
  }

  /** The order sort.Sort(ByLength(...)) produces: lengths never decrease. */
  ghost predicate LengthSorted(s: seq<string>)
  {
    forall i, j :: 0 <= i <= j < |s| ==> |s[i]| <= |s[j]|
  }

  lemma LengthIsStrictWeakOrder()
    ensures StrictWeakOrder(LengthLess)
  {
  }

  /** Sorted by ByLength.Less is the same as non-decreasing lengths. */
  lemma SortedByLength(s: seq<string>)
    ensures SortedBy(s, LengthLess) <==> LengthSorted(s)
  {
    if SortedBy(s, LengthLess) {
      forall i, j | 0 <= i <= j < |s| ensures |s[i]| <= |s[j]| {
        if i < j {
          assert !LengthLess(s[j], s[i]);
        }
      }
    }
  }

  /** Neighbours in strictly ascending lexical order make a lexically sorted list. */
  lemma LexChainSorted(s: seq<string>)
    requires forall i :: 0 <= i < |s| - 1 ==> LexLess(s[i], s[i + 1])
    ensures SortedBy(s, LexLess)
  {
    forall i, j | 0 <= i < j < |s| ensures !LexLess(s[j], s[i]) {
      LexChainLess(s, i, j);
      LexLessAsymmetric(s[i], s[j]);
    }
  }

  lemma {:induction false} LexChainLess(s: seq<string>, i: int, j: int)
    requires forall i :: 0 <= i < |s| - 1 ==> LexLess(s[i], s[i + 1])
    requires 0 <= i < j < |s|
    ensures LexLess(s[i], s[j])
    decreases j - i
  {
    if i + 1 < j {
      LexChainLess(s, i + 1, j);
      LexLessTransitive(s[i], s[i + 1], s[j]);
    }
  }

  /** Neighbours of non-decreasing length make a length-sorted list. */
  lemma {:induction false} LengthChainSorted(s: seq<string>)
    requires forall i :: 0 <= i < |s| - 1 ==> |s[i]| <= |s[i + 1]|
    ensures LengthSorted(s)
    decreases |s|
  {
    if |s| > 1 {
      LengthChainSorted(s[1..]);
      forall i, j | 0 <= i <= j < |s| ensures |s[i]| <= |s[j]| {
        if 0 < i {
          assert s[i] == s[1..][i - 1] && s[j] == s[1..][j - 1];
        } else if 0 < j {
          assert s[1] == s[1..][0] && s[j] == s[1..][j - 1];
        }
      }
    }
  }
}
