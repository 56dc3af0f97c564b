/**
 * The startIndices table getLongestCompWord builds over the length-sorted
 * word list: entry L is a position in that list from which the search for
 * component words of a word of length L + min_word_len starts.
 */
module StartIndices {
  import opened Order

  /** min_word_len: the length of the first (shortest) word. */
  function MinWordLen(sorted: seq<string>): (r: nat)
    requires |sorted| > 0
    ensures LengthSorted(sorted) ==> forall k :: 0 <= k < |sorted| ==> r <= |sorted[k]|
  {
    |sorted[0]|
  }

  /** The length of the last (longest) word. */
  function MaxWordLen(sorted: seq<string>): (r: nat)
    requires |sorted| > 0
    ensures LengthSorted(sorted) ==> forall k :: 0 <= k < |sorted| ==> |sorted[k]| <= r
  {
    |sorted[|sorted| - 1]|
  }

  /** Some word of the list has length `L`. */
  predicate HasLength(sorted: seq<string>, L: int)
  {
    exists i :: 0 <= i < |sorted| && |sorted[i]| == L
  }

  /** The first position holding a word of length `L`. */
  function FirstOfLength(sorted: seq<string>, L: int): (r: nat)
    requires HasLength(sorted, L)
    ensures r < |sorted| && |sorted[r]| == L
    ensures forall i :: 0 <= i < r ==> |sorted[i]| != L
    decreases |sorted|
  {
    if |sorted[0]| == L then 0
    else
      var i :| 0 <= i < |sorted| && |sorted[i]| == L;
      assert sorted[1..][i - 1] == sorted[i];
      1 + FirstOfLength(sorted[1..], L)
  }

  /** The first position holding a word of length `L` is the one FirstOfLength returns. */
  lemma FirstOfLengthAt(sorted: seq<string>, L: int, i: int)
    requires 0 <= i < |sorted| && |sorted[i]| == L
    requires forall j :: 0 <= j < i ==> |sorted[j]| != L
    ensures HasLength(sorted, L) && FirstOfLength(sorted, L) == i
  {
  }

  /**
   * Entry `L` of the table: 0 up to the minimum length; for a length that
   * occurs, its first position; for a length that does not occur, the entry
   * of the length below it.
   */
  function StartEntry(sorted: seq<string>, L: int): (r: int)
    requires |sorted| > 0
    ensures 0 <= r < |sorted|
    decreases L
  {
    if L <= MinWordLen(sorted) then 0
    else if HasLength(sorted, L) then FirstOfLength(sorted, L)
    else StartEntry(sorted, L - 1)
  }

  /** The whole table: one entry per length from 0 to the maximum length. */
  function StartTable(sorted: seq<string>): (r: seq<int>)
    requires |sorted| > 0
    ensures |r| == MaxWordLen(sorted) + 1
    ensures forall L :: 0 <= L < |r| ==> r[L] == StartEntry(sorted, L)
  {
    seq(MaxWordLen(sorted) + 1, L => StartEntry(sorted, L))
  }

  /**
   * For a length L from the minimum up, entry L is the first position of the
   * longest length that occurs and is at most L.
   */
  lemma {:induction false} StartEntryCharacterization(sorted: seq<string>, L: int)
    requires |sorted| > 0 && LengthSorted(sorted) && L >= MinWordLen(sorted)
    ensures var e := StartEntry(sorted, L);
      && |sorted[e]| <= L
      && (forall j :: 0 <= j < e ==> |sorted[j]| < |sorted[e]|)
      && (forall j :: 0 <= j < |sorted| && |sorted[j]| <= L ==> |sorted[j]| <= |sorted[e]|)
    decreases L
  {
    if L > MinWordLen(sorted) && !HasLength(sorted, L) {
      StartEntryCharacterization(sorted, L - 1);
      assert forall j :: 0 <= j < |sorted| && |sorted[j]| <= L ==> |sorted[j]| <= L - 1;
    } else if L > MinWordLen(sorted) {
      var e := FirstOfLength(sorted, L);
      assert forall j :: 0 <= j < e ==> |sorted[j]| <= |sorted[e]|;
    } else {
      assert forall j :: 0 <= j < |sorted| ==> |sorted[0]| <= |sorted[j]|;
    }
  }

  /** The table never decreases. */
  lemma StartTableMonotone(sorted: seq<string>, L1: int, L2: int)
    requires |sorted| > 0 && LengthSorted(sorted) && L1 <= L2
    ensures StartEntry(sorted, L1) <= StartEntry(sorted, L2)
  {
    if L1 > MinWordLen(sorted) {
      StartEntryCharacterization(sorted, L1);
      StartEntryCharacterization(sorted, L2);
    }
  }

  /**
   * The contents of the table for a length-sorted list: it has an entry for
   * every length up to the maximum, entries up to the minimum length are 0,
   * an occurring longer length maps to its first position, any other length
   * copies the entry below it, and every entry is a position of the list.
   */
  lemma StartTableShape(sorted: seq<string>)
    requires |sorted| > 0 && LengthSorted(sorted)
    ensures var t := StartTable(sorted);
      && |t| == |sorted[|sorted| - 1]| + 1
      && (forall L :: 0 <= L <= |sorted[0]| ==> t[L] == 0)
      && (forall L :: |sorted[0]| < L < |t| && HasLength(sorted, L) ==>
            |sorted[t[L]]| == L && forall j :: 0 <= j < t[L] ==> |sorted[j]| < L)
      && (forall L :: |sorted[0]| < L < |t| && !HasLength(sorted, L) ==> t[L] == t[L - 1])
      && (forall L1, L2 :: 0 <= L1 <= L2 < |t| ==> t[L1] <= t[L2])
      && (forall L :: 0 <= L < |t| ==> 0 <= t[L] < |sorted|)
  {
    var t := StartTable(sorted);
    assert |sorted[0]| <= |sorted[|sorted| - 1]|;
    forall L | |sorted[0]| < L < |t| && HasLength(sorted, L)
      ensures |sorted[t[L]]| == L && forall j :: 0 <= j < t[L] ==> |sorted[j]| < L
    {
      var e := FirstOfLength(sorted, L);
      assert forall j :: 0 <= j < e ==> |sorted[j]| <= |sorted[e]|;
    }
    forall L1, L2 | 0 <= L1 <= L2 < |t| ensures t[L1] <= t[L2] {
      StartTableMonotone(sorted, L1, L2);
    }
  }

  /**
   * Lines 98-108 of getLongestCompWord: start with min_word_len + 1 zeros;
   * wherever the length grows from one word to the next, append the entry of
   * the previous length once for every skipped length, then the position of
   * the new length.  After word i the table has |sorted[i]| + 1 entries.
   */
  method BuildStartIndices(sortedWords: seq<string>) returns (startIndices: seq<int>)
    requires |sortedWords| > 0 && LengthSorted(sortedWords)
    ensures startIndices == StartTable(sortedWords)
  {
    var totalWords := |sortedWords|;
    startIndices := seq(|sortedWords[0]| + 1, _ => 0);
    for i := 1 to totalWords
      invariant |startIndices| == |sortedWords[i - 1]| + 1
      invariant forall L :: 0 <= L < |startIndices| ==> startIndices[L] == StartEntry(sortedWords, L)
    {
      if |sortedWords[i]| > |sortedWords[i - 1]| {
        ghost var prev := |sortedWords[i - 1]|;
        assert forall k :: 0 <= k < i ==> |sortedWords[k]| <= prev;
        assert forall k :: i <= k < totalWords ==> |sortedWords[i]| <= |sortedWords[k]|;
        for j := |sortedWords[i - 1]| + 1 to |sortedWords[i]|
          invariant |startIndices| == j
          invariant forall L :: 0 <= L < j ==> startIndices[L] == StartEntry(sortedWords, L)
          invariant forall L :: prev <= L < j ==> StartEntry(sortedWords, L) == startIndices[prev]
        {
          assert !HasLength(sortedWords, j);
          startIndices := startIndices + [startIndices[|sortedWords[i - 1]|]];
        }
        assert FirstOfLength(sortedWords, |sortedWords[i]|) == i;
        startIndices := startIndices + [i];
      }
    }
    assert startIndices == StartTable(sortedWords);
  }
}
