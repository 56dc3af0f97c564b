/**
 * getLongestCompWord: prepare the two sorted lists and the startIndices
 * table, then try the words from the longest down and return the first
 * one isStringConcat accepts, or "" when there is none.
 */
module Longest {
  import opened Order
  import opened Sorting
  import opened StartIndices
  import opened Concat

  /**
   * The lists as getLongestCompWord hands them to isStringConcat: usable,
   * sorted by length, with the table built from the length-sorted list, so
   * that every word of the list has its entry in the table.
   */
  ghost predicate Prepared(sortedWords: seq<string>, lexSortWords: seq<string>, startIndices: seq<int>)
  {
    && Usable(sortedWords, lexSortWords, startIndices)
    && LengthSorted(sortedWords)
    && startIndices == StartTable(sortedWords)
    && (forall k :: 0 <= k < |sortedWords| ==> InTable(sortedWords, startIndices, sortedWords[k]))
  }

  /**
   * The outcome of the countdown over prepared lists: "" when no word is
   * accepted, otherwise the word at the highest position that is accepted.
   */
  ghost predicate IsLongestCompound(rule: Rule, sortedWords: seq<string>, lexSortWords: seq<string>,
                                    startIndices: seq<int>, r: string)
    requires Prepared(sortedWords, lexSortWords, startIndices)
  {
    || (&& r == ""
        && forall k :: 0 <= k < |sortedWords| ==> !IsConcat(rule, sortedWords, lexSortWords, startIndices, sortedWords[k]))
    || (exists i :: 0 <= i < |sortedWords| && r == sortedWords[i]
         && IsConcat(rule, sortedWords, lexSortWords, startIndices, sortedWords[i])
         && forall k :: i < k < |sortedWords| ==> !IsConcat(rule, sortedWords, lexSortWords, startIndices, sortedWords[k]))
  }

  /**
   * Sorting copies of a non-empty list of non-empty words, and building the
   * table over the length-sorted copy, gives prepared lists.
   */
  lemma PreparedLists(words: seq<string>)
    requires |words| > 0
    requires forall k :: 0 <= k < |words| ==> words[k] != []
    ensures var sortedWords := SortByLength(words);
      && |sortedWords| == |words| && |SortStrings(words)| == |words|
      && Prepared(sortedWords, SortStrings(words), StartTable(sortedWords))
  {
    var sortedWords, lexSortWords := SortByLength(words), SortStrings(words);
    assert |sortedWords| == |multiset(sortedWords)| == |multiset(words)| == |words|;
    assert |lexSortWords| == |multiset(lexSortWords)| == |multiset(words)| == |words|;
    forall k | 0 <= k < |sortedWords| ensures sortedWords[k] != [] {
      assert sortedWords[k] in multiset(words);
    }
    StartTableShape(sortedWords);
  }

  /**
   * getLongestCompWord (main.go lines 81-120): sort a copy of the words
   * lexically and another by length, build the table, then count down from
   * the last position and return the first word isStringConcat accepts.
   */
  method GetLongestCompWord(words: seq<string>) returns (longestCompWord: string)
    requires |words| > 0
    requires forall k :: 0 <= k < |words| ==> words[k] != []
    ensures var sortedWords := SortByLength(words);
      && Prepared(sortedWords, SortStrings(words), StartTable(sortedWords))
      && IsLongestCompound(AsWritten, sortedWords, SortStrings(words), StartTable(sortedWords), longestCompWord)
  {
    longestCompWord := "";
    var found := false;
    var totalWords := |words|;
    var lexSortWords := SortStrings(words);
    var sortedWords := SortByLength(words);
    var startIndices := BuildStartIndices(sortedWords);
    PreparedLists(words);
    var i := totalWords - 1;
    while i >= 0
      invariant -1 <= i < totalWords
      invariant forall k :: i < k < totalWords ==>
        !IsConcat(AsWritten, sortedWords, lexSortWords, startIndices, sortedWords[k])
    {
      found := IsStringConcat(sortedWords, lexSortWords, sortedWords[i], startIndices);
      if found {
        longestCompWord := sortedWords[i];
        return;
      }
      i := i - 1;
    }
  }

  /** The outcome is determined by the prepared lists. */
  lemma LongestIsUnique(rule: Rule, sortedWords: seq<string>, lexSortWords: seq<string>, startIndices: seq<int>,
                        r1: string, r2: string)
    requires Prepared(sortedWords, lexSortWords, startIndices)
    requires IsLongestCompound(rule, sortedWords, lexSortWords, startIndices, r1)
    requires IsLongestCompound(rule, sortedWords, lexSortWords, startIndices, r2)
    ensures r1 == r2
  {
    if r1 != "" && r2 != "" {
      var i1 :| 0 <= i1 < |sortedWords| && r1 == sortedWords[i1]
        && IsConcat(rule, sortedWords, lexSortWords, startIndices, sortedWords[i1])
        && forall k :: i1 < k < |sortedWords| ==> !IsConcat(rule, sortedWords, lexSortWords, startIndices, sortedWords[k]);
      var i2 :| 0 <= i2 < |sortedWords| && r2 == sortedWords[i2]
        && IsConcat(rule, sortedWords, lexSortWords, startIndices, sortedWords[i2])
        && forall k :: i2 < k < |sortedWords| ==> !IsConcat(rule, sortedWords, lexSortWords, startIndices, sortedWords[k]);
      assert i1 == i2;
    }
  }

  /**
   * The outcome is "" exactly when no word of the list is accepted; a
   * non-empty outcome is an accepted word of the list, and no accepted word
   * is longer than it.
   */
  lemma ResultIsLongest(rule: Rule, sortedWords: seq<string>, lexSortWords: seq<string>, startIndices: seq<int>,
                        r: string)
    requires Prepared(sortedWords, lexSortWords, startIndices)
    requires IsLongestCompound(rule, sortedWords, lexSortWords, startIndices, r)
    ensures (r == "") <==>
      forall k :: 0 <= k < |sortedWords| ==> !IsConcat(rule, sortedWords, lexSortWords, startIndices, sortedWords[k])
    ensures r != "" ==> r in sortedWords && IsConcat(rule, sortedWords, lexSortWords, startIndices, r)
    ensures forall k :: 0 <= k < |sortedWords| && IsConcat(rule, sortedWords, lexSortWords, startIndices, sortedWords[k]) ==>
      |sortedWords[k]| <= |r|
  {
    if r != "" {
      var i :| 0 <= i < |sortedWords| && r == sortedWords[i]
        && IsConcat(rule, sortedWords, lexSortWords, startIndices, sortedWords[i])
        && forall k :: i < k < |sortedWords| ==> !IsConcat(rule, sortedWords, lexSortWords, startIndices, sortedWords[k]);
      forall k | 0 <= k < |sortedWords| && IsConcat(rule, sortedWords, lexSortWords, startIndices, sortedWords[k])
        ensures |sortedWords[k]| <= |r|
      {
        assert k <= i;
      }
    }
  }

  /**
   * When all words have the same length (a one-word list among them), no
   * word is accepted and the outcome is "".
   */
  lemma UniformLengthGivesNone(rule: Rule, sortedWords: seq<string>, lexSortWords: seq<string>,
                               startIndices: seq<int>, r: string)
    requires Prepared(sortedWords, lexSortWords, startIndices)
    requires forall k :: 0 <= k < |sortedWords| ==> |sortedWords[k]| == |sortedWords[0]|
    requires IsLongestCompound(rule, sortedWords, lexSortWords, startIndices, r)
    ensures r == ""
  {
    forall k | 0 <= k < |sortedWords|
      ensures !IsConcat(rule, sortedWords, lexSortWords, startIndices, sortedWords[k])
    {
      ShortWordIsNotConcat(rule, sortedWords, lexSortWords, startIndices, sortedWords[k]);
    }
    ResultIsLongest(rule, sortedWords, lexSortWords, startIndices, r);
  }

  /** Whatever the intended rule finds, main.go's rule finds a word at least as long. */
  lemma AsWrittenFindsAtLeastAsLong(sortedWords: seq<string>, lexSortWords: seq<string>, startIndices: seq<int>,
                                    rIntended: string, rAsWritten: string)
    requires Prepared(sortedWords, lexSortWords, startIndices)
    requires IsLongestCompound(Intended, sortedWords, lexSortWords, startIndices, rIntended)
    requires IsLongestCompound(AsWritten, sortedWords, lexSortWords, startIndices, rAsWritten)
    ensures |rIntended| <= |rAsWritten|
  {
    if rIntended != "" {
      ResultIsLongest(Intended, sortedWords, lexSortWords, startIndices, rIntended);
      var i :| 0 <= i < |sortedWords| && sortedWords[i] == rIntended;
      ConcatIntendedAsWritten(sortedWords, lexSortWords, startIndices, rIntended);
      ResultIsLongest(AsWritten, sortedWords, lexSortWords, startIndices, rAsWritten);
    }
  }

  /** A one-word list has no compound word: the outcome is "". */
  lemma OneWordGivesNone(words: seq<string>, r: string)
    requires |words| == 1 && words[0] != []
    requires IsLongestCompound(AsWritten, SortByLength(words), SortStrings(words), StartTable(SortByLength(words)), r)
    ensures r == ""
  {
    PreparedLists(words);
    UniformLengthGivesNone(AsWritten, SortByLength(words), SortStrings(words), StartTable(SortByLength(words)), r);
  }
}
