/**
 * isStringConcat: whether a word can be put together from words of the
 * list.  The reference predicate IsConcat states the acceptance rule; the
 * method IsStringConcat is the source's loops, proved to compute it.
 */
module Concat {
  import opened GoStrings
  import opened Order
  import opened Sorting
  import opened StartIndices

  /**
   * What isStringConcat relies on: a non-empty list of non-empty words, a
   * lexically sorted list of the same size for the binary search, and a
   * table whose entries are positions of the length-sorted list.
   */
  ghost predicate Usable(sortedWords: seq<string>, lexSortWords: seq<string>, startIndices: seq<int>)
  {
    && |sortedWords| > 0
    && |lexSortWords| == |sortedWords|
    && (forall k :: 0 <= k < |sortedWords| ==> sortedWords[k] != [])
    && SortedBy(lexSortWords, LexLess)
    && (forall L :: 0 <= L < |startIndices| ==> 0 <= startIndices[L] < |sortedWords|)
  }

  /** The index `len(search_word) - min_word_len` lies inside the table. */
  ghost predicate InTable(sortedWords: seq<string>, startIndices: seq<int>, searchWord: string)
    requires |sortedWords| > 0
  {
    0 <= |searchWord| - MinWordLen(sortedWords) < |startIndices|
  }

  /**
   * comp_words as the first loop builds it: the words sortedWords[j], for j
   * from `hi` down to `lo`, that occur in `searchWord`, in that order.
   */
  function ComponentWords(sortedWords: seq<string>, searchWord: string, hi: int, lo: int): (r: seq<string>)
    requires 0 <= lo && hi < |sortedWords|
    decreases hi - lo
  {
    if lo > hi then []
    else
      ComponentWords(sortedWords, searchWord, hi, lo + 1)
      + (if Contains(searchWord, sortedWords[lo]) then [sortedWords[lo]] else [])
  }

  /**
   * The collected words are exactly the words at positions `lo` to `hi` that
   * occur in the search word, at most one per position.
   */
  lemma {:induction false} ComponentWordsMembers(sortedWords: seq<string>, searchWord: string, hi: int, lo: int)
    requires 0 <= lo && hi < |sortedWords|
    ensures |ComponentWords(sortedWords, searchWord, hi, lo)| <= if lo > hi then 0 else hi - lo + 1
    ensures forall c :: c in ComponentWords(sortedWords, searchWord, hi, lo) <==>
      exists k :: lo <= k <= hi && sortedWords[k] == c && Contains(searchWord, c)
    decreases hi - lo
  {
    if lo <= hi {
      ComponentWordsMembers(sortedWords, searchWord, hi, lo + 1);
    }
  }

  /**
   * Which acceptance rule a predicate follows: the one main.go implements,
   * or the one its comments describe (see ComponentWorks).
   */
  datatype Rule = AsWritten | Intended

  /**
   * The acceptance rule: some word at a position from
   * startIndices[len(w) - min_word_len] down to 0 occurs in `w` and works as
   * a component.
   */
  predicate IsConcat(rule: Rule, sortedWords: seq<string>, lexSortWords: seq<string>, startIndices: seq<int>, w: string)
    requires Usable(sortedWords, lexSortWords, startIndices)
    requires InTable(sortedWords, startIndices, w)
    decreases |w|, 2
  {
    exists j :: 0 <= j <= startIndices[|w| - MinWordLen(sortedWords)]
      && Contains(w, sortedWords[j])
      && ComponentWorks(rule, sortedWords, lexSortWords, startIndices, w, sortedWords[j])
  }

  /**
   * Component `c` works for `w` when, of the first two tokens of
   * strings.Split(w, c), not both are empty, tokens[0] resolves and
   * tokens[1] resolves.  As written, main.go also accepts a tokens[1] of
   * exactly min_word_len characters that is not a listed word, as soon as a
   * non-empty tokens[0] has resolved: the failed binary search for tokens[1]
   * leaves `found` as the tokens[0] step set it.
   */
  predicate ComponentWorks(rule: Rule, sortedWords: seq<string>, lexSortWords: seq<string>, startIndices: seq<int>,
                           w: string, c: string)
    requires Usable(sortedWords, lexSortWords, startIndices)
    requires InTable(sortedWords, startIndices, w)
    requires c != [] && Contains(w, c)
    decreases |w|, 1
  {
    TokensShorter(w, c);
    var tokens := Split(w, c);
    && !(tokens[0] == [] && tokens[1] == [])
    && Resolves(rule, sortedWords, lexSortWords, startIndices, tokens[0])
    && (|| Resolves(rule, sortedWords, lexSortWords, startIndices, tokens[1])
        || (rule == AsWritten && tokens[0] != [] && |tokens[1]| == MinWordLen(sortedWords)))
  }

  /**
   * A token resolves when it is empty, or it is at least min_word_len long
   * and either is a listed word or, being longer than min_word_len, is
   * itself a concatenation.
   */
  predicate Resolves(rule: Rule, sortedWords: seq<string>, lexSortWords: seq<string>, startIndices: seq<int>, t: string)
    requires Usable(sortedWords, lexSortWords, startIndices)
    requires |t| - MinWordLen(sortedWords) < |startIndices|
    decreases |t|, 3
  {
    var m := MinWordLen(sortedWords);
    t == [] || (|t| >= m && (t in lexSortWords || (|t| > m && IsConcat(rule, sortedWords, lexSortWords, startIndices, t))))
  }

  /**
   * isStringConcat (main.go lines 23-73): collect the component words, then
   * try them in turn and stop at the first that works.
   */
  method IsStringConcat(sortedWords: seq<string>, lexSortWords: seq<string>, searchWord: string,
                        startIndices: seq<int>) returns (concat: bool)
    requires Usable(sortedWords, lexSortWords, startIndices)
    requires InTable(sortedWords, startIndices, searchWord)
    ensures concat == IsConcat(AsWritten, sortedWords, lexSortWords, startIndices, searchWord)
    decreases |searchWord|, 1
  {
    var compWords := CollectComponentWords(sortedWords, searchWord, startIndices);
    ComponentWordsMembers(sortedWords, searchWord, startIndices[|searchWord| - MinWordLen(sortedWords)], 0);
    for k := 0 to |compWords|
      invariant forall q :: 0 <= q < k ==>
        && compWords[q] != [] && Contains(searchWord, compWords[q])
        && !ComponentWorks(AsWritten, sortedWords, lexSortWords, startIndices, searchWord, compWords[q])
    {
      assert compWords[k] in compWords;
      var found := TryComponent(sortedWords, lexSortWords, searchWord, startIndices, compWords[k]);
      if found {
        ConcatByComponent(sortedWords, lexSortWords, startIndices, searchWord, compWords, k);
        return true;
      }
    }
    NotConcatByComponents(sortedWords, lexSortWords, startIndices, searchWord, compWords);
    return false;
  }

  /**
   * The first loop of isStringConcat (lines 27-34): walk j from
   * startIndices[len(search_word) - min_word_len] down to 0 and append every
   * sortedWords[j] that occurs in the search word.
   */
  method CollectComponentWords(sortedWords: seq<string>, searchWord: string, startIndices: seq<int>)
    returns (compWords: seq<string>)
    requires |sortedWords| > 0 && InTable(sortedWords, startIndices, searchWord)
    requires forall L :: 0 <= L < |startIndices| ==> 0 <= startIndices[L] < |sortedWords|
    ensures compWords == ComponentWords(sortedWords, searchWord, startIndices[|searchWord| - MinWordLen(sortedWords)], 0)
  {
    var minWordLen := |sortedWords[0]|;
    var bound := startIndices[|searchWord| - minWordLen];
    compWords := [];
    var j := bound;
    while j >= 0
      invariant -1 <= j <= bound
      invariant compWords == ComponentWords(sortedWords, searchWord, bound, j + 1)
    {
      if Contains(searchWord, sortedWords[j]) {
        compWords := compWords + [sortedWords[j]];
      }
      j := j - 1;
    }
  }

  /**
   * The body of the second loop of isStringConcat (lines 37-69) for one
   * component word: split, resolve tokens[0] when it and tokens[1] are long
   * enough, then tokens[1] when tokens[0] is empty or resolved; each token
   * by binary search in the lexical list, else by recursion when it is
   * longer than min_word_len.
   */
  method TryComponent(sortedWords: seq<string>, lexSortWords: seq<string>, searchWord: string,
                      startIndices: seq<int>, cWord: string) returns (found: bool)
    requires Usable(sortedWords, lexSortWords, startIndices)
    requires InTable(sortedWords, startIndices, searchWord)
    requires cWord != [] && Contains(searchWord, cWord)
    ensures found == ComponentWorks(AsWritten, sortedWords, lexSortWords, startIndices, searchWord, cWord)
    decreases |searchWord|, 0
  {
    var totalWords := |sortedWords|;
    var minWordLen := |sortedWords[0]|;
    found := false;
    var pos := totalWords;
    TokensShorter(searchWord, cWord);
    var tokens := Split(searchWord, cWord);
    if tokens[0] != "" && |tokens[0]| >= minWordLen {
      if tokens[1] == "" || |tokens[1]| >= minWordLen {
        pos := SearchStrings(lexSortWords, tokens[0]);
        SearchFindsMember(lexSortWords, tokens[0], pos);
        if pos < totalWords && tokens[0] == lexSortWords[pos] {
          found := true;
        } else {
          if |tokens[0]| > minWordLen {
            found := IsStringConcat(sortedWords, lexSortWords, tokens[0], startIndices);
          }
        }
      }
    }
    ghost var found0 := found;
    assert found0 == (tokens[0] != "" && (tokens[1] == "" || |tokens[1]| >= minWordLen)
                      && Resolves(AsWritten, sortedWords, lexSortWords, startIndices, tokens[0]));
    if tokens[1] != "" && |tokens[1]| >= minWordLen {
      if tokens[0] == "" || (tokens[0] != "" && found) {
        pos := SearchStrings(lexSortWords, tokens[1]);
        SearchFindsMember(lexSortWords, tokens[1], pos);
        if pos < totalWords && tokens[1] == lexSortWords[pos] {
          found := true;
        } else {
          if |tokens[1]| > minWordLen {
            found := IsStringConcat(sortedWords, lexSortWords, tokens[1], startIndices);
          }
        }
      }
    }
  }

  /** A working component among the collected ones makes the word a concatenation. */
  lemma ConcatByComponent(sortedWords: seq<string>, lexSortWords: seq<string>, startIndices: seq<int>,
                          w: string, compWords: seq<string>, k: int)
    requires Usable(sortedWords, lexSortWords, startIndices)
    requires InTable(sortedWords, startIndices, w)
    requires compWords == ComponentWords(sortedWords, w, startIndices[|w| - MinWordLen(sortedWords)], 0)
    requires 0 <= k < |compWords| && compWords[k] != [] && Contains(w, compWords[k])
    requires ComponentWorks(AsWritten, sortedWords, lexSortWords, startIndices, w, compWords[k])
    ensures IsConcat(AsWritten, sortedWords, lexSortWords, startIndices, w)
  {
    ComponentWordsMembers(sortedWords, w, startIndices[|w| - MinWordLen(sortedWords)], 0);
    assert compWords[k] in compWords;
  }

  /** When no collected component works, the word is not a concatenation. */
  lemma NotConcatByComponents(sortedWords: seq<string>, lexSortWords: seq<string>, startIndices: seq<int>,
                              w: string, compWords: seq<string>)
    requires Usable(sortedWords, lexSortWords, startIndices)
    requires InTable(sortedWords, startIndices, w)
    requires compWords == ComponentWords(sortedWords, w, startIndices[|w| - MinWordLen(sortedWords)], 0)
    requires forall q :: 0 <= q < |compWords| ==>
      && compWords[q] != [] && Contains(w, compWords[q])
      && !ComponentWorks(AsWritten, sortedWords, lexSortWords, startIndices, w, compWords[q])
    ensures !IsConcat(AsWritten, sortedWords, lexSortWords, startIndices, w)
  {
    var bound := startIndices[|w| - MinWordLen(sortedWords)];
    ComponentWordsMembers(sortedWords, w, bound, 0);
    forall j | 0 <= j <= bound && Contains(w, sortedWords[j])
      ensures !ComponentWorks(AsWritten, sortedWords, lexSortWords, startIndices, w, sortedWords[j])
    {
      assert sortedWords[j] in compWords;
    }
  }

  /** A word always contains itself. */
  lemma ContainsItself(w: string)
    requires w != []
    ensures Contains(w, w) && IndexOf(w, w) == 0
  {
    MatchesAtOccurs(w, w, 0);
    assert w[0..|w|] == w;
  }

  /** A word is never a component of itself: both tokens of Split(w, w) are empty. */
  lemma SelfComponentFails(rule: Rule, sortedWords: seq<string>, lexSortWords: seq<string>, startIndices: seq<int>,
                           w: string)
    requires Usable(sortedWords, lexSortWords, startIndices)
    requires InTable(sortedWords, startIndices, w)
    requires w != []
    ensures Contains(w, w)
    ensures !ComponentWorks(rule, sortedWords, lexSortWords, startIndices, w, w)
  {
    ContainsItself(w);
    FirstTwoTokens(w, w);
    assert IndexFrom(w, w, |w|) == -1;
  }

  /** A non-empty token shorter than min_word_len makes the component fail. */
  lemma ShortTokenFails(rule: Rule, sortedWords: seq<string>, lexSortWords: seq<string>, startIndices: seq<int>,
                        w: string, c: string)
    requires Usable(sortedWords, lexSortWords, startIndices)
    requires InTable(sortedWords, startIndices, w)
    requires c != [] && Contains(w, c)
    requires var t := Split(w, c);
      |t| >= 2 && exists q :: 0 <= q < 2 && t[q] != [] && |t[q]| < MinWordLen(sortedWords)
    ensures !ComponentWorks(rule, sortedWords, lexSortWords, startIndices, w, c)
  {
    TokensShorter(w, c);
  }

  /**
   * A working component leaves room for at least min_word_len more
   * characters of the word.
   */
  lemma ComponentLeavesRoom(rule: Rule, sortedWords: seq<string>, lexSortWords: seq<string>, startIndices: seq<int>,
                            w: string, c: string)
    requires Usable(sortedWords, lexSortWords, startIndices)
    requires InTable(sortedWords, startIndices, w)
    requires c != [] && Contains(w, c)
    requires ComponentWorks(rule, sortedWords, lexSortWords, startIndices, w, c)
    ensures |c| + MinWordLen(sortedWords) <= |w|
  {
    TokensJoined(w, c);
    TokensShorter(w, c);
    var t := Split(w, c);
    var m := IndexOf(w, c);
    var n := IndexFrom(w, c, m + |c|);
    assert |t[0] + c + t[1]| <= |w|;
  }

  /** A word shorter than twice min_word_len is never a concatenation. */
  lemma ShortWordIsNotConcat(rule: Rule, sortedWords: seq<string>, lexSortWords: seq<string>, startIndices: seq<int>,
                             w: string)
    requires Usable(sortedWords, lexSortWords, startIndices) && LengthSorted(sortedWords)
    requires InTable(sortedWords, startIndices, w)
    requires |w| < 2 * MinWordLen(sortedWords)
    ensures !IsConcat(rule, sortedWords, lexSortWords, startIndices, w)
  {
    var b := startIndices[|w| - MinWordLen(sortedWords)];
    forall j | 0 <= j <= b && Contains(w, sortedWords[j])
      ensures !ComponentWorks(rule, sortedWords, lexSortWords, startIndices, w, sortedWords[j])
    {
      assert |sortedWords[0]| <= |sortedWords[j]|;
      if ComponentWorks(rule, sortedWords, lexSortWords, startIndices, w, sortedWords[j]) {
        ComponentLeavesRoom(rule, sortedWords, lexSortWords, startIndices, w, sortedWords[j]);
      }
    }
  }

  /**
   * With the table getLongestCompWord builds, the words tried as components
   * of `w` are sortedWords[0] and words of length at most
   * len(w) - min_word_len; a word of such a length after the bound has the
   * same length as the word at the bound, so only the first word of that
   * length is ever tried.
   */
  lemma CandidateRange(sortedWords: seq<string>, w: string)
    requires |sortedWords| > 0 && LengthSorted(sortedWords)
    requires InTable(sortedWords, StartTable(sortedWords), w)
    ensures var L := |w| - MinWordLen(sortedWords);
      var b := StartTable(sortedWords)[L];
      && (forall j :: 0 <= j <= b ==> j == 0 || |sortedWords[j]| <= L)
      && (forall j :: b < j < |sortedWords| && |sortedWords[j]| <= L ==> |sortedWords[j]| == |sortedWords[b]|)
  {
    var L := |w| - MinWordLen(sortedWords);
    if L >= MinWordLen(sortedWords) {
      StartEntryCharacterization(sortedWords, L);
    } else {
      assert forall j :: 0 <= j < |sortedWords| ==> |sortedWords[0]| <= |sortedWords[j]|;
    }
  }

  /**
   * The intended rule is the stricter one: whatever it accepts, main.go
   * accepts too.  ConcatIntendedAsWritten, ComponentIntendedAsWritten and
   * ResolvesIntendedAsWritten follow the mutual recursion of IsConcat,
   * ComponentWorks and Resolves.
   */
  lemma {:induction false} ConcatIntendedAsWritten(sortedWords: seq<string>, lexSortWords: seq<string>,
                                                   startIndices: seq<int>, w: string)
    requires Usable(sortedWords, lexSortWords, startIndices)
    requires InTable(sortedWords, startIndices, w)
    ensures IsConcat(Intended, sortedWords, lexSortWords, startIndices, w) ==>
      IsConcat(AsWritten, sortedWords, lexSortWords, startIndices, w)
    decreases |w|, 2
  {
    if IsConcat(Intended, sortedWords, lexSortWords, startIndices, w) {
      var j :| 0 <= j <= startIndices[|w| - MinWordLen(sortedWords)]
        && Contains(w, sortedWords[j])
        && ComponentWorks(Intended, sortedWords, lexSortWords, startIndices, w, sortedWords[j]);
      ComponentIntendedAsWritten(sortedWords, lexSortWords, startIndices, w, sortedWords[j]);
    }
  }

  lemma {:induction false} ComponentIntendedAsWritten(sortedWords: seq<string>, lexSortWords: seq<string>,
                                                      startIndices: seq<int>, w: string, c: string)
    requires Usable(sortedWords, lexSortWords, startIndices)
    requires InTable(sortedWords, startIndices, w)
    requires c != [] && Contains(w, c)
    ensures ComponentWorks(Intended, sortedWords, lexSortWords, startIndices, w, c) ==>
      ComponentWorks(AsWritten, sortedWords, lexSortWords, startIndices, w, c)
    decreases |w|, 1
  {
    TokensShorter(w, c);
    var tokens := Split(w, c);
    ResolvesIntendedAsWritten(sortedWords, lexSortWords, startIndices, tokens[0]);
    ResolvesIntendedAsWritten(sortedWords, lexSortWords, startIndices, tokens[1]);
  }

  lemma {:induction false} ResolvesIntendedAsWritten(sortedWords: seq<string>, lexSortWords: seq<string>,
                                                     startIndices: seq<int>, t: string)
    requires Usable(sortedWords, lexSortWords, startIndices)
    requires |t| - MinWordLen(sortedWords) < |startIndices|
    ensures Resolves(Intended, sortedWords, lexSortWords, startIndices, t) ==>
      Resolves(AsWritten, sortedWords, lexSortWords, startIndices, t)
    decreases |t|, 3
  {
    if |t| > MinWordLen(sortedWords) {
      ConcatIntendedAsWritten(sortedWords, lexSortWords, startIndices, t);
    }
  }

  /**
   * Under the intended rule both tokens of a working component are empty,
   * listed words or concatenations themselves; in particular a tokens[1] of
   * exactly min_word_len characters must be a listed word.
   */
  lemma IntendedTokensResolve(sortedWords: seq<string>, lexSortWords: seq<string>, startIndices: seq<int>,
                              w: string, c: string)
    requires Usable(sortedWords, lexSortWords, startIndices)
    requires InTable(sortedWords, startIndices, w)
    requires c != [] && Contains(w, c)
    requires ComponentWorks(Intended, sortedWords, lexSortWords, startIndices, w, c)
    ensures var t := Split(w, c);
      && |t| >= 2 && |t[0]| < |w| && |t[1]| < |w| && (t[0] != [] || t[1] != [])
      && (forall q :: 0 <= q < 2 && t[q] != [] ==>
            |t[q]| >= MinWordLen(sortedWords)
            && (t[q] in lexSortWords || (|t[q]| > MinWordLen(sortedWords)
                && IsConcat(Intended, sortedWords, lexSortWords, startIndices, t[q]))))
      && (|t[1]| == MinWordLen(sortedWords) ==> t[1] in lexSortWords)
  {
    TokensShorter(w, c);
  }

  /**
   * When the table entry for `w` is 0, sortedWords[0] is the only word tried
   * as its component.
   */
  lemma SingleCandidate(rule: Rule, sortedWords: seq<string>, lexSortWords: seq<string>, startIndices: seq<int>,
                        w: string)
    requires Usable(sortedWords, lexSortWords, startIndices)
    requires InTable(sortedWords, startIndices, w)
    requires startIndices[|w| - MinWordLen(sortedWords)] == 0
    ensures IsConcat(rule, sortedWords, lexSortWords, startIndices, w) <==>
      Contains(w, sortedWords[0]) && ComponentWorks(rule, sortedWords, lexSortWords, startIndices, w, sortedWords[0])
  {
  }
}
