/**
 * Small word lists on which the acceptance rules of isStringConcat show
 * their character.  Each list is given as getLongestCompWord prepares it:
 * the length-sorted list, the lexically sorted list and the startIndices
 * table.
 */
module Cases {
  import opened GoStrings
  import opened Order
  import opened StartIndices
  import opened Concat
  import opened Longest

  /**
   * The first two tokens of strings.Split(w, c) when `c` first occurs at `m`
   * and next occurs at `n` (-1: nowhere after the first occurrence).
   */
  lemma SplitAt(w: string, c: string, m: int, n: int)
    requires c != [] && 0 <= m && m + |c| <= |w| && MatchesAt(w, c, m)
    requires forall i :: 0 <= i < m ==> !MatchesAt(w, c, i)
    requires n == -1 || (m + |c| <= n && n + |c| <= |w| && MatchesAt(w, c, n))
    requires forall i :: m + |c| <= i && i + |c| <= |w| && (n < 0 || i < n) ==> !MatchesAt(w, c, i)
    ensures Contains(w, c)
    ensures var t := Split(w, c);
      |t| >= 2 && t[0] == w[..m] && t[1] == w[m + |c|..if n < 0 then |w| else n]
  {
    IndexFromAt(w, c, 0, m);
    if n < 0 {
      IndexFromNone(w, c, m + |c|);
    } else {
      IndexFromAt(w, c, m + |c|, n);
    }
    FirstTwoTokens(w, c);
  }

  /** The words a, bc, bcax, in the order both sorts give them. */
  lemma TailWordsSorted()
    ensures LengthSorted(["a", "bc", "bcax"])
    ensures SortedBy(["a", "bc", "bcax"], LexLess)
  {
    var s := ["a", "bc", "bcax"];
    assert |s[0]| == 1 && |s[1]| == 2 && |s[2]| == 4;
    assert LexLess(s[0], s[1]) && LexLess(s[1], s[2]) by {
      assert LexLess(s[1][1..], s[2][1..]) by {
        assert s[1][1..] == "c" && s[2][1..] == "cax";
        assert LexLess("", "ax");
      }
    }
    assert LexLess(s[0], s[2]);
  }

  /** Any list with lengths 1, 2, 4 gets the table [0, 0, 1, 1, 2]. */
  lemma TailTable(s: seq<string>)
    requires |s| == 3 && |s[0]| == 1 && |s[1]| == 2 && |s[2]| == 4
    ensures StartTable(s) == [0, 0, 1, 1, 2]
  {
    FirstOfLengthAt(s, 2, 1);
    FirstOfLengthAt(s, 4, 2);
    assert !HasLength(s, 3);
    var t := StartTable(s);
    assert |t| == 5 && t[0] == 0 && t[1] == 0 && t[2] == 1 && t[3] == 1 && t[4] == 2;
  }

  /** The startIndices table for a, bc, bcax. */
  lemma TailWordsTable()
    ensures StartTable(["a", "bc", "bcax"]) == [0, 0, 1, 1, 2]
  {
    TailTable(["a", "bc", "bcax"]);
  }

  /** The three lists satisfy what isStringConcat relies on. */
  lemma TailWordsUsable()
    ensures Usable(["a", "bc", "bcax"], ["a", "bc", "bcax"], [0, 0, 1, 1, 2])
  {
    TailWordsSorted();
  }

  /** strings.Split("bcax", "a") starts with "bc", "x". */
  lemma SplitBcaxA()
    ensures Contains("bcax", "a")
    ensures var t := Split("bcax", "a"); |t| >= 2 && t[0] == "bc" && t[1] == "x"
  {
    var w, c := "bcax", "a";
    assert w[0] != c[0] && w[1] != c[0] && w[3] != c[0];
    assert !MatchesAt(w, c, 0) && !MatchesAt(w, c, 1) && MatchesAt(w, c, 2) && !MatchesAt(w, c, 3);
    SplitAt(w, c, 2, -1);
    assert w[..2] == "bc" && w[3..4] == "x";
  }

  /** strings.Split("bcax", "bc") starts with "", "ax". */
  lemma SplitBcaxBc()
    ensures Contains("bcax", "bc")
    ensures var t := Split("bcax", "bc"); |t| >= 2 && t[0] == "" && t[1] == "ax"
  {
    var w, c := "bcax", "bc";
    assert MatchesAt(w, c, 0) && w[2] != c[0];
    assert !MatchesAt(w, c, 2);
    SplitAt(w, c, 0, -1);
    assert w[2..4] == "ax";
  }

  /** strings.Split on "a" of "a" followed by one other character starts with "", that character. */
  lemma SplitAfterA(x: char)
    requires x != 'a'
    ensures Contains(['a', x], "a")
    ensures var t := Split(['a', x], "a"); |t| >= 2 && t[0] == "" && t[1] == [x]
  {
    var w, c := ['a', x], "a";
    assert MatchesAt(w, c, 0) && w[1] != c[0];
    assert !MatchesAt(w, c, 1);
    SplitAt(w, c, 0, -1);
    assert w[1..2] == [x];
  }

  /**
   * As written, "bcax" is accepted with component "a": the tokens are "bc"
   * and "x", and "x" is min_word_len long but is not a listed word.
   */
  lemma TailAcceptedAsWritten()
    ensures Usable(["a", "bc", "bcax"], ["a", "bc", "bcax"], [0, 0, 1, 1, 2])
    ensures "x" !in ["a", "bc", "bcax"]
    ensures IsConcat(AsWritten, ["a", "bc", "bcax"], ["a", "bc", "bcax"], [0, 0, 1, 1, 2], "bcax")
  {
    var s := ["a", "bc", "bcax"];
    TailWordsUsable();
    SplitBcaxA();
    assert ComponentWorks(AsWritten, s, s, [0, 0, 1, 1, 2], "bcax", s[0]);
  }

  /** Under the intended rule "ax" is not a concatenation of a, bc, bcax. */
  lemma AxRejectedIntended()
    ensures Usable(["a", "bc", "bcax"], ["a", "bc", "bcax"], [0, 0, 1, 1, 2])
    ensures !IsConcat(Intended, ["a", "bc", "bcax"], ["a", "bc", "bcax"], [0, 0, 1, 1, 2], "ax")
  {
    var s, t := ["a", "bc", "bcax"], [0, 0, 1, 1, 2];
    TailWordsUsable();
    SplitAfterA('x');
    assert ['a', 'x'] == "ax" && ['x'] == "x";
    assert !ComponentWorks(Intended, s, s, t, "ax", s[0]);
  }

  /** Under the intended rule, component "a" fails for "bcax": "x" is not listed. */
  lemma BcaxByARejectedIntended()
    ensures Usable(["a", "bc", "bcax"], ["a", "bc", "bcax"], [0, 0, 1, 1, 2])
    ensures Contains("bcax", "a")
    ensures !ComponentWorks(Intended, ["a", "bc", "bcax"], ["a", "bc", "bcax"], [0, 0, 1, 1, 2], "bcax", "a")
  {
    TailWordsUsable();
    SplitBcaxA();
  }

  /** Under the intended rule, component "bc" fails for "bcax": "ax" does not resolve. */
  lemma BcaxByBcRejectedIntended()
    ensures Usable(["a", "bc", "bcax"], ["a", "bc", "bcax"], [0, 0, 1, 1, 2])
    ensures Contains("bcax", "bc")
    ensures !ComponentWorks(Intended, ["a", "bc", "bcax"], ["a", "bc", "bcax"], [0, 0, 1, 1, 2], "bcax", "bc")
  {
    TailWordsUsable();
    SplitBcaxBc();
    AxRejectedIntended();
  }

  /**
   * Under the intended rule "bcax" is not a concatenation: "bc" + "x" fails
   * because "x" is not listed, and "" + "bc" + "ax" because "ax" is neither
   * listed nor "a" + a listed word.
   */
  lemma TailRejectedIntended()
    ensures Usable(["a", "bc", "bcax"], ["a", "bc", "bcax"], [0, 0, 1, 1, 2])
    ensures !IsConcat(Intended, ["a", "bc", "bcax"], ["a", "bc", "bcax"], [0, 0, 1, 1, 2], "bcax")
  {
    var s := ["a", "bc", "bcax"];
    BcaxByARejectedIntended();
    BcaxByBcRejectedIntended();
    assert s[0] == "a" && s[1] == "bc";
  }

  /**
   * The words a, ab, aba, zz in two orders sort.Sort(ByLength) may leave
   * them in (it keeps ties in no promised order), and their lexical order.
   */
  lemma TieFirstSorted()
    ensures LengthSorted(["a", "zz", "ab", "aba"])
  {
    var s := ["a", "zz", "ab", "aba"];
    assert |s[0]| == 1 && |s[1]| == 2 && |s[2]| == 2 && |s[3]| == 3;
    LengthChainSorted(s);
  }

  lemma TieSecondSorted()
    ensures LengthSorted(["a", "ab", "zz", "aba"])
  {
    var s := ["a", "ab", "zz", "aba"];
    assert |s[0]| == 1 && |s[1]| == 2 && |s[2]| == 2 && |s[3]| == 3;
    LengthChainSorted(s);
  }

  lemma TieLexSorted()
    ensures SortedBy(["a", "ab", "aba", "zz"], LexLess)
  {
    var lex := ["a", "ab", "aba", "zz"];
    assert LexLess(lex[0], lex[1]) by { assert lex[1][1..] == "b"; }
    assert LexLess(lex[1], lex[2]) by {
      assert lex[1][1..] == "b" && lex[2][1..] == "ba";
      assert LexLess("b"[1..], "ba"[1..]);
    }
    assert LexLess(lex[2], lex[3]);
    LexChainSorted(lex);
  }

  lemma TieFirstUsable()
    ensures Usable(["a", "zz", "ab", "aba"], ["a", "ab", "aba", "zz"], [0, 0, 1, 3])
  {
    TieLexSorted();
  }

  lemma TieSecondUsable()
    ensures Usable(["a", "ab", "zz", "aba"], ["a", "ab", "aba", "zz"], [0, 0, 1, 3])
  {
    TieLexSorted();
  }

  /**
   * The table depends on the lengths alone: any list with lengths 1, 2, 2, 3
   * gets [0, 0, 1, 3], entry 2 being the position of the first word of
   * length 2.
   */
  lemma TieTable(s: seq<string>)
    requires |s| == 4 && |s[0]| == 1 && |s[1]| == 2 && |s[2]| == 2 && |s[3]| == 3
    ensures StartTable(s) == [0, 0, 1, 3]
  {
    FirstOfLengthAt(s, 2, 1);
    FirstOfLengthAt(s, 3, 3);
    var t := StartTable(s);
    assert |t| == 4 && t[0] == 0 && t[1] == 0 && t[2] == 1 && t[3] == 3;
  }

  /** Both orders get the table [0, 0, 1, 3]. */
  lemma TieTables()
    ensures StartTable(["a", "zz", "ab", "aba"]) == [0, 0, 1, 3]
    ensures StartTable(["a", "ab", "zz", "aba"]) == [0, 0, 1, 3]
  {
    TieTable(["a", "zz", "ab", "aba"]);
    TieTable(["a", "ab", "zz", "aba"]);
  }

  /** strings.Split("aba", "a") starts with "", "b". */
  lemma SplitAbaA()
    ensures Contains("aba", "a")
    ensures var t := Split("aba", "a"); |t| >= 2 && t[0] == "" && t[1] == "b"
  {
    var w, c := "aba", "a";
    assert MatchesAt(w, c, 0) && MatchesAt(w, c, 2) && w[1] != c[0];
    assert !MatchesAt(w, c, 1);
    SplitAt(w, c, 0, 2);
    assert w[1..2] == "b";
  }

  /** strings.Split("aba", "ab") starts with "", "a". */
  lemma SplitAbaAb()
    ensures Contains("aba", "ab")
    ensures var t := Split("aba", "ab"); |t| >= 2 && t[0] == "" && t[1] == "a"
  {
    var w, c := "aba", "ab";
    assert MatchesAt(w, c, 0);
    SplitAt(w, c, 0, -1);
    assert w[2..3] == "a";
  }

  /** "zz" does not occur in "aba". */
  lemma AbaLacksZz()
    ensures !Contains("aba", "zz")
  {
    var w, c := "aba", "zz";
    assert w[0] != c[0] && w[1] != c[0];
    assert !MatchesAt(w, c, 0) && !MatchesAt(w, c, 1);
    IndexFromNone(w, c, 0);
  }

  /** Component "a" of "aba" leaves the token "b", which is not listed. */
  lemma AbaByAFails(s: seq<string>)
    requires s == ["a", "zz", "ab", "aba"] || s == ["a", "ab", "zz", "aba"]
    ensures Usable(s, ["a", "ab", "aba", "zz"], [0, 0, 1, 3])
    ensures Contains("aba", "a")
    ensures !ComponentWorks(AsWritten, s, ["a", "ab", "aba", "zz"], [0, 0, 1, 3], "aba", "a")
  {
    TieFirstUsable();
    TieSecondUsable();
    SplitAbaA();
  }

  /**
   * With "zz" placed before "ab", "aba" = "ab" + "a" is not found: the
   * search for component words starts at the first word of length 2,
   * "zz", so "ab" is never tried, and "a" leaves the token "b".
   */
  lemma TieFirstOrderMisses()
    ensures Usable(["a", "zz", "ab", "aba"], ["a", "ab", "aba", "zz"], [0, 0, 1, 3])
    ensures "aba" == "ab" + "a" && "ab" in ["a", "zz", "ab", "aba"]
    ensures !IsConcat(AsWritten, ["a", "zz", "ab", "aba"], ["a", "ab", "aba", "zz"], [0, 0, 1, 3], "aba")
  {
    var s, lex, t := ["a", "zz", "ab", "aba"], ["a", "ab", "aba", "zz"], [0, 0, 1, 3];
    AbaByAFails(s);
    AbaLacksZz();
    assert t[|"aba"| - MinWordLen(s)] == 1;
    forall j | 0 <= j <= 1 && Contains("aba", s[j])
      ensures !ComponentWorks(AsWritten, s, lex, t, "aba", s[j])
    {
      assert j == 0;
    }
  }

  /** With "ab" placed before "zz", "aba" is found under either rule. */
  lemma TieSecondOrderFinds()
    ensures Usable(["a", "ab", "zz", "aba"], ["a", "ab", "aba", "zz"], [0, 0, 1, 3])
    ensures IsConcat(Intended, ["a", "ab", "zz", "aba"], ["a", "ab", "aba", "zz"], [0, 0, 1, 3], "aba")
    ensures IsConcat(AsWritten, ["a", "ab", "zz", "aba"], ["a", "ab", "aba", "zz"], [0, 0, 1, 3], "aba")
  {
    var s, lex, t := ["a", "ab", "zz", "aba"], ["a", "ab", "aba", "zz"], [0, 0, 1, 3];
    TieSecondUsable();
    SplitAbaAb();
    assert ComponentWorks(Intended, s, lex, t, "aba", s[1]);
    ConcatIntendedAsWritten(s, lex, t, "aba");
  }

  /** The words a, b, c, bacaz in length order and in lexical order. */
  lemma RestSorted()
    ensures LengthSorted(["a", "b", "c", "bacaz"])
  {
    var s := ["a", "b", "c", "bacaz"];
    assert |s[0]| == 1 && |s[1]| == 1 && |s[2]| == 1 && |s[3]| == 5;
    LengthChainSorted(s);
  }

  lemma RestLexSorted()
    ensures SortedBy(["a", "b", "bacaz", "c"], LexLess)
  {
    var lex := ["a", "b", "bacaz", "c"];
    assert LexLess(lex[0], lex[1]) && LexLess(lex[2], lex[3]);
    assert LexLess(lex[1], lex[2]) by { assert lex[1][1..] == "" && lex[2][1..] == "acaz"; }
    LexChainSorted(lex);
  }

  lemma RestUsable()
    ensures Usable(["a", "b", "c", "bacaz"], ["a", "b", "bacaz", "c"], [0, 0, 0, 0, 0, 3])
  {
    RestLexSorted();
  }

  /** Any list with lengths 1, 1, 1, 5 gets the table [0, 0, 0, 0, 0, 3]. */
  lemma RestTable(s: seq<string>)
    requires |s| == 4 && |s[0]| == 1 && |s[1]| == 1 && |s[2]| == 1 && |s[3]| == 5
    ensures StartTable(s) == [0, 0, 0, 0, 0, 3]
  {
    FirstOfLengthAt(s, 5, 3);
    assert !HasLength(s, 2) && !HasLength(s, 3) && !HasLength(s, 4);
    var t := StartTable(s);
    assert |t| == 6 && t[0] == 0 && t[1] == 0 && t[2] == 0 && t[3] == 0 && t[4] == 0 && t[5] == 3;
  }

  /** The startIndices table for a, b, c, bacaz. */
  lemma RestWordsTable()
    ensures StartTable(["a", "b", "c", "bacaz"]) == [0, 0, 0, 0, 0, 3]
  {
    RestTable(["a", "b", "c", "bacaz"]);
  }

  /** strings.Split("bacaz", "a") is "b", "c", "z". */
  lemma SplitBacazA()
    ensures Contains("bacaz", "a")
    ensures Split("bacaz", "a") == ["b", "c", "z"]
  {
    var w, c := "bacaz", "a";
    assert w[0] != c[0] && w[2] != c[0] && w[4] != c[0];
    assert !MatchesAt(w, c, 0) && MatchesAt(w, c, 1) && !MatchesAt(w, c, 2) && MatchesAt(w, c, 3);
    assert !MatchesAt(w, c, 4);
    IndexFromAt(w, c, 0, 1);
    IndexFromAt(w, c, 2, 3);
    IndexFromNone(w, c, 4);
    assert w[0..1] == "b" && w[2..3] == "c" && w[4..] == "z";
    assert SplitFrom(w, c, 4) == ["z"];
    assert SplitFrom(w, c, 2) == ["c"] + SplitFrom(w, c, 4);
    assert Split(w, c) == ["b"] + SplitFrom(w, c, 2);
  }

  /** Under the intended rule "bacaz" is accepted with component "a". */
  lemma RestAcceptedIntended()
    ensures Usable(["a", "b", "c", "bacaz"], ["a", "b", "bacaz", "c"], [0, 0, 0, 0, 0, 3])
    ensures IsConcat(Intended, ["a", "b", "c", "bacaz"], ["a", "b", "bacaz", "c"], [0, 0, 0, 0, 0, 3], "bacaz")
  {
    var s, lex, t := ["a", "b", "c", "bacaz"], ["a", "b", "bacaz", "c"], [0, 0, 0, 0, 0, 3];
    RestUsable();
    SplitBacazA();
    assert ComponentWorks(Intended, s, lex, t, "bacaz", s[0]);
  }

  /**
   * Only the first two tokens are checked: "bacaz" splits on "a" into "b",
   * "c" and "z", and is accepted under either rule although "z" is not a
   * listed word.
   */
  lemma RestUnchecked()
    ensures Usable(["a", "b", "c", "bacaz"], ["a", "b", "bacaz", "c"], [0, 0, 0, 0, 0, 3])
    ensures "z" !in ["a", "b", "bacaz", "c"]
    ensures Split("bacaz", "a") == ["b", "c", "z"]
    ensures IsConcat(Intended, ["a", "b", "c", "bacaz"], ["a", "b", "bacaz", "c"], [0, 0, 0, 0, 0, 3], "bacaz")
    ensures IsConcat(AsWritten, ["a", "b", "c", "bacaz"], ["a", "b", "bacaz", "c"], [0, 0, 0, 0, 0, 3], "bacaz")
  {
    SplitBacazA();
    RestAcceptedIntended();
    ConcatIntendedAsWritten(["a", "b", "c", "bacaz"], ["a", "b", "bacaz", "c"], [0, 0, 0, 0, 0, 3], "bacaz");
  }

  /** strings.Split("bacaz", "b") begins with "" and "acaz". */
  lemma SplitBacazB()
    ensures Contains("bacaz", "b")
    ensures var t := Split("bacaz", "b"); t[0] == "" && t[1] == "acaz"
  {
    var w, c := "bacaz", "b";
    assert w[1] != c[0] && w[2] != c[0] && w[3] != c[0] && w[4] != c[0];
    assert MatchesAt(w, c, 0) && !MatchesAt(w, c, 1) && !MatchesAt(w, c, 2);
    assert !MatchesAt(w, c, 3) && !MatchesAt(w, c, 4);
    SplitAt(w, c, 0, -1);
    assert w[..0] == "" && w[1..] == "acaz";
  }

  /** strings.Index finds no "b" in "acaz". */
  lemma AcazLacksB()
    ensures !Contains("acaz", "b")
  {
    var w, c := "acaz", "b";
    assert w[0] != c[0] && w[1] != c[0] && w[2] != c[0] && w[3] != c[0];
    assert !MatchesAt(w, c, 0) && !MatchesAt(w, c, 1) && !MatchesAt(w, c, 2) && !MatchesAt(w, c, 3);
    IndexFromNone(w, c, 0);
  }

  /** The lists for a, b, c, bacaz with "a" first are prepared. */
  lemma RestPrepared()
    ensures Prepared(["a", "b", "c", "bacaz"], ["a", "b", "bacaz", "c"], [0, 0, 0, 0, 0, 3])
  {
    RestSorted();
    RestUsable();
    RestWordsTable();
  }

  /** The lists for the same words with "b" first are prepared. */
  lemma RestOtherPrepared()
    ensures Prepared(["b", "a", "c", "bacaz"], ["a", "b", "bacaz", "c"], [0, 0, 0, 0, 0, 3])
  {
    var s := ["b", "a", "c", "bacaz"];
    assert |s[0]| == 1 && |s[1]| == 1 && |s[2]| == 1 && |s[3]| == 5;
    LengthChainSorted(s);
    RestTable(s);
    RestLexSorted();
  }

  /**
   * With "b" first among the one-letter words, "bacaz" is rejected: "b", the
   * only candidate, leaves the token "acaz", which is not a word and in which
   * "b" does not occur.
   */
  lemma RestOtherOrderRejected()
    ensures Prepared(["b", "a", "c", "bacaz"], ["a", "b", "bacaz", "c"], [0, 0, 0, 0, 0, 3])
    ensures !IsConcat(AsWritten, ["b", "a", "c", "bacaz"], ["a", "b", "bacaz", "c"], [0, 0, 0, 0, 0, 3], "bacaz")
  {
    var s, lex, t := ["b", "a", "c", "bacaz"], ["a", "b", "bacaz", "c"], [0, 0, 0, 0, 0, 3];
    RestOtherPrepared();
    SplitBacazB();
    AcazLacksB();
    SingleCandidate(AsWritten, s, lex, t, "acaz");
    assert "acaz" !in lex;
    SingleCandidate(AsWritten, s, lex, t, "bacaz");
  }

  /** With "b" first, no word of b, a, c, bacaz is accepted. */
  lemma RestOtherNone()
    ensures Prepared(["b", "a", "c", "bacaz"], ["a", "b", "bacaz", "c"], [0, 0, 0, 0, 0, 3])
    ensures forall k :: 0 <= k < 4 ==>
      !IsConcat(AsWritten, ["b", "a", "c", "bacaz"], ["a", "b", "bacaz", "c"], [0, 0, 0, 0, 0, 3], ["b", "a", "c", "bacaz"][k])
  {
    var s, lex, t := ["b", "a", "c", "bacaz"], ["a", "b", "bacaz", "c"], [0, 0, 0, 0, 0, 3];
    RestOtherOrderRejected();
    forall k | 0 <= k < 3
      ensures !IsConcat(AsWritten, s, lex, t, s[k])
    {
      ShortWordIsNotConcat(AsWritten, s, lex, t, s[k]);
    }
  }

  /**
   * The result on a, b, c, bacaz depends on the order of the one-letter
   * words: "bacaz" with "a" first, "" with "b" first.
   */
  lemma RestOutcomes()
    ensures Prepared(["a", "b", "c", "bacaz"], ["a", "b", "bacaz", "c"], [0, 0, 0, 0, 0, 3])
    ensures Prepared(["b", "a", "c", "bacaz"], ["a", "b", "bacaz", "c"], [0, 0, 0, 0, 0, 3])
    ensures IsLongestCompound(AsWritten, ["a", "b", "c", "bacaz"], ["a", "b", "bacaz", "c"], [0, 0, 0, 0, 0, 3], "bacaz")
    ensures IsLongestCompound(AsWritten, ["b", "a", "c", "bacaz"], ["a", "b", "bacaz", "c"], [0, 0, 0, 0, 0, 3], "")
  {
    var s := ["a", "b", "c", "bacaz"];
    RestPrepared();
    RestUnchecked();
    RestOtherNone();
    assert s[3] == "bacaz";
  }

  /** strings.Index finds no "a" in "bc", "zz". */
  lemma LacksA()
    ensures !Contains("bc", "a") && !Contains("zz", "a")
  {
    var w1, w2, c := "bc", "zz", "a";
    assert w1[0] != c[0] && w1[1] != c[0] && w2[0] != c[0] && w2[1] != c[0];
    assert !MatchesAt(w1, c, 0) && !MatchesAt(w1, c, 1);
    assert !MatchesAt(w2, c, 0) && !MatchesAt(w2, c, 1);
    IndexFromNone(w1, c, 0);
    IndexFromNone(w2, c, 0);
  }

  /** The lists for a, bc, bcax are prepared. */
  lemma TailPrepared()
    ensures Prepared(["a", "bc", "bcax"], ["a", "bc", "bcax"], [0, 0, 1, 1, 2])
  {
    TailWordsUsable();
    TailWordsTable();
  }

  /** "bc" is accepted by neither rule: the only candidate, "a", does not occur in it. */
  lemma BcRejected(rule: Rule)
    ensures Usable(["a", "bc", "bcax"], ["a", "bc", "bcax"], [0, 0, 1, 1, 2])
    ensures !IsConcat(rule, ["a", "bc", "bcax"], ["a", "bc", "bcax"], [0, 0, 1, 1, 2], "bc")
  {
    var s := ["a", "bc", "bcax"];
    TailWordsUsable();
    LacksA();
    SingleCandidate(rule, s, s, [0, 0, 1, 1, 2], "bc");
  }

  /** Under the intended rule no word of a, bc, bcax is accepted. */
  lemma TailNoneIntended()
    ensures Prepared(["a", "bc", "bcax"], ["a", "bc", "bcax"], [0, 0, 1, 1, 2])
    ensures forall k :: 0 <= k < 3 ==>
      !IsConcat(Intended, ["a", "bc", "bcax"], ["a", "bc", "bcax"], [0, 0, 1, 1, 2], ["a", "bc", "bcax"][k])
  {
    var s, t := ["a", "bc", "bcax"], [0, 0, 1, 1, 2];
    TailPrepared();
    TailRejectedIntended();
    BcRejected(Intended);
    ShortWordIsNotConcat(Intended, s, s, t, s[0]);
    assert s[2] == "bcax" && s[1] == "bc";
  }

  /**
   * On a, bc, bcax getLongestCompWord returns "bcax" as written, where the
   * intended rule finds no compound word.
   */
  lemma TailOutcomes()
    ensures Prepared(["a", "bc", "bcax"], ["a", "bc", "bcax"], [0, 0, 1, 1, 2])
    ensures IsLongestCompound(AsWritten, ["a", "bc", "bcax"], ["a", "bc", "bcax"], [0, 0, 1, 1, 2], "bcax")
    ensures IsLongestCompound(Intended, ["a", "bc", "bcax"], ["a", "bc", "bcax"], [0, 0, 1, 1, 2], "")
  {
    var s, t := ["a", "bc", "bcax"], [0, 0, 1, 1, 2];
    TailAcceptedAsWritten();
    TailNoneIntended();
    assert s[2] == "bcax";
  }

  /** The lists for both orders of a, ab, aba, zz are prepared. */
  lemma TiePrepared()
    ensures Prepared(["a", "zz", "ab", "aba"], ["a", "ab", "aba", "zz"], [0, 0, 1, 3])
    ensures Prepared(["a", "ab", "zz", "aba"], ["a", "ab", "aba", "zz"], [0, 0, 1, 3])
  {
    TieFirstUsable();
    TieSecondUsable();
    TieFirstSorted();
    TieSecondSorted();
    TieTables();
  }

  /** "zz" is not accepted when "a" comes first: "a", the only candidate, does not occur in it. */
  lemma TieZzRejected(s: seq<string>)
    requires Usable(s, ["a", "ab", "aba", "zz"], [0, 0, 1, 3]) && s[0] == "a"
    ensures !IsConcat(AsWritten, s, ["a", "ab", "aba", "zz"], [0, 0, 1, 3], "zz")
  {
    LacksA();
    SingleCandidate(AsWritten, s, ["a", "ab", "aba", "zz"], [0, 0, 1, 3], "zz");
  }

  /** "ab" is not accepted when "a" comes first: "a", the only candidate, leaves the token "b". */
  lemma TieAbRejected(s: seq<string>)
    requires Usable(s, ["a", "ab", "aba", "zz"], [0, 0, 1, 3]) && s[0] == "a"
    ensures !IsConcat(AsWritten, s, ["a", "ab", "aba", "zz"], [0, 0, 1, 3], "ab")
  {
    SplitAfterA('b');
    assert ['a', 'b'] == "ab" && ['b'] == "b";
    assert !ComponentWorks(AsWritten, s, ["a", "ab", "aba", "zz"], [0, 0, 1, 3], "ab", "a");
    SingleCandidate(AsWritten, s, ["a", "ab", "aba", "zz"], [0, 0, 1, 3], "ab");
  }

  /** With zz before ab, no word of a, zz, ab, aba is accepted. */
  lemma TieFirstNone()
    ensures Prepared(["a", "zz", "ab", "aba"], ["a", "ab", "aba", "zz"], [0, 0, 1, 3])
    ensures forall k :: 0 <= k < 4 ==>
      !IsConcat(AsWritten, ["a", "zz", "ab", "aba"], ["a", "ab", "aba", "zz"], [0, 0, 1, 3], ["a", "zz", "ab", "aba"][k])
  {
    var s, lex, t := ["a", "zz", "ab", "aba"], ["a", "ab", "aba", "zz"], [0, 0, 1, 3];
    TiePrepared();
    TieZzRejected(s);
    TieAbRejected(s);
    TieFirstOrderMisses();
    ShortWordIsNotConcat(AsWritten, s, lex, t, s[0]);
    assert s[1] == "zz" && s[2] == "ab" && s[3] == "aba";
  }

  /**
   * On the same words the outcome depends on the order sort.Sort leaves
   * the words of length 2 in: "" with zz before ab, "aba" with ab before zz.
   */
  lemma TieOutcomes()
    ensures Prepared(["a", "zz", "ab", "aba"], ["a", "ab", "aba", "zz"], [0, 0, 1, 3])
    ensures Prepared(["a", "ab", "zz", "aba"], ["a", "ab", "aba", "zz"], [0, 0, 1, 3])
    ensures IsLongestCompound(AsWritten, ["a", "zz", "ab", "aba"], ["a", "ab", "aba", "zz"], [0, 0, 1, 3], "")
    ensures IsLongestCompound(AsWritten, ["a", "ab", "zz", "aba"], ["a", "ab", "aba", "zz"], [0, 0, 1, 3], "aba")
  {
    var s2 := ["a", "ab", "zz", "aba"];
    TiePrepared();
    TieFirstNone();
    TieSecondOrderFinds();
    assert s2[3] == "aba";
  }

}
