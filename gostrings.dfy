/**
 * The three operations of Go's `strings` package that the compound-word
 * search relies on: Index, Contains and Split.  Strings are sequences of
 * characters; the search only compares them for equality, so no Unicode
 * semantics is needed.  Positions are offsets into the one string `s`.
 */
module GoStrings {
  /** `sep` occurs in `s` starting at position `i`. */
  ghost predicate OccursAt(s: string, sep: string, i: int)
  {
    0 <= i && i + |sep| <= |s| && s[i..i + |sep|] == sep
  }

  /** The first position at or after `from` where `sep` occurs in `s`, or -1. */
  function IndexFrom(s: string, sep: string, from: int): (r: int)
    requires 0 <= from <= |s|
    ensures r == -1 || (from <= r && r + |sep| <= |s|)
    decreases |s| - from
  {
    if |s| - from < |sep| then -1
    else if MatchesAt(s, sep, from) then from
    else IndexFrom(s, sep, from + 1)
  }

  /** Character by character, `sep` matches `s` from position `i` on. */
  predicate MatchesAt(s: string, sep: string, i: nat)
    requires i + |sep| <= |s|
  {
    forall k :: 0 <= k < |sep| ==> s[i + k] == sep[k]
  }

  /** The character-wise test is the occurrence test. */
  lemma MatchesAtOccurs(s: string, sep: string, i: nat)
    requires i + |sep| <= |s|
    ensures MatchesAt(s, sep, i) <==> OccursAt(s, sep, i)
  {
    if MatchesAt(s, sep, i) {
      assert s[i..i + |sep|] == sep;
    }
  }

  /** A position IndexFrom returns is an occurrence. */
  lemma {:induction false} IndexFromOccurs(s: string, sep: string, from: int)
    requires 0 <= from <= |s|
    ensures IndexFrom(s, sep, from) >= 0 ==> OccursAt(s, sep, IndexFrom(s, sep, from))
    decreases |s| - from
  {
    if |s| - from >= |sep| {
      MatchesAtOccurs(s, sep, from);
      if !MatchesAt(s, sep, from) {
        IndexFromOccurs(s, sep, from + 1);
      }
    }
  }

  /** IndexFrom skips no occurrence: `sep` starts nowhere before its result. */
  lemma {:induction false} IndexFromFirst(s: string, sep: string, from: int)
    requires 0 <= from <= |s|
    ensures var r := IndexFrom(s, sep, from);
      forall i :: from <= i < (if r < 0 then |s| + 1 else r) ==> !OccursAt(s, sep, i)
    decreases |s| - from
  {
    if |s| - from >= |sep| {
      MatchesAtOccurs(s, sep, from);
      if !MatchesAt(s, sep, from) {
        IndexFromFirst(s, sep, from + 1);
      }
    }
  }

  /** Conversely, the first character-wise match at or after `from` is what IndexFrom returns. */
  lemma {:induction false} IndexFromAt(s: string, sep: string, from: int, r: int)
    requires 0 <= from <= r && r + |sep| <= |s| && MatchesAt(s, sep, r)
    requires forall i :: from <= i < r ==> !MatchesAt(s, sep, i)
    ensures IndexFrom(s, sep, from) == r
    decreases r - from
  {
    if from < r {
      IndexFromAt(s, sep, from + 1, r);
    }
  }

  /** With no character-wise match at or after `from`, IndexFrom returns -1. */
  lemma {:induction false} IndexFromNone(s: string, sep: string, from: int)
    requires sep != [] && 0 <= from <= |s|
    requires forall i :: from <= i && i + |sep| <= |s| ==> !MatchesAt(s, sep, i)
    ensures IndexFrom(s, sep, from) == -1
    decreases |s| - from
  {
    if |s| - from >= |sep| {
      IndexFromNone(s, sep, from + 1);
    }
  }

  /** strings.Index: the position of the first occurrence of `sep` in `s`, or -1. */
  function IndexOf(s: string, sep: string): (r: int)
    ensures r == -1 || (0 <= r && r + |sep| <= |s|)
  {
    IndexFrom(s, sep, 0)
  }

  /** strings.Contains, which Go defines as `Index(s, substr) >= 0`. */
  function Contains(s: string, substr: string): (r: bool)
  {
    IndexOf(s, substr) >= 0
  }

  /** Contains holds exactly when there is an occurrence somewhere. */
  lemma ContainsOccurs(s: string, substr: string)
    ensures Contains(s, substr) <==> exists i :: OccursAt(s, substr, i)
  {
    IndexFromOccurs(s, substr, 0);
    IndexFromFirst(s, substr, 0);
    if Contains(s, substr) {
      assert OccursAt(s, substr, IndexOf(s, substr));
    }
  }

  /**
   * The tokens of s[from..] between successive non-overlapping occurrences
   * of `sep`, scanning left to right.
   */
  function SplitFrom(s: string, sep: string, from: int): (r: seq<string>)
    requires sep != [] && 0 <= from <= |s|
    ensures |r| >= 1
    ensures |r| >= 2 <==> IndexFrom(s, sep, from) >= 0
    decreases |s| - from
  {
    var m := IndexFrom(s, sep, from);
    if m < 0 then [s[from..]]
    else [s[from..m]] + SplitFrom(s, sep, m + |sep|)
  }

  /** strings.Split for a non-empty separator. */
  function Split(s: string, sep: string): (r: seq<string>)
    requires sep != []
    ensures |r| >= 2 <==> Contains(s, sep)
  {
    SplitFrom(s, sep, 0)
  }

  /** strings.Join: the parts with `sep` between each two neighbours. */
  function Join(parts: seq<string>, sep: string): (r: string)
  {
    JoinFrom(parts, sep, 0)
  }

  /** Join of the parts from position `k` on. */
  function JoinFrom(parts: seq<string>, sep: string, k: nat): (r: string)
    requires k <= |parts|
    decreases |parts| - k
  {
    if k == |parts| then ""
    else if k == |parts| - 1 then parts[k]
    else parts[k] + sep + JoinFrom(parts, sep, k + 1)
  }

  /** One step of SplitFrom: the first token, then the split of the rest. */
  lemma SplitFromStep(s: string, sep: string, from: int)
    requires sep != [] && 0 <= from <= |s|
    ensures var m := IndexFrom(s, sep, from);
      var r := SplitFrom(s, sep, from);
      && (m < 0 ==> |r| == 1 && r[0] == s[from..])
      && (m >= 0 ==> var tail := SplitFrom(s, sep, m + |sep|);
            && |r| == |tail| + 1 && r[0] == s[from..m]
            && forall k :: 0 <= k < |tail| ==> r[k + 1] == tail[k])
  {
  }

  /** Putting one more part in front shifts the positions of the others by one. */
  lemma {:induction false} JoinFromShift(x: string, tail: seq<string>, sep: string, k: nat)
    requires k <= |tail|
    ensures JoinFrom([x] + tail, sep, k + 1) == JoinFrom(tail, sep, k)
    decreases |tail| - k
  {
    var parts := [x] + tail;
    if k < |tail| {
      assert parts[k + 1] == tail[k];
      if k < |tail| - 1 {
        JoinFromShift(x, tail, sep, k + 1);
        assert JoinFrom(parts, sep, k + 1) == parts[k + 1] + sep + JoinFrom(parts, sep, k + 2);
      }
    }
  }

  /** Joining the tokens of s[from..] gives back s[from..]. */
  lemma {:induction false} JoinSplitFrom(s: string, sep: string, from: int)
    requires sep != [] && 0 <= from <= |s|
    ensures Join(SplitFrom(s, sep, from), sep) == s[from..]
    decreases |s| - from
  {
    var m := IndexFrom(s, sep, from);
    var r := SplitFrom(s, sep, from);
    if m < 0 {
      assert r == [s[from..]];
      assert JoinFrom(r, sep, 0) == r[0];
    } else {
      IndexFromOccurs(s, sep, from);
      var tail := SplitFrom(s, sep, m + |sep|);
      assert r == [s[from..m]] + tail;
      JoinSplitFrom(s, sep, m + |sep|);
      JoinFromShift(s[from..m], tail, sep, 0);
      assert JoinFrom(r, sep, 0) == r[0] + sep + JoinFrom(r, sep, 1);
      Glue(s, from, m, m + |sep|, r[0], sep, JoinFrom(tail, sep, 0));
    }
  }

  /** Splitting and joining again gives back the original string. */
  lemma JoinSplit(s: string, sep: string)
    requires sep != []
    ensures Join(Split(s, sep), sep) == s
  {
    JoinSplitFrom(s, sep, 0);
  }

  /** Three adjacent slices of `s` make up its suffix from the first one on. */
  lemma Glue<T>(s: seq<T>, a: int, b: int, c: int, x: seq<T>, y: seq<T>, z: seq<T>)
    requires 0 <= a <= b <= c <= |s|
    requires s[a..b] == x && s[b..c] == y && s[c..] == z
    ensures x + y + z == s[a..]
  {
    assert s[a..] == s[a..b] + s[b..c] + s[c..];
  }

  /** A stretch of `s` in which `sep` does not start anywhere does not contain it. */
  lemma SliceAvoids(s: string, sep: string, from: int, to: int)
    requires 0 <= from <= to <= |s|
    requires forall i :: from <= i && i + |sep| <= to ==> !OccursAt(s, sep, i)
    ensures !Contains(s[from..to], sep)
  {
    var token := s[from..to];
    IndexFromOccurs(token, sep, 0);
    var i := IndexOf(token, sep);
    if i >= 0 {
      assert token[i..i + |sep|] == s[from + i..from + i + |sep|];
      assert OccursAt(s, sep, from + i);
    }
  }

  /** No token of a split contains the separator. */
  lemma {:induction false} SplitTokensAvoidSeparator(s: string, sep: string, from: int)
    requires sep != [] && 0 <= from <= |s|
    ensures forall k :: 0 <= k < |SplitFrom(s, sep, from)| ==> !Contains(SplitFrom(s, sep, from)[k], sep)
    decreases |s| - from
  {
    var m := IndexFrom(s, sep, from);
    var r := SplitFrom(s, sep, from);
    SplitFromStep(s, sep, from);
    IndexFromFirst(s, sep, from);
    if m < 0 {
      SliceAvoids(s, sep, from, |s|);
      assert s[from..|s|] == s[from..];
    } else {
      SliceAvoids(s, sep, from, m);
      SplitTokensAvoidSeparator(s, sep, m + |sep|);
    }
  }

  /**
   * The two tokens the search keeps: tokens[0] is the text before the first
   * occurrence of `sep`; tokens[1] runs from the end of that occurrence to
   * the next one, or to the end of `s`.
   */
  lemma FirstTwoTokens(s: string, sep: string)
    requires sep != [] && Contains(s, sep)
    ensures var t := Split(s, sep);
      var m := IndexOf(s, sep);
      var n := IndexFrom(s, sep, m + |sep|);
      && |t| >= 2
      && t[0] == s[..m]
      && t[1] == s[m + |sep|..if n < 0 then |s| else n]
  {
    var m := IndexOf(s, sep);
    var n := IndexFrom(s, sep, m + |sep|);
    var t := Split(s, sep);
    var rest := SplitFrom(s, sep, m + |sep|);
    assert t == [s[0..m]] + rest;
    assert s[0..m] == s[..m];
    if n < 0 {
      assert rest == [s[m + |sep|..]];
      assert s[m + |sep|..] == s[m + |sep|..|s|];
    } else {
      assert rest == [s[m + |sep|..n]] + SplitFrom(s, sep, n + |sep|);
    }
    assert t[1] == rest[0];
  }

  /** Both kept tokens are strictly shorter than `s`. */
  lemma TokensShorter(s: string, sep: string)
    requires sep != [] && Contains(s, sep)
    ensures var t := Split(s, sep);
      |t| >= 2 && |t[0]| < |s| && |t[1]| < |s|
  {
    FirstTwoTokens(s, sep);
  }

  /** tokens[0] + sep + tokens[1] is `s` up to the second occurrence of `sep`. */
  lemma TokensJoined(s: string, sep: string)
    requires sep != [] && Contains(s, sep)
    ensures var t := Split(s, sep);
      var m := IndexOf(s, sep);
      var n := IndexFrom(s, sep, m + |sep|);
      && |t| >= 2
      && t[0] + sep + t[1] == s[..if n < 0 then |s| else n]
  {
    FirstTwoTokens(s, sep);
    IndexFromOccurs(s, sep, 0);
    var m := IndexOf(s, sep);
    var n := IndexFrom(s, sep, m + |sep|);
    var t := Split(s, sep);
    var e := if n < 0 then |s| else n;
    GlueFront(s, m, m + |sep|, e, t[0], sep, t[1]);
  }

  /** Three adjacent slices of `s` make up its prefix up to the end of the last one. */
  lemma GlueFront<T>(s: seq<T>, b: int, c: int, e: int, x: seq<T>, y: seq<T>, z: seq<T>)
    requires 0 <= b <= c <= e <= |s|
    requires s[..b] == x && s[b..c] == y && s[c..e] == z
    ensures x + y + z == s[..e]
  {
    assert s[..e] == s[..b] + s[b..c] + s[c..e];
  }

  /**
   * tokens[0] + sep + tokens[1] is a prefix of `s`, and all of `s` exactly
   * when `sep` does not occur again at or after the end of its first
   * occurrence.
   */
  lemma TokensAroundSeparator(s: string, sep: string)
    requires sep != [] && Contains(s, sep)
    ensures var t := Split(s, sep);
      var m := IndexOf(s, sep);
      && |t| >= 2
      && t[0] + sep + t[1] <= s
      && (t[0] + sep + t[1] == s <==> IndexFrom(s, sep, m + |sep|) < 0)
  {
    TokensJoined(s, sep);
    assert s[..|s|] == s;
  }
}
