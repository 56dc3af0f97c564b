# Longest compound word: a Dafny model

This project models the search core of a small Go program, `main.go`. Given a list of words, the program finds the longest word that can be put together from other words of the list. The model covers three parts of the code:

- **`getLongestCompWord`.** It sorts one copy of the words lexically (`sort.Strings`) and another by length (`sort.Sort(ByLength(...))`). It then builds the `startIndices` table over the length-sorted copy. Finally it tries every word, from the last position of the length-sorted list down to the first, and returns the first word `isStringConcat` accepts, or `""`.
- **`isStringConcat`.** It collects the *component words*: every word of the length-sorted list from position `startIndices[len(w) - min_word_len]` down to 0 that occurs in `w` (`strings.Contains`). For each component word `c` it splits `w` on `c` (`strings.Split`) and looks at the first two tokens. The two must not both be empty. Each must be empty, or be found by binary search in the lexical list (`sort.SearchStrings`), or, when longer than `min_word_len`, be accepted recursively. There is one exception as written: after a non-empty `tokens[0]` has resolved, a `tokens[1]` of exactly `min_word_len` characters is accepted even when it is not a word (see Findings). Any tokens after the first two are ignored.
- **The `ByLength` ordering.**

## Modules

- `Order` (`order.dfy`) models Go's `<` on strings and `ByLength.Less`, and proves that both are strict weak orders.
- `Sorting` (`sorting.dfy`) models the library sorts by what they deliver: a sorted permutation. `sort.SearchStrings` is modelled as a binary-search method.
- `GoStrings` (`gostrings.dfy`) models `strings.Index`, `Contains` and `Split`, with Join as the partner of Split.
- `StartIndices` (`startindices.dfy`) gives a reference definition of the table (`StartTable`). `BuildStartIndices` is the source's loop, proved to build that table.
- `Concat` (`concat.dfy`) gives the acceptance rule as a reference predicate (`IsConcat`, with `ComponentWorks` and `Resolves`). The methods `IsStringConcat`, `CollectComponentWords` and `TryComponent` follow the source's loops and branches and are proved to compute it.
- `Longest` (`longest.dfy`) has the driver `GetLongestCompWord` and the predicate `IsLongestCompound`, with lemmas about its outcome.
- `Cases` (`cases.dfy`) works through small word lists that show how the acceptance rule behaves.

The reference predicates take a `Rule` argument:

- `AsWritten` is what `main.go` does.
- `Intended` is the rule its comments describe. It differs from `AsWritten` in one branch only: a `tokens[1]` of exactly `min_word_len` characters that the binary search does not find makes the component fail (see Findings). Like `AsWritten`, it still ignores the tokens after the first two.

The methods follow `main.go`, so they compute the `AsWritten` rule. Most lemmas about the rule and about the outcome hold for both rules. `Concat.ConcatByComponent`, `Concat.NotConcatByComponents` and `Longest.OneWordGivesNone` are stated for `AsWritten` only.

Some behaviours of the code are proved here as they are:

- **Ties decide the outcome.** The search for components of `w` starts at `startIndices[len(w) - min_word_len]`. That entry is the *first* position of a word of that length. So, of the words of length `len(w) - min_word_len`, only the first one is ever tried (`Concat.CandidateRange`). Which word that is depends on how `sort.Sort` orders words of equal length. On the words a, ab, aba, zz the outcome is `""` with zz before ab, and `"aba"` with ab before zz (`Cases.TieOutcomes`).
- **Only two tokens are checked.** Only `tokens[0]` and `tokens[1]` of the split are looked at, and any further tokens are ignored. Both rules share this behaviour. On the words a, b, c, bacaz, the entry for "bacaz" is 0, so the first word of the length-sorted list is its only candidate component (the tie behaviour above). With "a" first, "bacaz" splits into "b", "c" and "z" and is accepted, although "z" is not a word (`Cases.RestUnchecked`). With "b" first, the split gives "" and "acaz", and "acaz" is neither a word nor contains "b". So "bacaz" is rejected and the result is `""` (`Cases.RestOtherOrderRejected`, `Cases.RestOutcomes`).

## Model

| member | source | states |
|---|---|---|
| `Order.SortedByLength` | main.go:13-17 | sorted by ByLength.Less is the same as lengths never decreasing |
| `Order.LexIsStrictWeakOrder` | main.go:90 | Go's string `<` is asymmetric and its negation transitive, as sort.Strings and sort.SearchStrings require |
| `Order.LexLessTotal` | main.go:90 | two different strings are always ordered one way or the other |
| `Order.LexChainSorted` | main.go:90 | a list whose neighbours ascend strictly is sorted |
| `Order.LengthChainSorted` | main.go:94 | a list whose neighbours have non-decreasing lengths is length-sorted |
| `Order.LengthLess` | main.go:17 | ByLength.Less: a word is less than another when it is shorter, len(a) < len(b) |
| `Sorting.SortStrings` | main.go:88-90 | the lexical copy is sorted by `<` and is a permutation of the words |
| `Sorting.SortByLength` | main.go:92-94 | the length copy has non-decreasing lengths and is a permutation of the words |
| `Sorting.SearchStrings` | main.go:44 | returns the least position whose word is not less than the token; every word before it is less |
| `Sorting.SearchFindsMember` | main.go:45 | at that position the test `pos < total_words && token == lex_sort_words[pos]` holds exactly when the token is one of the words |
| `GoStrings.IndexOf` | main.go:31 | strings.Index: -1, or a position at which the separator fits inside the word |
| `GoStrings.Contains` | main.go:31 | strings.Contains, defined as in Go by strings.Index(s, substr) >= 0 |
| `GoStrings.IndexFromOccurs` | main.go:31 | a position strings.Index reports is an occurrence |
| `GoStrings.IndexFromFirst` | main.go:31 | strings.Index reports the first occurrence: none starts earlier |
| `GoStrings.IndexFromAt` | main.go:31 | the first matching position is what strings.Index reports |
| `GoStrings.IndexFromNone` | main.go:31 | with no match strings.Index reports -1 |
| `GoStrings.ContainsOccurs` | main.go:31 | strings.Contains holds exactly when the word occurs somewhere |
| `GoStrings.Split` | main.go:40 | the split has at least two tokens exactly when the separator occurs |
| `GoStrings.JoinSplit` | main.go:40 | joining the tokens with the separator gives back the word |
| `GoStrings.SplitTokensAvoidSeparator` | main.go:40 | no token contains the separator |
| `GoStrings.FirstTwoTokens` | main.go:40-41 | tokens[0] is the text before the first occurrence; tokens[1] runs from its end to the next occurrence or the end |
| `GoStrings.TokensShorter` | main.go:40 | both kept tokens are shorter than the word, so the recursion is on shorter words |
| `GoStrings.TokensAroundSeparator` | main.go:40 | tokens[0] + separator + tokens[1] is a prefix of the word, and all of it exactly when the separator does not occur again at or after the end of its first occurrence |
| `StartIndices.MinWordLen` | main.go:25 | min_word_len is the length of the first word of the length-sorted list, which no word is shorter than |
| `StartIndices.StartEntryCharacterization` | main.go:98-108 | from the minimum length on, entry L is the first position of the longest occurring length not above L |
| `StartIndices.StartTableMonotone` | main.go:98-108 | the table never decreases |
| `StartIndices.StartTableShape` | main.go:98-108 | one entry per length up to the maximum; zeros up to the minimum length; an occurring length maps to its first position; a missing length copies the entry below; every entry is a position of the list |
| `StartIndices.BuildStartIndices` | main.go:98-108 | the loop builds exactly StartTable of the length-sorted list |
| `Concat.ComponentWorks` | main.go:37-66 | a component works when the first two tokens of the split are not both empty, tokens[0] resolves and tokens[1] resolves; as written, a tokens[1] of min_word_len characters also passes once a non-empty tokens[0] has resolved |
| `Concat.Resolves` | main.go:41-64 | a token resolves when it is empty, or at least min_word_len long and either found by the binary search or, when longer than min_word_len, itself accepted by isStringConcat |
| `Concat.CollectComponentWords` | main.go:27-34 | comp_words are the words from the table bound down to position 0 that occur in the search word, in that order |
| `Concat.ComponentWordsMembers` | main.go:27-34 | a word is collected exactly when it sits at a position up to the bound and occurs in the search word |
| `Concat.TryComponent` | main.go:37-66 | the two blocks on tokens[0] and tokens[1] set `found` exactly when the component works under main.go's rule |
| `Concat.IsStringConcat` | main.go:23-73 | the result is true exactly when some collected component works (IsConcat, as written) |
| `Concat.ConcatByComponent` | main.go:67-69 | one working component makes the word accepted |
| `Concat.NotConcatByComponents` | main.go:72 | when no collected component works the word is rejected |
| `Concat.SelfComponentFails` | main.go:40-66 | a word never works as its own component: both tokens are empty |
| `Concat.ShortTokenFails` | main.go:41-42 | a non-empty token shorter than min_word_len makes the component fail |
| `Concat.ComponentLeavesRoom` | main.go:28-66 | a working component is at most len(w) - min_word_len long |
| `Concat.ShortWordIsNotConcat` | main.go:23-73 | a word shorter than twice min_word_len is never accepted |
| `Concat.CandidateRange` | main.go:28 | the words tried are the first word and words of length at most len(w) - min_word_len; any such word past the bound has the bound's length |
| `Concat.ConcatIntendedAsWritten` | main.go:55-64 | whatever the intended rule accepts, main.go accepts |
| `Concat.IntendedTokensResolve` | main.go:55-64 | under the intended rule every non-empty kept token is a listed word or itself accepted; a tokens[1] of exactly min_word_len characters must be listed |
| `Longest.PreparedLists` | main.go:86-108 | the two sorted copies and the table are prepared lists of the same size as the input |
| `Longest.GetLongestCompWord` | main.go:81-120 | the result is "" when no word is accepted, otherwise the accepted word at the highest position of the length-sorted list, all later words being rejected |
| `Longest.LongestIsUnique` | main.go:110-119 | the outcome is determined by the prepared lists |
| `Longest.ResultIsLongest` | main.go:110-119 | "" exactly when no word is accepted; a non-empty result is an accepted word and no accepted word is longer |
| `Longest.UniformLengthGivesNone` | main.go:110-119 | when all words have one length nothing is accepted and the result is "" |
| `Longest.OneWordGivesNone` | main.go:81-120 | a one-word list gives "" |
| `Longest.AsWrittenFindsAtLeastAsLong` | main.go:55-64 | main.go's result is at least as long as the intended rule's |
| `Cases.TailAcceptedAsWritten` | main.go:55-64 | as written, "bcax" is accepted from a, bc although its token "x" is not a word |
| `Cases.TailRejectedIntended` | main.go:55-64 | under the intended rule "bcax" is rejected |
| `Cases.TailOutcomes` | main.go:81-120 | on a, bc, bcax the result is "bcax" as written and "" under the intended rule |
| `Cases.TieFirstOrderMisses` | main.go:28 | with zz before ab, "aba" = "ab" + "a" is rejected because "ab" is never tried |
| `Cases.TieSecondOrderFinds` | main.go:28 | with ab before zz, "aba" is accepted |
| `Cases.TieOutcomes` | main.go:94 | the result on a, ab, aba, zz depends on the order of the two words of length 2 |
| `Cases.RestUnchecked` | main.go:40-66 | with "a" first, "bacaz" splits on "a" into "b", "c", "z" and is accepted, under main.go's rule and under the intended rule, though "z" is not a word |
| `Cases.RestOtherOrderRejected` | main.go:28-66 | with "b" first, "bacaz" is rejected: "b" is the only candidate and leaves the token "acaz", which is not a word and does not contain "b" |
| `Cases.RestOutcomes` | main.go:94 | the result on a, b, c, bacaz is "bacaz" with "a" first and "" with "b" first |

## Left out

- `main`, `readLines` and `checkArgs` (file reading, command-line checks) are I/O and are not modelled. The word list is the input of `GetLongestCompWord`.
- The progress lines printed with `fmt.Printf` and `fmt.Println`, and the `time.Now()` timestamps, are output only and are not modelled.
- `ByLength.Len` and `ByLength.Swap`, and the in-place algorithms of `sort.Strings` and `sort.Sort`, are library internals. The sorts are modelled by value, as a sorted permutation, not as in-place updates of slices.
- `GetLongestCompWord`: `sort.Sort` leaves words of equal length in an order it does not promise. The method's postcondition is stated for the model's own stable order. The lemmas of `Longest` and `Concat` hold for any length-sorted list.
- An empty word list makes `main.go` fail at `sorted_words[0]`. It is a precondition here.
- Empty words are excluded by precondition.
- Strings stand for Go's byte strings, one character per byte, and `len` counts them. Unicode is not modelled.
- `GoStrings.Split` is modelled for a non-empty separator only. Every component word is non-empty, so that is the only case the code reaches.

## Findings

| source | as written | input that shows it | evidently intended | confidence | as-written member | corrected member |
|---|---|---|---|---|---|---|
| main.go:55-64 | Suppose tokens[0] is non-empty and resolved, and tokens[1] has exactly min_word_len characters but is not a listed word. Then neither branch assigns `found`, which stays true, and the word is accepted. | words a, bc, bcax: "bcax" splits on "a" into "bc" and "x", and getLongestCompWord returns "bcax" | a tokens[1] that the binary search does not find, and that is too short to recurse on, fails the component | high; not executed | `Cases.TailAcceptedAsWritten` | `Concat.IntendedTokensResolve` |
