# Apple TTS training-data queries, in Dafny

This project models the query side of the `AppleTTS` class of `apple_tts.py`. The class
loads the samples of a TTS training corpus. Each sample has an utterance name, its words,
a script title (its category), a phoneme sequence and a transcription. The class holds
them in `self.samples` and answers these queries over them:

- `find_sample_by_id` looks a sample up by utterance name.
- `find_closest_match` is a fuzzy text match. It takes an exact lower-cased match first.
  Otherwise it scores each sample with `difflib.SequenceMatcher(...).ratio()` plus a
  word-overlap bonus weighted `0.3`. It keeps the first best score and accepts it only
  above `0.3`.
- `search_samples` is a case-insensitive substring search.
- `filter_by_category` filters by exact script title.
- `analyze_phonemes` breaks a phoneme sequence up at `" # "`.
- `get_stats` gives the count and category statistics.

The model has five modules, one file each:

- `collections.dfy` (`Collections`): an `Option` for Python's `None`-or-value returns,
  the order-preserving filter behind list comprehensions and append loops, and "the first
  index whose element satisfies `p`".
- `strings.dfy` (`Strings`): the Python `str` operations the class uses. These are
  `lower()`, `strip()` and `split()` on Python's whitespace set, the `in` operator on
  strings, and `split(sep)` with `sep.join`.
- `sorting.dfy` (`Sorting`): Python's string order and `sorted(set(...))`.
- `difflib.dfy` (`Difflib`): `SequenceMatcher.ratio()` without junk. It covers
  `find_longest_match` with its tie-break, the recursive `get_matching_blocks`, and
  `2 * M / T`.
- `apple_tts.dfy` (`AppleTts`): the sample records, the score, and the class `AppleTTS`.
  Its field `samples` is the loaded list, and one method or function stands for each query.

The query methods are loops, as in the source. Each is proved against functions of the
samples:

- `FindSampleById` returns the element at `FirstIndex`.
- `SearchSamples` returns a `Filter`.
- `FindClosestMatch` handles the exact case through `FirstIndex`. In the scored case it
  returns the arg-max of `ScoreOf`, with ties going to the earliest sample.

`filter_by_category` and `get_stats` compute a value with no loop, so they are class
functions that read `samples`.

Only the query is stripped (`apple_tts.py:52`); the sample text is lower-cased but not
stripped (`apple_tts.py:57`). The model follows the code: `SampleText` is `Lower(words)`
and `NormalizeQuery` is `Strip(Lower(text))`.

## Model

| member | source | states |
|---|---|---|
| AppleTts.AppleTTS.constructor | apple_tts.py:14-28 | the sample list is the loaded records, in file order |
| AppleTts.AppleTTS.GetStats | apple_tts.py:30-38 | on a non-empty list: the total is the number of samples; the category names are strictly ascending and are exactly the script titles that occur; the category count equals the number of names and of distinct titles |
| AppleTts.AppleTTS.FindSampleById | apple_tts.py:43-48 | `None` exactly when no sample has the utterance name; otherwise the first sample that has it |
| AppleTts.AppleTTS.FindClosestMatch | apple_tts.py:50-76 | if some sample's lower-cased words equal the lower-cased, stripped query, the first such sample; otherwise `None` exactly when every score is at most `0.3`, and a returned sample has the highest score, strictly above `0.3`, with every earlier sample scoring strictly lower |
| AppleTts.AppleTTS.SearchSamples | apple_tts.py:78-87 | the samples whose lower-cased words contain the lower-cased query, in list order; a sample is in the result exactly when it is in the list and matches; an empty query returns the whole list |
| AppleTts.AppleTTS.FilterByCategory | apple_tts.py:89-91 | a subsequence of the samples; membership exactly when the script title equals the category; every matching sample kept with its multiplicity and no other |
| AppleTts.AppleTTS.CategoryHasSamples | apple_tts.py:30-38 | a name is among the stats' category names exactly when filtering by it gives a non-empty list |
| AppleTts.AppleTTS.AnalyzePhonemes | apple_tts.py:147-161 | `None` exactly when no sample has the utterance name; otherwise the analysis of the first sample that has it: its words, transcription and full sequence, the sequence cut at `" # "` and the piece count; there is at least one piece, no piece contains the separator, and joining the pieces with `" # "` gives back the sequence |
| AppleTts.NormalizeQuery | apple_tts.py:52 | the query lower-cased, then stripped of surrounding whitespace |
| AppleTts.SampleText | apple_tts.py:57 | a sample's words lower-cased, not stripped |
| AppleTts.WordSet | apple_tts.py:67-68 | the set of the whitespace-separated tokens of a string |
| AppleTts.CommonWords | apple_tts.py:69 | the tokens the query and the sample text have in common |
| AppleTts.WordOverlap | apple_tts.py:69 | the number of common tokens over the number of the query's distinct tokens, `0` when the query has none |
| AppleTts.ScoreOf | apple_tts.py:64-70 | the score of a sample's lower-cased words against the normalised query |
| AppleTts.Score | apple_tts.py:64-70 | the score of a sample text lies between `0` and `1.3` |
| AppleTts.WordOverlapBounds | apple_tts.py:67-69 | the word-overlap share lies between `0` and `1` |
| AppleTts.WordOverlapZero | apple_tts.py:67-69 | the overlap is `0` exactly when the query and the sample text share no word |
| AppleTts.WordOverlapFull | apple_tts.py:67-69 | the overlap is `1` exactly when the query has words and all of them occur in the sample text |
| AppleTts.WordOverlapGrows | apple_tts.py:67-69 | at least as many shared words give at least as large an overlap |
| AppleTts.ScoreGrowsWithOverlap | apple_tts.py:64-70 | for equal similarity ratios, sharing at least as many of the query's words never lowers the score |
| AppleTts.ScoreGrowsWithSharedWords | apple_tts.py:64-70 | for equal similarity ratios, a text that shares every word the other shares scores at least as high |
| AppleTts.ScoreSelfIsMaximal | apple_tts.py:59-70 | no sample text scores higher against a query than the query itself, so the exact match returned early is a best possible score |
| AppleTts.FullOverlapPasses | apple_tts.py:64-76 | a query that has words, all of which occur in the sample text, scores strictly above the `0.3` threshold |
| AppleTts.SearchNarrows | apple_tts.py:78-87 | every sample found for a query is also found for each substring of that query |
| AppleTts.TitlesMember | apple_tts.py:32 | a title is among the script titles gathered from the samples exactly when some sample has it |
| Collections.Filter | apple_tts.py:81-87 | the result is a subsequence of the input, and all its elements pass the test |
| Collections.FilterCounts | apple_tts.py:89-91 | every passing element keeps its multiplicity; every failing element is dropped |
| Collections.FilterMembers | apple_tts.py:83-85 | an element is in the result exactly when it is in the input and passes |
| Collections.FilterAll | apple_tts.py:83-85 | when every element passes, the result is the input |
| Collections.FirstIndex | apple_tts.py:45-47 | `Some(k)`: element `k` passes and no earlier one does; `None`: no element passes |
| Collections.FirstIndexIs | apple_tts.py:45-47 | the first passing index is pinned down by those two properties |
| Collections.FirstIndexNone | apple_tts.py:48 | with no passing element, the first index is `None` |
| Strings.Lower | apple_tts.py:52 | lower-casing keeps the length |
| Strings.LowerAt | apple_tts.py:52 | lower-casing works character by character, mapping `A`-`Z` to `a`-`z` and keeping every other character |
| Strings.SkipSpaces | apple_tts.py:52 | the index of the first non-whitespace character at or after the start, with only whitespace before it |
| Strings.Strip | apple_tts.py:52 | the result is a slice of the input with only whitespace cut off on each side, and it neither starts nor ends with whitespace |
| Strings.Words | apple_tts.py:67-68 | `split()`: the maximal runs of non-whitespace, in order |
| Strings.WordsFrom | apple_tts.py:67-68 | every token is non-empty and holds no whitespace |
| Strings.WordsAreTokens | apple_tts.py:67-68 | `w` is a token of `split()` exactly when `w` stands in the string as a maximal run of non-whitespace |
| Strings.WordsFromSound | apple_tts.py:67-68 | every token the scan produces stands in the string as a whole token |
| Strings.WordsFromComplete | apple_tts.py:67-68 | every whole token at or after the scan's start is produced |
| Strings.WordsEmpty | apple_tts.py:69 | a string has no tokens exactly when it is all whitespace |
| Strings.IndexOf | apple_tts.py:84 | `Some(i)`: `sub` occurs at `i` and at no earlier index; `None`: it occurs nowhere |
| Strings.Contains | apple_tts.py:84 | `sub in s`: the first-occurrence search finds `sub` |
| Strings.ContainsOccurs | apple_tts.py:84 | `sub in s` holds exactly when `sub` occurs somewhere in `s`; the empty string is in every string |
| Strings.ContainsTransitive | apple_tts.py:84 | a string that contains `t` contains every substring of `t` |
| Strings.Split | apple_tts.py:153 | at least one piece, and no piece contains the separator |
| Strings.SplitFirstPiece | apple_tts.py:153 | with no separator in the string it is the only piece; otherwise the first piece is everything before the first separator |
| Strings.Join | apple_tts.py:153-159 | `sep.join(parts)`: the pieces in order with the separator between neighbours |
| Strings.JoinSplit | apple_tts.py:153-159 | joining the pieces with the separator gives back the string |
| Sorting.StrLess | apple_tts.py:38 | Python's `<` on strings: lexicographic by code point, a proper prefix below the longer string |
| Sorting.StrLessIrreflexive | apple_tts.py:38 | no string is below itself |
| Sorting.StrLessTransitive | apple_tts.py:38 | the string order is transitive |
| Sorting.StrLessTotal | apple_tts.py:38 | of two different strings, one is below the other |
| Sorting.InsertSorted | apple_tts.py:38 | inserting into a strictly ascending list keeps it strictly ascending, and its elements are the old ones plus the new one |
| Sorting.SortedSet | apple_tts.py:38 | `sorted(set(xs))` is strictly ascending and has exactly the elements of `xs` |
| Sorting.StrictlySortedDistinct | apple_tts.py:37-38 | a strictly ascending list is as long as the set of its elements |
| Difflib.MatchLength | apple_tts.py:64 | the common run at a start pair stays inside the window |
| Difflib.LongestAt | apple_tts.py:64 | the common run at a start pair is a match, and no match from that pair in the window is longer |
| Difflib.Scan | apple_tts.py:64 | the block kept by the scan lies inside the window |
| Difflib.ScanKeepsInvariant | apple_tts.py:64 | the scan ends holding a longest block of the whole window, the first one in scan order among the longest |
| Difflib.LongestMatch | apple_tts.py:64 | the longest match lies inside the window |
| Difflib.LongestMatchIsLongest | apple_tts.py:64 | `find_longest_match` gives a real common block of maximal size; among those of that size, it starts earliest in `a`, then earliest in `b` |
| Difflib.LongestMatchUnique | apple_tts.py:64 | only one block has those properties |
| Difflib.MatchingBlocksIn | apple_tts.py:64 | the matched total fits in either part of the window |
| Difflib.MatchingBlocksValid | apple_tts.py:64 | every matching block is a real, non-empty match inside the window, and the blocks come in increasing order in both strings without overlapping |
| Difflib.ValidStep | apple_tts.py:64 | valid blocks left and right of the longest match make valid blocks for the whole window |
| Difflib.MatchingBlocksSplit | apple_tts.py:64 | the blocks of a window are those of its left part, then the longest match, then those of its right part |
| Difflib.MatchingBlocks | apple_tts.py:64 | the matched total `M` fits in either string |
| Difflib.SumSizesAppend | apple_tts.py:64 | the matched total of two block lists joined is the sum of their totals |
| Difflib.Ratio | apple_tts.py:64 | `ratio()` lies between `0` and `1`, and is `1` for two empty strings |
| Difflib.RatioSelf | apple_tts.py:64 | a string compared with itself has ratio `1` |
| Difflib.MatchedZero | apple_tts.py:64 | the matched total is zero exactly when the longest match is empty |
| Difflib.LongestMatchEmpty | apple_tts.py:64 | the longest match is empty exactly when no character of `a` occurs in `b` |
| Difflib.RatioZero | apple_tts.py:64 | two strings, not both empty, have ratio `0` exactly when they share no character |

## Left out

- `load_metadata` (`apple_tts.py:21-28`) reads a file and parses JSON lines. The model
  takes the resulting list as the constructor's argument and leaves out file I/O, JSON
  and the progress printing.
- `play_audio` and `synthesize_text` (`apple_tts.py:93-145`) run `ffmpeg`, `ffplay`,
  `espeak` and `say` as subprocesses and print. That is external I/O, so they are not
  modelled.
- `generate_report` and the interactive `main` loop print and format text, which the
  model leaves out.
- AppleTts.AppleTTS.GetStats: does not compute `avg_duration` or `total_duration`. They
  are rounded floating-point sums, so the field `sentence_estimated_duration` is not part
  of `Sample`. The precondition of a non-empty list is kept, because the source divides
  by the count.
- AppleTts.AppleTTS.FindClosestMatch: scores are exact reals, not IEEE doubles. A tie or
  threshold comparison that floating-point rounding would decide differently is not
  modelled.
- Difflib.Ratio: leaves out the "autojunk" heuristic, which `SequenceMatcher` applies
  only when the second string has at least 200 characters. Below that length, with no
  junk function, the model is the library's behaviour. The library method
  `find_longest_match` extends matches over junk elements; with no junk this never
  applies.
- Difflib.MatchingBlocks: leaves out the library's merging of adjacent blocks and its
  final `(len(a), len(b), 0)` sentinel. Neither changes the matched total, so `ratio()`
  is unaffected. The library uses an explicit work queue instead of recursion, and it
  queues the window left of a match only when both its sides are non-empty
  (`alo < i and blo < j`), and the one right of it likewise (`i + k < ahi and j + k < bhi`).
  The model also recurses into windows with an empty side; their longest match is empty,
  so they add no block. The library sorts the blocks it found; the model builds them in
  order (`MatchingBlocksValid` proves them ordered), so that sort changes nothing.
- Difflib.LongestMatch: computes, as a scan over start pairs, the block that the
  library's dynamic program over `b2j` returns. The library's internal tables are not
  modelled.
- Strings.Lower: changes only the ASCII letters `A` to `Z`. Python's full Unicode case
  mapping, including mappings that change a string's length, is left out.
