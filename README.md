# Basic Data Analysis — the input-to-statistics pipeline in Dafny

This project models how the Basic Data Analysis program turns what the user
types into statistics. There are two entry modes:

- **Whole list.** One typed line holds the whole dataset, either `1, 2, 3` or
  `(1, 2, 3)`. The prompt repeats while the line yields the list `['']`.
- **One at a time.** Every typed line is trimmed and appended. The word `done`
  (any case, surrounding spaces ignored) ends collection, but only once the
  list holds something.

Both modes hand their list of string tokens to `analysis`, which does four
things:

1. Its nested `filter` splits the tokens into the values that `float` accepts
   and the original tokens that it rejects.
2. It sorts the valid values.
3. It takes `statistics.mean`, `statistics.median` and `statistics.multimode`
   of the sorted copy.
4. It reports those three results and the invalid tokens.

Modules, one per part of the program:

| file | module | models |
|---|---|---|
| `wrappers.dfy` | `Wrappers` | `Option` and `Result` |
| `strings.dfy` | `Strings` | the `str` operations used: `split`, `replace(c, "")`, `strip`, `lower`, `startswith`, `endswith` |
| `whole_list.dfy` | `WholeListInput` | the per-line tokeniser and the prompt loop of `WholeList` |
| `single.dfy` | `SingleInput` | the collection loop of `Single` |
| `validity.dfy` | `Validity` | `filter` |
| `statistics.dfy` | `Statistics` | `sorted`, `statistics.mean`, `statistics.median`, `statistics.multimode` |
| `analysis.dfy` | `Analysis` | `analysis`, and `WholeList`/`Single` ending in it |

Some parts of the program change things step by step, and these are Dafny
methods with loops:

- the loop of `filter` (`Validity.Filter`);
- the two `while True` prompt loops (`WholeListInput.ReadWholeList` and `SingleInput.ReadSingle`).

Each method is proved against a specification function or predicate:
`ValidOf`/`InvalidOf`, `DataAfter`/`AcceptedAt` and `StopsAt`/`TrimmedPrefix`.
The per-line tokenising and the statistics are expressions in the program, so
they are functions here, with lemmas.

What the user types is a sequence of lines. If the lines run out before a loop
ends, the program would still be waiting at its prompt on a terminal, or
`input()` would raise an uncaught `EOFError` at the end of redirected input;
the model returns `None` in that case. `float(item)` is a parameter, `parse: string -> Option<real>`:
`Some(v)` when `float` returns `v`, `None` when it raises.

Quirks of the program that the model keeps:

- **Parentheses.** An enclosed line loses *every* `(` and `)`, including inner
  ones. It does not lose just one outer pair.
- **Plain lines are not trimmed.** `1, 2, a, 4` yields the tokens `"1"`, `" 2"`,
  `" a"` and `" 4"`, so the invalid token reported is `" a"` (`PlainLineExample`).
- **One-sided lines.** A line with only one of the two outer parentheses leaves
  `data` as it was. When this happens on the first line, the empty list `[]`
  is accepted, because the emptiness test only rejects `['']`. Then
  `statistics.mean` raises (`WholeList`, `OneSidedFirstLine`).
- **`done` on an empty list.** It prints an error but is then appended, because
  no `continue` follows the error. The collected list is therefore never
  empty (`CollectedEntries`).
- **No valid values.** `statistics.mean` raises `StatisticsError` and nothing
  catches it. Here that is `Failure(EmptyData)`; the program does not produce
  a report.
- **Modes.** The program computes only `multimode`, so every value that ties
  for the highest count is reported, in ascending order.

## Model

| member | source | states |
|---|---|---|
| Strings.Split | Basic_Data_Analysis.py:137 | `split(",")` gives one more piece than there are commas, no piece contains a comma (empty pieces are kept), and joining the pieces with commas gives the line back |
| Strings.JoinSplit | Basic_Data_Analysis.py:137 | splitting the comma-join of comma-free pieces gives the same pieces back, the other half of the split/join round trip |
| Strings.RemoveCharSpec | Basic_Data_Analysis.py:139 | `RemoveChar`, the model of `replace(c, "")`, removes every `c`, keeps every other character as many times as it occurs, shortens the string by the number of `c`s and leaves a string without `c` unchanged |
| Strings.StripSlice | Basic_Data_Analysis.py:140 | `strip()` keeps one contiguous slice of the string; everything before and after it is whitespace, and every character of the result comes from the input |
| Strings.Strip | Basic_Data_Analysis.py:140 | the result of `strip()` neither starts nor ends with whitespace and is no longer than its input |
| Strings.StripAllWhitespace | Basic_Data_Analysis.py:140 | `strip()` gives the empty string exactly when every character is whitespace |
| Strings.StripIdempotent | Basic_Data_Analysis.py:170 | stripping twice is stripping once |
| Strings.LowerAt | Basic_Data_Analysis.py:164 | `Lower`, the model of `lower()`, keeps the length and lowers each character in place |
| Strings.StripLower | Basic_Data_Analysis.py:164 | `lower().strip()` equals `strip().lower()` |
| WholeListInput.Tokenise | Basic_Data_Analysis.py:136-140 | a plain line gives exactly its `split(",")` (untrimmed, commas + 1 tokens, joins back to the line); an enclosed line gives commas + 1 tokens, each trimmed and free of `(`, `)` and `,` (`EnclosedTokens` says which); a one-sided line leaves the previous `data` unchanged |
| WholeListInput.RejectedIff | Basic_Data_Analysis.py:136-143 | a line is refused exactly when it is an empty plain line, or an enclosed line of only parentheses and whitespace, or a one-sided line after a refused attempt |
| WholeListInput.ReadWholeList | Basic_Data_Analysis.py:133-145 | the loop stops at the first line whose `data` is not `['']` and returns that `data`; if it never stops, every line was refused |
| WholeListInput.AcceptedUnique | Basic_Data_Analysis.py:133-145 | the line at which the loop stops, and the list it accepts, are determined by the lines |
| WholeListInput.OneSidedFirstLine | Basic_Data_Analysis.py:133-145 | a first line with only one outer parenthesis ends the loop with the initial `[]` |
| WholeListInput.OneSidedAfterRefusal | Basic_Data_Analysis.py:136-143 | after a refused line, a one-sided line is refused again |
| WholeListInput.PlainExample | Basic_Data_Analysis.py:136-137 | `1, 2, a, 4` gives `"1"`, `" 2"`, `" a"`, `" 4"` |
| WholeListInput.EnclosedRoundTrip | Basic_Data_Analysis.py:138-140 | comma-free items written between `(` and `)` and separated by commas are read back one token per item, each item with every `(` and `)` removed, inner ones included, and its whitespace stripped |
| WholeListInput.EnclosedTokens | Basic_Data_Analysis.py:138-140 | every enclosed line gives one token per comma piece of what lies between its outer parentheses, that piece with every `(` and `)` removed and stripped |
| SingleInput.DoneOfStripped | Basic_Data_Analysis.py:164-170 | a line and its trimmed form are the sentinel alike, so the appended entry is the sentinel exactly when the line was |
| SingleInput.ReadSingle | Basic_Data_Analysis.py:158-170 | collection ends at the first `done` after the first line; the list holds every earlier line, trimmed, in order, including a leading `done`; if it does not end, no line after the first was `done` |
| SingleInput.CollectedEntries | Basic_Data_Analysis.py:160-170 | the collected list is non-empty, every entry is trimmed, no entry after the first is `done`, and the first entry is `done` exactly when the first line was |
| SingleInput.StopsAtUnique | Basic_Data_Analysis.py:160-168 | the line at which collection ends is determined by the lines |
| Validity.Filter | Basic_Data_Analysis.py:95-104 | the loop's two lists are exactly the valid values and the invalid tokens of the input |
| Validity.FilterAppend | Basic_Data_Analysis.py:97-102 | filtering a concatenation concatenates the results, so both lists keep input order |
| Validity.FilterOne | Basic_Data_Analysis.py:98-102 | a parsing token contributes its value to the valid list only; a failing token contributes itself, unchanged, to the invalid list only |
| Validity.FilterCount | Basic_Data_Analysis.py:95-104 | the valid and invalid lists together are exactly as long as the input |
| Validity.InvalidMembers | Basic_Data_Analysis.py:101-102 | a string is in the invalid list exactly when it is one of the tokens and it does not parse |
| Validity.ValidMembers | Basic_Data_Analysis.py:99-100 | a value is in the valid list exactly when some token parses to it |
| Validity.FilterWritten | Basic_Data_Analysis.py:97-102 | when each of the given numbers is written in a form that `float` reads back exactly, the written tokens are all valid again, in the same order, and nothing is invalid |
| Statistics.Sorted | Basic_Data_Analysis.py:107 | `sorted` returns an ascending list of the same length with the same values, each as many times |
| Statistics.AscendingUnique | Basic_Data_Analysis.py:107 | two ascending lists with the same values are equal, so `sorted` is fully determined |
| Statistics.SortedAscending | Basic_Data_Analysis.py:107 | sorting an already ascending list returns it unchanged |
| Statistics.SortedPermutation | Basic_Data_Analysis.py:107 | lists with the same values sort to the same list |
| Statistics.SumPermutation | Basic_Data_Analysis.py:108 | the sum does not depend on the order of the values |
| Statistics.Mean | Basic_Data_Analysis.py:108 | the mean raises exactly on the empty list; otherwise the mean times the count is the sum |
| Statistics.MeanWithin | Basic_Data_Analysis.py:108 | the mean lies between any lower and upper bound of the values |
| Statistics.MeanPermutation | Basic_Data_Analysis.py:107-108 | lists with the same values have the same mean |
| Statistics.MeanExample | Basic_Data_Analysis.py:108 | the mean of 2, 4, 6 is 4 |
| Statistics.Median | Basic_Data_Analysis.py:109 | the median raises exactly on the empty list |
| Statistics.MedianOfAscending | Basic_Data_Analysis.py:107-109 | the median of an ascending list is its middle element when its length is odd and the mean of its two middle elements when it is even; with `SortedPermutation` this fixes the median of every list |
| Statistics.MedianSplits | Basic_Data_Analysis.py:109 | the median lies between the two middle elements of the sorted list; at least half of the values are at most it and at least half are at least it |
| Statistics.MedianPermutation | Basic_Data_Analysis.py:107-109 | lists with the same values have the same median |
| Statistics.Distinct | Basic_Data_Analysis.py:110 | the distinct values, each once, with the same members as the list |
| Statistics.MaxCount | Basic_Data_Analysis.py:110 | the largest count among the values, which some value reaches |
| Statistics.MultimodeModes | Basic_Data_Analysis.py:110 | for `Multimode`, the model of `st.multimode`, a value is a mode exactly when it occurs and no value occurs more often; the modes are listed once each, and there is at least one exactly when the list is not empty |
| Statistics.MultimodeAscending | Basic_Data_Analysis.py:107-110 | the modes of the sorted list come out strictly ascending |
| Analysis.NothingValid | Basic_Data_Analysis.py:106-108 | the valid list is empty exactly when no token parses |
| Analysis.StatisticsOfSorted | Basic_Data_Analysis.py:107-110 | the mean, median and modes of the sorted copy are those of the valid values; the modes are strictly ascending |
| Analysis.Analyze | Basic_Data_Analysis.py:106-115 | `analysis` fails exactly when no token parses; otherwise it reports the mean and median of the valid values, their most frequent values ascending and once each, and the invalid tokens |
| Analysis.WholeList | Basic_Data_Analysis.py:133-147 | the accepted list is analysed; if the lines run out, every line was refused; a one-sided first line ends in the empty-data failure |
| Analysis.Single | Basic_Data_Analysis.py:158-172 | the collected list is analysed; if the lines run out, no line after the first was `done` |
| Analysis.PlainLineExample | Basic_Data_Analysis.py:97-108 | for the tokens of `1, 2, a, 4`, the valid values are 1, 2, 4, the invalid token is `" a"`, and the mean is 7/3 |

## Left out

- Every `print` and `input` is left out. This includes the debug print in
  `filter`, the "Current" display, and the "Press Enter" pauses. The typed
  lines are a sequence given to the loops, and `analysis` returns its report
  instead of printing it.
- Running out of lines is modelled as `None`. The program would instead block
  at its prompt on a terminal, or stop with an uncaught `EOFError` from
  `input()` at the end of redirected input.
- `install_and_import`, the initialisation block and `main_menu` are not part
  of this model. They install packages, import dynamically and dispatch on
  menu input.
- `random_data.py` is not part of this model. It does random generation and
  file writing. No file-reading ingestion exists in the program, so none is
  modelled.
- Validity.Filter: `float` is an abstract parameter, and its literal grammar is
  not modelled. `float` also accepts `nan` and `inf`, which then join the valid
  list. Exact reals cannot represent those values.
- Statistics.Mean, Statistics.Median: exact real arithmetic. The IEEE rounding
  of `statistics.mean` and of the median's average is not modelled, and neither
  is the distinction between `-0.0` and `0.0`.
- Strings.LowerAt: only ASCII letters are lowered, while Python's `lower` is
  Unicode-aware. This changes the sentinel test only for a non-ASCII character
  whose lower-case form is one of the letters of `done`.
- Statistics.Median: no concrete example is proved, such as the median of 2,
  4, 6, 8 being 5. Evaluating `sorted` on literals is too costly for the
  verifier. `MedianOfAscending` gives the value for every ascending list, odd
  and even lengths alike, and `MedianPermutation` carries it to every list.
- Statistics.MultimodeModes: no concrete example is proved, such as the
  multimode of 1, 1, 2, 2, 3 being 1, 2. The reason is the same cost.
  `MultimodeModes` and `MultimodeAscending` state the property for all inputs.
