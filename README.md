# Parallel word-frequency counter, modelled in Dafny

`Lab1/main.py` counts how often each word occurs in a text file. It splits the
text at whitespace and cuts the token list into `num_segments` contiguous
segments. It counts each segment in its own process with `collections.Counter`,
storing each table in a shared `result_dict` and setting a flag in a shared
`progress_list`. It merges the tables with `Counter.update` and writes the
words to `output.txt`, sorted by count (descending) and then by word
(ascending), one `word: count` line each after a fixed header.

This project models that pipeline without the processes. The workers run one
after the other in an order given by a `schedule` parameter. The schedule
stands for the order in which the processes happen to store their tables
(`result_dict[index] = counter`, line 62), which is the insertion order of
`result_dict`. A process may still finish later than another one that stored
after it, because of the `print` at line 64. The central result is
`Pipeline.WordFrequency`. For a positive segment count and every schedule, the
ranked list it returns equals `Ranking.Rank(Split(text))`, a ranking computed
from the token list alone with no segments or workers. So the output is then
deterministic, and each word's count is its number of occurrences in the text.
A count of 0 fails with `ZeroDivisionError`, and a negative count gives an
empty ranking.

Modules, one per stage of the pipeline:

- `Tokenizer` (`tokenizer.dfy`): `text.split()`.
- `Partition` (`partition.dfy`): `split_text`.
- `Counting` (`counting.dfy`): `Counter(segment)`, `Counter.update`, the sum of counts over tables.
- `Workers` (`workers.dfy`): `count_words` and the dispatch loop in `main`. `result_dict` is a `ResultDict` object that keeps insertion order. `progress_list` is an `array<int>` of 0/1 flags.
- `Merging` (`merging.dfy`): the merge loop in `main`.
- `Ranking` (`ranking.dfy`): the sort key, `sorted`, `final_count.items()`, and the reference ranking.
- `Report` (`report.dfy`): the text of `output.txt`.
- `Pipeline` (`pipeline.dfy`): `main`, from the text already read to the ranked list.
- `Collections` (`collections.dfy`): generic sequence facts.

## Model

| member | source | states |
|---|---|---|
| Tokenizer.IsSpace | Lab1/main.py:39 | definition: the characters `str.split()` treats as whitespace, which are those CPython's `Py_UNICODE_ISSPACE` accepts: ASCII whitespace, U+001C..U+001F, U+0085 and the Unicode space, line and paragraph separators |
| Tokenizer.Split | Lab1/main.py:39 | every token is non-empty and contains no whitespace |
| Tokenizer.SplitKeepsOrder | Lab1/main.py:39 | the tokens laid end to end are the text with its whitespace removed, so characters keep their input order and only whitespace is dropped |
| Tokenizer.JoinIsSpaced | Lab1/main.py:39 | tokens joined by single spaces are the layout of those tokens with a space after each one but the last |
| Tokenizer.SplitJoin | Lab1/main.py:39 | round trip, the single-space case of `SplitSpaced`: splitting the tokens joined by single spaces gives back exactly the tokens, for any list of whitespace-free non-empty tokens |
| Tokenizer.SplitSpaces | Lab1/main.py:39 | a run of whitespace of any length and kind produces no token |
| Tokenizer.SplitWordRun | Lab1/main.py:39 | a token followed by a non-empty run of whitespace is split off whole, and the run is dropped |
| Tokenizer.SplitSpaced | Lab1/main.py:39 | any run of whitespace is one separator: tokens laid out with arbitrary leading whitespace, arbitrary non-empty whitespace runs between them and arbitrary trailing whitespace split back into exactly those tokens |
| Tokenizer.SplitWordThen | Lab1/main.py:39 | a token followed by whitespace or by the end of the text is split off whole |
| Tokenizer.WordLen | Lab1/main.py:39 | the length of the maximal whitespace-free prefix: no whitespace before it, and whitespace or the end at it |
| Partition.SplitText | Lab1/main.py:28-49 | a count of 0 fails with ZeroDivisionError; a negative count gives no segments; a positive count gives exactly the segments `Segments(words, n)` with `segment_size = len(words) // n` and the last segment running to the end |
| Partition.Segments | Lab1/main.py:43-47 | the list of `num_segments` slices `words[i*size : end]` that `split_text` builds for a positive count; it has exactly `n` segments |
| Partition.BoundsInRange | Lab1/main.py:40-47 | every slice `words[i*size : end]` has ordered bounds within the token list |
| Partition.SegmentsCover | Lab1/main.py:43-47 | the segments laid end to end reproduce the token list exactly: no token dropped, none repeated |
| Partition.SegmentSizes | Lab1/main.py:40-46 | segment `i < n-1` has `len(words) // n` tokens; the last has `len(words) - (n-1)*(len(words) // n)` |
| Partition.MoreSegmentsThanWords | Lab1/main.py:40-47 | with more segments than tokens, segments 0..n-2 are empty and the last holds every token |
| Counting.Tally | Lab1/main.py:61 | `Counter(segment)` maps each word to its exact number of occurrences in the segment, and has a key for exactly the words that occur |
| Counting.Update | Lab1/main.py:121 | `a.update(b)` has the keys of both tables, and each word's count is the sum of its counts in `a` and `b` |
| Counting.UpdateCommutes | Lab1/main.py:119-121 | merging two tables gives the same result in either order |
| Counting.UpdateAssociates | Lab1/main.py:119-121 | merging is associative |
| Counting.TalliesSum | Lab1/main.py:61 | summing the per-segment counts of a word gives its number of occurrences in the segments laid end to end |
| Workers.ResultDict.constructor | Lab1/main.py:101 | a new `manager.dict()` is empty |
| Workers.ResultDict.Put | Lab1/main.py:62 | `result_dict[k] = v` sets only slot `k`; a new key is appended to the insertion order and an existing one keeps its place |
| Workers.CountWords | Lab1/main.py:51-63 | stores `Counter(segment)` in slot `index` and sets only `progress_list[index]` to 1; every other slot and flag is unchanged |
| Workers.ResultDict.Values | Lab1/main.py:120 | `result_dict.values()`: one table per stored key, none missing and none repeated, in the order the keys were first inserted |
| Workers.FlagSetCount | Lab1/main.py:63 | setting a 0/1 flag raises `sum(progress_list)` by one the first time and leaves it unchanged after that: no lost update, and repeating the set is harmless |
| Workers.Completed | Lab1/main.py:76-78 | the snapshot `sum(progress_list)` of 0/1 flags lies between 0 and the number of flags; it is 0 for `[0] * num_segments`; it equals `len(progress_list)`, the exit condition of `show_progress`, exactly when every flag is set |
| Workers.ScheduleIsPermutation | Lab1/main.py:106-116 | a storing order of `n` workers is a reordering of the indices `0..n-1` and has length `n` |
| Workers.Slots | Lab1/main.py:106-116 | once every worker has finished, `result_dict` has exactly the keys `0..n-1` |
| Workers.SlotsPositive | Lab1/main.py:61-62 | no table stored by a worker holds a zero count |
| Workers.NextWorker | Lab1/main.py:106-109 | the next worker in a storing order is one of the `n` workers and has not stored its table before |
| Workers.RunAll | Lab1/main.py:106-116 | starting from the empty dict and all-zero flags, once every worker in the storing order has stored its table and set its flag, the shared state records exactly those workers in that order |
| Workers.AllFinished | Lab1/main.py:114-116 | after `join`, every slot `0..n-1` holds its segment's table and every flag is 1 |
| Workers.RunWorker | Lab1/main.py:107-109 | one more worker finishing moves the shared state from "workers `done` finished" to "workers `done + [i]` finished": slots, insertion order, flags and snapshot |
| Workers.Dispatch | Lab1/main.py:99-116 | after all workers have run, in any order: slot `i` holds segment `i`'s table, the insertion order of `result_dict` is the storing order, every flag is 1, and the snapshot equals the number of segments |
| Merging.Merge | Lab1/main.py:119-121 | each word's merged count is the sum of its counts over all the tables, and the merged keys are the keys of the tables |
| Merging.KeysHavePositiveSums | Lab1/main.py:119-121 | when no table holds a zero, a word is a key of the merged table exactly when its summed count is positive |
| Merging.SumIgnoresOrder | Lab1/main.py:120-121 | the merged count does not depend on the order of `result_dict.values()`: any reordering of the stored tables gives the same sums |
| Ranking.CommonPrefix | Lab1/main.py:126 | the length of the longest common prefix of two words: the prefixes agree and the next characters, if both exist, differ |
| Ranking.LexLess | Lab1/main.py:126 | Python's `<` on `str`: the words compare by code point at the first position where they differ, and a proper prefix sorts first |
| Ranking.Before | Lab1/main.py:126 | definition: the sort key `(-count, word)`, so a higher count sorts first and equal counts sort by word |
| Ranking.LexLessIrreflexive | Lab1/main.py:126 | no word sorts before itself |
| Ranking.LexLessTransitive | Lab1/main.py:126 | string order is transitive |
| Ranking.LexLessTotal | Lab1/main.py:126 | of two different words, one sorts before the other |
| Ranking.BeforeIsStrictTotalOrder | Lab1/main.py:126 | the key `(-count, word)` is a strict total order on entries: irreflexive, transitive and total |
| Ranking.BeforeTransitive | Lab1/main.py:126 | the sort key is transitive |
| Ranking.BeforeTotal | Lab1/main.py:126 | of two different entries, one sorts before the other |
| Ranking.BeforeAsymmetric | Lab1/main.py:126 | two entries never sort before each other |
| Ranking.Insert | Lab1/main.py:126 | inserting adds exactly one copy of the entry |
| Ranking.InsertSorted | Lab1/main.py:126 | inserting a new entry into a strictly sorted list keeps it strictly sorted |
| Ranking.SortEntries | Lab1/main.py:126 | `sorted` returns a permutation of its input |
| Ranking.SortEntriesSorted | Lab1/main.py:126 | sorting a list without repeated entries gives a strictly sorted list |
| Ranking.SortedUnique | Lab1/main.py:126 | two strictly sorted lists of the same entries are equal, so the ranking does not depend on the order in which the items were enumerated |
| Ranking.SameHead | Lab1/main.py:126 | two strictly sorted lists of the same entries start with the same entry |
| Ranking.SortedDistinct | Lab1/main.py:126 | a strictly sorted list has no repeated entry |
| Ranking.Items | Lab1/main.py:126 | `final_count.items()` yields each key once, paired with its count, and nothing else; there are as many items as keys |
| Ranking.Vocabulary | Lab1/main.py:119-121 | the distinct words of a token list: no word repeated, and a word is listed exactly when it occurs in the tokens |
| Ranking.FrequenciesItems | Lab1/main.py:119-126 | the reference item list has one entry per distinct word, with its number of occurrences, and no repeats |
| Ranking.RankSpec | Lab1/main.py:126 | the reference ranking is strictly sorted by `(-count, word)`; it lists every distinct word once, each with its number of occurrences |
| Ranking.SortedItems | Lab1/main.py:120-126 | sorting the items of any table that holds exactly the occurrence counts of `words` gives `Rank(words)`, whatever order the items came in |
| Ranking.RankTotal | Lab1/main.py:119-126 | count conservation: the counts in the ranking add up to the number of tokens |
| Ranking.InsertSum | Lab1/main.py:126 | inserting an entry raises the total count by that entry's count |
| Ranking.SortSum | Lab1/main.py:126 | sorting keeps the total count |
| Ranking.SumOccurrencesGrow | Lab1/main.py:119-121 | one more token raises the total over a list of distinct keys by one exactly when the token is one of the keys |
| Ranking.VocabularySum | Lab1/main.py:119-121 | the occurrence counts of the distinct words add up to the number of tokens |
| Report.FormatLine | Lab1/main.py:127 | definition: the line `f"{word}: {freq}"` without its newline |
| Report.Output | Lab1/main.py:125-127 | definition: the text written to `output.txt`, the header line and then one newline-terminated line per ranked entry |
| Report.NatToString | Lab1/main.py:127 | `str(freq)`: decimal digits only, non-empty, with no leading zero |
| Report.ParseNatToString | Lab1/main.py:127 | round trip: the printed count reads back as the same number |
| Report.FirstSpaceOfLine | Lab1/main.py:127 | in a `f"{word}: {freq}"` line the first space is the one right after the colon |
| Report.LineRoundTrip | Lab1/main.py:127 | a `f"{word}: {freq}"` line reads back as the same word and count: the first space is the one after the colon |
| Report.LineHasNoNewline | Lab1/main.py:127 | a formatted line contains no newline |
| Report.ReadLine | Lab1/main.py:127 | a newline-free line followed by a newline is read back as exactly that line |
| Report.LinesRead | Lab1/main.py:126-127 | the entry lines read back as one line per ranked entry, each the entry's formatted line |
| Report.OutputLines | Lab1/main.py:125-127 | `output.txt` reads back as the header line followed by the entry lines |
| Report.OutputRoundTrip | Lab1/main.py:125-127 | `output.txt` reads back as exactly `len(ranked) + 1` lines: the header, then one line per ranked entry that parses back to that entry |
| Pipeline.ScheduledSlotsStored | Lab1/main.py:106-120 | every worker of a storing order stores its table under one of the keys `result_dict.values()` reads |
| Pipeline.MergedCounts | Lab1/main.py:97-121 | whatever order the workers store their tables in, the sum of the stored tables' counts of a word is its number of occurrences in the token list |
| Pipeline.MergedTable | Lab1/main.py:119-121 | `final_count` holds exactly the words of the text, each with its number of occurrences |
| Pipeline.WordFrequency | Lab1/main.py:96-127 | a count of 0 fails with ZeroDivisionError; a negative count gives an empty ranking; a positive count gives `Rank(Split(text))` for every order in which the workers store their tables |

## Left out

- Reading the input file (`read_file`, lines 15-26) and writing `output.txt` (lines 124-127): both are file I/O. The model takes the text as a parameter. `Report.Output` gives the text that would be written.
- Processes and the shared-memory manager (`Process`, `Manager`, `start`, `join`, lines 99-116): they are replaced by running the workers one after the other in `schedule` order, which is the order of their writes to `result_dict`. Each worker's two writes (lines 62-63) are treated as one step, so interleavings between one worker's result write and its flag write are not modelled. The `show_progress` poll runs between those steps, and it reads only the flags.
- A worker that crashes. If it dies before setting its flag (line 63), `sum(progress_list)` never reaches `len(progress_list)`, and `show_progress` (lines 75-85) polls forever, so the run hangs. If it dies after that, in the `print` at line 64, its table and flag are already stored and nothing is lost. The model assumes every worker runs to completion.
- `show_progress` (lines 66-85): a polling loop with `time.sleep` and a `tqdm` bar. Only the value it polls, `sum(progress_list)`, is modelled, as `Workers.Completed`.
- The `print` diagnostics (lines 64 and 129) and the command-line parsing (lines 131-135).
- The internals of `Counter` and `sorted`. `Counter(segment)` is specified by its occurrence counts, and `sorted` is an insertion sort specified as a sorted permutation. Python's sort is stable, but the key is a strict total order on the items, so any correct sort gives the same list.
- Ranking.Items: does not fix the order of `final_count.items()`. A dict iterates in insertion order; the model allows any order and proves that the sorted result does not depend on it.
- Counting.Tally: the table is a `map`, so the order in which `Counter` first met each key is not kept. That order could only affect the item order that `Ranking.Items` already leaves open.
- Character decoding: the text is a sequence of Unicode scalar values, and UTF-8 decoding is not modelled. The whitespace set is the one CPython's `str.split()` uses, written out in `Tokenizer.IsSpace`.
- Segment counts: the code does not validate the count. A count of 0 raises `ZeroDivisionError` at line 40. A negative count makes `range(num_segments)` empty, so the run writes only the header and drops every token. The model follows the code.
