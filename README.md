# show_missing_jobs, modelled in Dafny

`show_missing_jobs.py` reports the batch jobs whose input file has no matching output file. It globs the input files (`inbase*`) and the output files (`outbase*`). The job id of a file is the second '.'-separated piece of its basename, so `run/job.007.in` has id `007`. The script collects the input ids and the output ids as two sets and takes their difference. It lists the difference and sorts it in place as strings. Then it prints the result in one of two forms:

- **default mode:** one line `inbase.id` per missing id;
- **CSV mode (`--csv`):** one line holding the missing ids without their leading zeros, joined by ','.

Any matched file whose basename has no '.' aborts the whole run with an index error.

The model covers this computation, lines 15–25 of `main`:

- The two filename lists that the globs return are parameters.
- The lines the script would print are returned as a `seq<string>`.
- Failure is a `Result` whose only error is `MalformedName`. Python's IndexError names no file, so the error carries no payload either.

Files:

- `text.dfy` (module `Text`): POSIX basename, `str.split(sep)`, `sep.join`, `lstrip('0')`, and the lemmas that connect them.
- `order.dfy` (module `Order`): Python's `<=` on `str` (code-point lexicographic order) and its order laws.
- `sorting.dfy` (module `Sorting`): `difflist.sort()`, written as an in-place insertion sort on an `array<string>`. It is proved sorted and a permutation of its input. It is also proved equal to `SortedList`, a reference definition of the sorted list of a set, since there is only one sorted permutation.
- `missing_jobs.dfy` (module `MissingJobs`): the following functions, method and lemmas.
  - Job-id extraction, the id sets and their difference, the two output formats.
  - `ReportSpec`: the whole program as a value.
  - `Report`: the imperative program, which builds the list, sorts it in place and emits the lines in a loop. It is proved equal to `ReportSpec`.
  - The lemmas stating what the report means.
- `scenarios.dfy` (module `Scenarios`): worked runs on small listings.

## Model

| member | source | states |
|---|---|---|
| Text.Basename | examples/show_missing_jobs.py:17-18 | the basename is the longest suffix of the path without '/': it holds no '/' and, when shorter than the path, follows a '/' |
| Text.Split | examples/show_missing_jobs.py:17-18 | `split('.')` yields at least one piece, every piece is separator-free, a string without the separator splits to itself, and one with it splits into at least two pieces |
| Text.SplitPiecesWithin | examples/show_missing_jobs.py:17-18 | every character of a piece comes from the string split |
| Text.JoinSplit | examples/show_missing_jobs.py:17-18 | joining the pieces of a split with the separator gives the string back |
| Text.SplitJoin | examples/show_missing_jobs.py:22 | splitting the join of a non-empty list of separator-free pieces gives the pieces back |
| Text.SecondPiece | examples/show_missing_jobs.py:17-18 | in `pre.id` or `pre.id.rest` with `pre`, `id` separator-free, piece 1 is `id` |
| Text.JoinStartsWithFirst | examples/show_missing_jobs.py:17-18 | a join starts with its first piece, followed by the separator exactly when more pieces follow |
| Text.SecondPieceShape | examples/show_missing_jobs.py:17-18 | piece 1 of a string holding the separator sits right after the first separator and runs to the next separator or to the end |
| Text.BasenameAppend | examples/show_missing_jobs.py:17-18 | appending '/'-free text to a path appends it to the basename |
| Text.BasenameAfterSeparator | examples/show_missing_jobs.py:25 | the basename of `path.id`, for a '/'-free `id`, is the basename of `path` followed by `.id` |
| Text.Join | examples/show_missing_jobs.py:22 | `','.join(tokens)`; its meaning is stated by `Text.JoinSplit`, `Text.SplitJoin` and `Text.JoinStartsWithFirst` |
| Text.LStripZeros | examples/show_missing_jobs.py:22 | `lstrip('0')` returns a suffix of the id, removes only '0' characters, and leaves no leading '0' |
| Text.StripAllZeros | examples/show_missing_jobs.py:22 | an all-zero id strips to the empty token |
| Order.LessEq | examples/show_missing_jobs.py:20 | Python's `<=` on str: the empty string first, then by first code point, then by the rest; its laws are the four `Order.LessEq…` lemmas below and `Order.StringOrderIsNotNumeric` |
| Order.LessEqReflexive | examples/show_missing_jobs.py:20 | string `<=` is reflexive |
| Order.LessEqAntisymmetric | examples/show_missing_jobs.py:20 | string `<=` is antisymmetric |
| Order.LessEqTransitive | examples/show_missing_jobs.py:20 | string `<=` is transitive |
| Order.LessEqTotal | examples/show_missing_jobs.py:20 | string `<=` is total, so the sort order is well defined |
| Order.StringOrderIsNotNumeric | examples/show_missing_jobs.py:20 | ids compare as strings: "10" sorts before "9", and "010" before "9" |
| Order.AdjacentSortedIsSorted | examples/show_missing_jobs.py:20 | a list whose neighbours are in order is ascending |
| Sorting.SortIds | examples/show_missing_jobs.py:20 | `difflist.sort()` leaves the array ascending and a permutation of what it held |
| Sorting.InsertLeft | examples/show_missing_jobs.py:20 | one insertion step grows the ascending prefix a[..i+1] by one element, keeps the prefix's elements, and leaves a[i+1..] unchanged |
| Sorting.SwapDown | examples/show_missing_jobs.py:20 | one swap of an out-of-order pair moves the gap of the insertion step one place left and keeps the elements |
| Sorting.SwapStaysInPrefix | examples/show_missing_jobs.py:20 | a swap inside the prefix keeps the prefix's elements and leaves the rest of the array alone |
| Sorting.SwapKeepsOrder | examples/show_missing_jobs.py:20 | the same step, as a fact about sequences |
| Sorting.LeastOf | examples/show_missing_jobs.py:20 | a non-empty set of strings has a least element |
| Sorting.PrependLeast | examples/show_missing_jobs.py:20 | the least element followed by a sorted list of the rest is a sorted list of the set |
| Sorting.SortedList | examples/show_missing_jobs.py:19-20 | the reference sorted list of a set is ascending and has exactly the set's elements |
| Sorting.HeadIsLeast | examples/show_missing_jobs.py:20 | the head of an ascending list is below each of its elements |
| Sorting.SameHead | examples/show_missing_jobs.py:20 | two ascending lists with the same elements start with the same element |
| Sorting.SortedTail | examples/show_missing_jobs.py:20 | the tail of an ascending list is ascending |
| Sorting.SortedUnique | examples/show_missing_jobs.py:20 | two ascending lists with the same elements are equal, so sorting has one possible result whatever order `list(set)` gave |
| Sorting.SeqOfSet | examples/show_missing_jobs.py:19 | a list with the elements of a set holds each exactly once and has the set's size |
| Sorting.SortedListIsSet | examples/show_missing_jobs.py:19-20 | the sorted list of a set has no duplicates, exactly its members, and its size |
| MissingJobs.ExtractId | examples/show_missing_jobs.py:17-18 | the job id fails exactly when the basename has no '.', and a job id holds no '.' |
| MissingJobs.ExtractIdHasNoSlash | examples/show_missing_jobs.py:17-18 | a job id holds no '/' |
| MissingJobs.ExtractIdOfShape | examples/show_missing_jobs.py:17-18 | a basename `pre.id` or `pre.id.rest` with '.'-free `pre` and `id` has job id `id` |
| MissingJobs.ExtractIdShape | examples/show_missing_jobs.py:17-18 | conversely, a job id is the text between the first '.' of the basename and the next '.' or the end |
| MissingJobs.IdSet | examples/show_missing_jobs.py:17-18 | the set comprehension over one name list, failing at the first malformed name; its meaning is stated by `MissingJobs.IdSetMeaning` |
| MissingJobs.MissingSet | examples/show_missing_jobs.py:17-19 | `inset - outset`, the input ids first; its meaning is stated by `MissingJobs.MissingIdsExact` and `MissingJobs.ReportFailsIff` |
| MissingJobs.IdSetMeaning | examples/show_missing_jobs.py:17-18 | the id set fails exactly when some name fails, and otherwise holds exactly the ids of the names |
| MissingJobs.MissingIds | examples/show_missing_jobs.py:17-20 | the sorted `difflist` as a value; `MissingJobs.MissingIdsExact` states it is exactly the missing ids, ascending and each once |
| MissingJobs.DefaultLines | examples/show_missing_jobs.py:24-25 | the lines `'{}.{}'.format(inbase, id)`; stated by `MissingJobs.EmitLines`, `MissingJobs.DefaultModeLines` and `MissingJobs.ReconstructedNameId` |
| MissingJobs.CsvTokens | examples/show_missing_jobs.py:22 | the tokens `i.lstrip('0')`, one per id; stated by `MissingJobs.CsvModeLine` and `Text.LStripZeros` |
| MissingJobs.CsvLine | examples/show_missing_jobs.py:22 | the tokens joined by ','; stated by `MissingJobs.CsvModeLine` and `MissingJobs.CsvLineSplits` |
| MissingJobs.Render | examples/show_missing_jobs.py:21-25 | the CSV line or the default lines, as `--csv` selects; stated by `MissingJobs.CsvModeLine` and `MissingJobs.DefaultModeLines` |
| MissingJobs.ReportSpec | examples/show_missing_jobs.py:17-25 | the whole output or the abort; stated by `MissingJobs.ReportFailsIff`, `MissingJobs.MissingIdsExact`, `MissingJobs.ReportDependsOnlyOnNameSets`, `MissingJobs.DefaultModeLines` and `MissingJobs.CsvModeLine` |
| MissingJobs.ListOfSet | examples/show_missing_jobs.py:19 | `list(s)` holds each element of the set once, in some order |
| MissingJobs.EmitLines | examples/show_missing_jobs.py:24-25 | the default-mode loop emits one line `inbase.id` per id, in order |
| MissingJobs.SortedIdList | examples/show_missing_jobs.py:19-20 | listing a set and sorting the list in place gives its reference sorted list |
| MissingJobs.Report | examples/show_missing_jobs.py:15-25 | the imperative program returns exactly `ReportSpec`: the error, or the lines printed |
| MissingJobs.ReportFailsIff | examples/show_missing_jobs.py:17-18 | the run aborts exactly when some input or output name has a basename without '.'; malformed names are never skipped |
| MissingJobs.MissingIdsExact | examples/show_missing_jobs.py:17-20 | soundness and completeness: an id is reported iff it is the id of some input name and of no output name; the list is ascending and repeats no id |
| MissingJobs.MissingIdsPlain | examples/show_missing_jobs.py:17-19 | every reported id holds no '.' and no '/' |
| MissingJobs.IdSetOfSameNames | examples/show_missing_jobs.py:17-18 | two name lists holding the same names have the same id set or fail alike |
| MissingJobs.ReportDependsOnlyOnNameSets | examples/show_missing_jobs.py:17-20 | reordering or repeating names in either list does not change the output or the failure |
| MissingJobs.ReconstructedNameId | examples/show_missing_jobs.py:25 | a printed name `inbase.id` has job id `id` again when the basename of `inbase` has no '.' |
| MissingJobs.DefaultModeLines | examples/show_missing_jobs.py:24-25 | default mode prints one line `inbase.id` per missing id, in sorted order, and none when nothing is missing; each line extracts back to its id when the basename of `inbase` has no '.' |
| MissingJobs.CsvLineSplits | examples/show_missing_jobs.py:22 | the CSV line splits on ',' back into the tokens when there is an id and no id holds ',' |
| MissingJobs.CsvModeLine | examples/show_missing_jobs.py:21-22 | CSV mode prints one line: the sorted ids without leading '0's joined by ',', one token per id, the empty line when nothing is missing |
| Scenarios.JobId | examples/show_missing_jobs.py:17-18 | `job.<id>` and `job.<id>.<rest>` have job id `id` |
| Scenarios.OneJobMissing | examples/show_missing_jobs.py:15-25 | inputs 001, 002, 003 and outputs 001, 003 print `job.002`, or `2` in CSV mode |
| Scenarios.IdOfInput002 | examples/show_missing_jobs.py:17 | the filename `job.002.in` has job id `002` (likewise `IdOfInput001`, `IdOfInput003`, `IdOfOutput001`, `IdOfOutput003`) |
| Scenarios.OneJobMissingByName | examples/show_missing_jobs.py:15-25 | on the literal filenames job.001.in, job.002.in, job.003.in and job.001.out, job.003.out, default mode prints `job.002` and CSV mode `2` |
| Scenarios.NothingMissing | examples/show_missing_jobs.py:15-25 | when every input has an output, nothing is printed in default mode and an empty line in CSV mode; extra outputs are ignored |
| Scenarios.NameWithoutDotFails | examples/show_missing_jobs.py:17 | an input whose name holds no '.' (such as `job` or `dir/job`) aborts the run whatever the outputs |
| Scenarios.SortedNineTen | examples/show_missing_jobs.py:20 | the ids 9 and 10 sort to "10", "9" |
| Scenarios.TenBeforeNine | examples/show_missing_jobs.py:15-25 | inputs 9 and 10 with no outputs print `job.10` before `job.9` |

## Left out

- The argparse command line (show_missing_jobs.py lines 9–13). `inbase` and `csv_wanted` are parameters. `outbase` is used only by the glob, so it does not appear.
- The `glob.glob` enumeration (lines 15–16) is filesystem I/O. The matched names are the parameters `inNames` and `outNames`, and glob's prefix matching is not modelled.
- Writes to stdout (lines 22 and 25): the lines are returned instead.
- The bare `print` at line 26 is not modelled. It prints an empty line under Python 2 and does nothing under Python 3.
- `sys.exit` and the return code 0 (lines 28, 31) are process plumbing and are not modelled.
- `os.path.basename` is modelled with POSIX '/' separators only; Windows '\\' separators are not modelled.
- Strings are sequences of Dafny `char`s, which are Unicode scalar values compared by code point. Python 2 byte strings compare by byte, which gives the same order on ASCII names. Python 3 decodes filename bytes that are not valid in the filesystem encoding into lone surrogates U+DC80–U+DCFF. A Dafny `char` cannot hold a surrogate, so such names, and where they sort, are not represented.
- MissingJobs.CsvLineSplits: the CSV split round trip is stated only for a non-empty id list whose ids hold no ','. A ',' inside a filename would make the printed line ambiguous, and the source does nothing about it.
- Scenarios.NothingMissing: like `Scenarios.TenBeforeNine`, it takes its names through their job ids (`ExtractId(n) == Ok("010")`) rather than as literal filenames. `Scenarios.JobId` shows that names such as `job.010.in` have those ids, and `Scenarios.OneJobMissingByName` carries that step out on literal filenames for the first example.
