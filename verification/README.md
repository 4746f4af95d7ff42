# JPG H2V2 converter — verified model of the selection and batch layer

The converter is a small desktop tool. It re-encodes JPEG files in place with
4:2:0 (H2V2) chroma subsampling. The image work itself happens in a foreign
codec library. Around it sits a thin, pure layer, and this project models that
layer in Dafny and proves properties of it:

- **Path classifier** (`is_jpg`). A path is a JPEG path when its extension,
  lowercased, is `.jpg` or `.jpeg`. The extension is taken the way POSIX
  `os.path.splitext` takes it: the suffix from the last `.` of the final path
  component. Leading dots of that component never start an extension.
- **File-set selection.** `pick_files` keeps the JPEG paths among the picked
  ones, in picking order. `collect_jpgs_from_folder` joins each directory entry
  onto the folder and keeps the regular files that are JPEG paths. It then
  sorts them in Python string order. `pick_folder` uses the collector.
- **Batch runner** (`App.run_convert`). The run is refused when nothing is
  selected. It is also refused when the quality is not an integer in 1..100,
  and it stops when the overwrite is not confirmed. Otherwise every path is
  converted in order. Each outcome is tallied into `ok_count`, `fail_count` and
  the ordered `failed` list. A failure never stops the loop.
- **Summary.** The all-success message is shown when nothing failed. Otherwise
  the message lists the first 8 failures, plus a `... 외 k개` line when more
  failed.

Modules, one file each:

| file | module | models |
|---|---|---|
| `wrappers.dfy` | `Wrappers` | `Option`, used for the parsed quality entry |
| `seqs.dfy` | `Seqs` | order-preserving filter (a list comprehension with `if`), subsequences |
| `paths.dfy` | `Paths` | `str.rfind`, `os.path.splitext`, `basename`, `join`, `str.lower`, `is_jpg` |
| `lexicographic.dfy` | `Lexicographic` | Python `str` ordering and `list.sort()` on strings |
| `selection.dfy` | `Selection` | `pick_files`, `collect_jpgs_from_folder`, `pick_folder` |
| `decimal.dfy` | `Decimal` | rendering a count with an f-string |
| `lines.dfy` | `Lines` | `"\n".join` and `str.split("\n")` on message text |
| `batch.dfy` | `Batch` | `run_convert`: validation, the conversion loop, the tally, the summary |

Inputs that stand in for the outside world:

- The directory listing (`os.listdir`) is a sequence of entry names.
- The regular-file test (`os.path.isfile`) is a set of paths that are regular files.
- `convert_one`'s answer for the i-th path is the i-th element of a sequence of `Outcome(ok, msg)` values.
- The quality entry is an `Option<int>`. `None` means the text did not parse as an integer.
- The user's answer to the overwrite prompt is a boolean.

Three modelling choices:

- The run tallies a separate `fail_count` next to `ok_count` and the `failed` list, and the model keeps all three.
- Failure messages stay plain strings, as `convert_one` returns them.
- The run asks for confirmation before it overwrites anything, and the model takes that answer as an input.

## Model

| member | source | states |
|---|---|---|
| Paths.RFind | converter.py:13 | the index found is the last occurrence of the character, or -1 when it does not occur |
| Paths.Extension | converter.py:13 | the extension is a suffix of the path and, when non-empty, starts with a dot |
| Paths.ExtensionCharacterized | converter.py:13 | the splitext extension is non-empty exactly when some dot has no dot or separator after it and a non-dot stem character before it in the same component, and then it is the suffix from that dot |
| Paths.ExtensionOfBasename | converter.py:13 | the extension depends only on the final path component |
| Paths.Basename | converter.py:156 | the basename is a suffix of the path |
| Paths.BasenameIsFinalComponent | converter.py:156 | the basename is a suffix holding no separator that starts the path or follows a separator |
| Paths.Join | converter.py:53 | joining gives the name alone when it is absolute; otherwise the folder, then a separator added exactly when the folder is non-empty and does not already end in one, then the name |
| Paths.JoinBasename | converter.py:53 | a directory entry joined onto its folder has the entry name as its basename |
| Paths.IsJpgOfJoin | converter.py:53-54 | a joined directory entry is a JPEG path exactly when the entry name is |
| Paths.Lower | converter.py:13 | lowercasing keeps the length |
| Paths.IsJpg | converter.py:12-14 | a path is classified as JPEG only when its extension has four or five characters |
| Paths.ExtensionOfLower | converter.py:13 | lowercasing a path lowercases its extension and moves no split point |
| Paths.IsJpgOfLower | converter.py:12-14 | a path and its lowercase form get the same classification |
| Paths.IsJpgCaseInsensitive | converter.py:12-14 | two paths equal up to letter case get the same classification |
| Paths.LowerJpegSpellings | converter.py:14 | `.jpg`, `.JPG`, `.jpeg` and `.JPEG` lowercase to the two accepted extensions |
| Paths.IsJpgAcceptsJpegNames | converter.py:12-14 | `a.jpg`, `a.jpeg`, `a.JPG` and `a.JPEG` are JPEG paths |
| Paths.IsJpgAcceptsHiddenWithStem | converter.py:12-14 | `dir/.x.Jpg` is a JPEG path: a hidden name with a stem after its leading dot has an extension |
| Paths.IsJpgRejectsOtherExtension | converter.py:12-14 | `a.png` and `a.jpg.txt` are rejected: only the last extension counts |
| Paths.IsJpgRejectsNoExtension | converter.py:12-14 | `a`, `.jpg`, `..jpg` and `dir.jpg/x` have no extension and are rejected |
| Lexicographic.StrLeTotal | converter.py:56 | any two paths are comparable in string order |
| Lexicographic.StrLeAntisymmetric | converter.py:56 | two paths each at most the other are equal |
| Lexicographic.StrLeTransitive | converter.py:56 | string order is transitive |
| Lexicographic.StrLe | converter.py:56 | a prefix of a string sorts at or before it |
| Lexicographic.Sort | converter.py:56 | the sorted list is ascending and a permutation of its input |
| Lexicographic.SortedUnique | converter.py:56 | two ascending arrangements of the same paths are equal |
| Lexicographic.SortIsTheSortedPermutation | converter.py:56 | any ascending permutation of the input is exactly what the sort returns |
| Seqs.Filter | converter.py:103 | a comprehension with a test returns no more elements than it was given, all of them passing the test |
| Seqs.FilterCounts | converter.py:103 | the comprehension keeps every occurrence of a passing element and nothing else |
| Seqs.FilterIsSubsequence | converter.py:103 | the comprehension keeps its elements in input order |
| Selection.FilterJpg | converter.py:103 | the picked selection holds only JPEG paths, keeps every occurrence of each picked JPEG path, and is an in-order subsequence of the picked paths |
| Seqs.FilterIdempotent | converter.py:103 | filtering an already filtered selection changes nothing |
| Seqs.FilterKeepsAll | converter.py:103 | a list whose elements all pass the test is kept whole and in order |
| Seqs.FilterAppend | converter.py:103 | filtering a concatenation is concatenating the filtered parts, so picking two batches is picking them together |
| Selection.PickFiles | converter.py:101-103 | a cancelled dialog keeps the current selection; otherwise the selection is an in-order subsequence of the picked paths that holds each picked JPEG path as often as it was picked and nothing else |
| Selection.JpgEntries | converter.py:51-55 | the collected entries are no more than the listing's names and each is a regular file with a JPEG path |
| Selection.JpgEntriesMembers | converter.py:51-55 | a path is collected exactly when it is a joined listing entry that is a regular file and a JPEG path |
| Selection.ArrangedEntries | converter.py:51-56 | any rearrangement of the collected entries holds only JPEG paths, and exactly the listed regular JPEG files |
| Selection.CollectJpgsFromFolder | converter.py:50-57 | the result is sorted ascending, is a permutation of the listed regular JPEG files, and holds exactly those paths |
| Selection.PickFolder | converter.py:106-111 | a cancelled folder dialog keeps the current selection; otherwise the selection is the folder's JPEG files, sorted |
| Decimal.NatToString | converter.py:158 | a count renders as a non-empty string of digits without a leading zero |
| Decimal.NatToStringRoundTrip | converter.py:158 | reading the rendered digits back gives the count |
| Decimal.NatToStringInjective | converter.py:158 | different counts render differently |
| Batch.ValidateQuality | converter.py:124-130 | the quality is accepted exactly when it parsed as an integer in 1..100, and it is passed on unchanged |
| Batch.QualityBoundaries | converter.py:124-130 | 0, 101 and unparsable text are refused; 1 and 100 are accepted |
| Batch.CountOk | converter.py:147-148 | the success count is at most the number of attempts |
| Batch.CountOkExtremes | converter.py:147-148 | the success count equals the number of attempts exactly when all succeeded, and is zero exactly when all failed |
| Batch.FailuresOf | converter.py:147-151 | the failure list has one entry per unsuccessful outcome |
| Batch.TallyStep | converter.py:147-151 | one more attempt adds one success or appends one failure, never both |
| Batch.FailuresInInputOrder | converter.py:142-151 | the failure list is an in-order subsequence of the attempts |
| Batch.FailuresAreFailedSteps | converter.py:142-151 | the failure list is exactly the failing attempts, filtered out of all attempts in input order and recorded as path and message |
| Batch.FailingAttemptListed | converter.py:149-151 | every failing path is in the failure list together with its message |
| Batch.ListedFailureFailed | converter.py:149-151 | every entry of the failure list is the path and message of a failing attempt |
| Batch.NoFailuresIffAllOk | converter.py:147-153 | the failure list is empty exactly when every outcome succeeded |
| Batch.ConvertAll | converter.py:137-151 | every path is attempted in order with the validated options; progress runs 1..total; ok plus fail equals total; the failure list has fail entries and holds the failing pairs in order |
| Batch.StatusLine | converter.py:143 | the status text has the length of its parts, starts with `변환 중... (` and ends with the file's basename |
| Batch.StatusLineRoundTrip | converter.py:143 | the status text reads back as exactly the 1-based index, the total and the basename it was built from |
| Batch.FailureLine | converter.py:156 | a failure line is `- `, the file's basename, `: ` and the message, and nothing else |
| Batch.OverflowLine | converter.py:158 | the overflow line starts with `... 외 `, ends with `개` and has the count in between |
| Batch.PreviewLines | converter.py:156-158 | the preview lists the first min(8, n) failures in order, with one more line for the n-8 left out exactly when n > 8 |
| Batch.OverflowLineRoundTrip | converter.py:157-158 | the overflow line reads back as the number of failures left out |
| Batch.FailureLineIsNotOverflow | converter.py:156 | a failure line, taken as one line, never reads as an overflow line, whatever the path and message |
| Batch.PreviewReportsEveryFailure | converter.py:156-158 | the listed lines plus the overflow count add up to the full number of failures |
| Lines.JoinLines | converter.py:156-158 | the joined text starts with the first line, with a newline right after it when more lines follow; no lines join to the empty text |
| Lines.SplitLines | converter.py:156-158 | splitting gives one more piece than there are newlines, and no piece holds a newline |
| Lines.SplitJoinLines | converter.py:156-158 | splitting the newline-joined text of lines that hold no newline gives those lines back |
| Lines.SplitLineWithNewline | converter.py:156 | a line holding a newline shows as two lines once joined |
| Batch.FailureLineIsSingleLine | converter.py:156 | a failure line holds no newline when the basename and the message hold none |
| Batch.OverflowLineIsSingleLine | converter.py:158 | the overflow line never holds a newline |
| Batch.PreviewText | converter.py:156-158 | the preview text is empty exactly when nothing failed, and otherwise starts with the first failure line's `- `; PreviewTextShowsLines splits it back into the preview lines |
| Batch.PreviewTextShowsLines | converter.py:156-158 | when no basename or message holds a newline, the preview text splits back into exactly the preview lines, and counting them with the overflow number gives every failure |
| Batch.Summarize | converter.py:153-159 | the all-success report is chosen exactly when the fail count is zero, both reports carry the two counts, and the partial-failure report carries the newline-joined preview |
| Batch.RunConvert | converter.py:119-159 | an empty selection, an invalid quality or a declined prompt ends the run with nothing converted, checked in that order; otherwise every path is converted in order with the validated quality, with a progress record at the same index holding the 1-based index, the total and the path; the success count is the number of successful outcomes, the failure list is the failing pairs in order, the report is the summary of that tally, and the all-success report is shown exactly when every outcome succeeded |

## Left out

- The body of `convert_one` (converter.py:16-48) is left out. That covers the codec decode with truncation tolerance, the RGBA/LA/P to RGB conversion, the JPEG encode with 4:2:0 subsampling, optimisation and 300 dpi, and the atomic `os.replace`. These are foreign-library and filesystem effects, so each call is an oracle outcome.
- Temp-file cleanup and the `"<ExceptionType>: <text>"` message formatting (converter.py:41-48) are left out. The message is part of the oracle outcome.
- `os.listdir` and `os.path.isfile` (converter.py:52-54) are inputs. An unreadable folder makes `os.listdir` raise, and that error path is not modelled.
- The parse of the quality entry (converter.py:125) is left out. `IntVar.get` also truncates decimal text such as `3.7` to an integer, and that truncation is not modelled. The model starts from the parsed value or `None`.
- The tkinter shell is left out: the window layout and `__init__` (converter.py:59-94), the list refresh (104, 111 and 113-117), the message boxes with their titles and texts (121, 129, 154 and 159), setting the status variable and `update_idletasks` (143-144; the status text itself is rendered by `Batch.StatusLine`), the status reset (161) and the main entry point (163-167).
- The dialog answers are inputs: the picked files (97-100), the picked folder (107) and the overwrite confirmation (134).
- Batch.ConvertAll: a progress record carries the path, not its basename. `Batch.StatusLine` renders the status text from a record, with the basename.
- Paths.Lower: lowercases ASCII letters only, where Python lowercases all of Unicode. The classifier's answer is the same either way: no other code point lowercases to `.`, `j`, `p`, `e` or `g`.
- Batch.RunConvert: requires one outcome per selected path. The outcome sequence stands for `convert_one`, so this is a condition on the oracle and not on callers of `run_convert`.
- Batch.PreviewLines: the preview is a list of lines, and `Batch.PreviewText` joins them with newlines as the message box shows them. A file name or message that holds a newline shows as extra lines on screen. One such line can even read as an overflow line, for example a message ending in `\n... 외 5개`. So the on-screen count is promised only under `Batch.PreviewTextShowsLines`'s no-newline condition.
- Paths.IsJpg: its own contract only bounds the extension's length. The exact classification is stated by `Paths.ExtensionCharacterized`, `Paths.IsJpgOfLower` and the example lemmas.
- Paths.Extension: its own contract gives the suffix and leading-dot shape only. Which dot starts the extension is stated by `Paths.ExtensionCharacterized`.
- Paths.Basename: its own contract gives the suffix only. The absence of separators and the split point are stated by `Paths.BasenameIsFinalComponent`.
- Batch.Summarize: the full message-box text around the preview (titles and the count lines) is not rendered; the report carries the counts and the preview text.
- Paths: a path is a sequence of Unicode scalar values. On POSIX, Python decodes undecodable bytes of a file name as lone surrogates U+DC80 to U+DCFF (PEP 383), which such a sequence cannot hold, so those names are outside the model. No surrogate is `.`, `/` or a letter of `jpg`/`jpeg`, and none has a lowercase form, so the classification of such a name would be the same.
- Lexicographic.StrLe: its own contract states only that a prefix sorts first. Its totality, antisymmetry and transitivity are stated by `Lexicographic.StrLeTotal`, `Lexicographic.StrLeAntisymmetric` and `Lexicographic.StrLeTransitive`. The comparison at the first differing code point is stated nowhere else.
