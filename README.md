# Word document link listing, modelled in Dafny

The program lists the links of a Word (`.docx`) document in a report. It
reads two parts of the document package. From the relationships part it
takes every relationship whose `TargetMode` contains `External`, as an
`(Id, Target)` pair. From the main document part it takes the `w:anchor` of
every `w:hyperlink` and the `w:name` of every `w:bookmarkStart`, skipping
missing or empty values. It then builds one report row per item, in three
blocks: external links, internal anchors, bookmarks. Each row has five cells:
name, destination, status, page number and a "modified?" flag.
- An external link's status is `Külső hivatkozás` when its target starts with
  `http`, and `Belső hivatkozás` otherwise.
- An anchor row has destination `#anchor` and status `Belső hivatkozás`.
- A bookmark row has destination `#name` and status `Könyvjelző`.
- Every row has page `N/A` and flag `NEM`.

The model has five modules:
- `Results`: `Option` and `Result`.
- `Strings`: `startswith` and substring search, each proved equal to a direct
  definition.
- `Sequences`: the generic "append what passes" loop, defined as a function on
  the visited prefix, with the proof that it keeps exactly the passing items
  in input order.
- `Extraction`: the two filtering loops, as methods with loop invariants.
- `Report`: the status test, the three row-building loops as one method, and
  lemmas about the resulting report.

The parsed XML is taken as input. For the relationships part, the input is the
sequence of the root's children. For the document part, it is the elements in
the order ElementTree's `iter()` walks them, each reduced to a hyperlink with
its optional anchor, a bookmark start with its optional name, or another
element. A part absent from the archive is `None` and gives empty lists.

The code builds the rows and does nothing else to them. The page cell is always `N/A`
(main.py:106). The rows are not filtered by page, sorted or deduplicated
(main.py:99-126). An anchor row is written without looking the anchor up
among the bookmarks (main.py:110-117). Every external target that does not
start with `http` gets `Belső hivatkozás` (main.py:101).

The code also has an error path that the model keeps. The loop reads
`rel.attrib['Id']` and then `rel.attrib['Target']` on every external
relationship. If either attribute is missing, Python raises `KeyError`, and
the whole extraction ends without a result. The model returns
`Err(MissingId)` or `Err(MissingTarget)` for the first such relationship.

## Model

| member | source | states |
|---|---|---|
| `Strings.StartsWithIsPrefix` | main.py:101 | the character-by-character `startswith` holds exactly when the prefix is no longer than the string and equals its first characters |
| `Strings.ContainsIsFactor` | main.py:45 | the substring test `sub in s` holds exactly when `sub` occurs at some position of `s` |
| `Sequences.FilterMapSelects` | main.py:44-46 | the list an append-if loop builds consists of exactly the items that pass, in strictly increasing input position, each turned into what the loop appends |
| `Sequences.FilterMapMembership` | main.py:60-68 | a value is in the built list exactly when some input item yields it |
| `Sequences.FilterMapAppend` | main.py:119-126 | the generic fact that filtering a concatenation gives the concatenation of the filtered parts; it splits the report into its link blocks and its bookmark block |
| `Extraction.MissingKey` | main.py:46 | the reported missing key is `Id` exactly when `Id` is absent; `Target` is reported only when `Id` is present and `Target` absent |
| `Extraction.ExternalLinks` | main.py:39-46 | succeeds exactly when every relationship whose TargetMode (absent = `""`) contains `External` has Id and Target; the result is their `(Id, Target)` pairs in input order; otherwise it fails with the key missing on the first such relationship |
| `Extraction.ScanDocument` | main.py:49-68 | the internal links are the present, non-empty anchors of hyperlink elements, and the bookmarks the present, non-empty names of bookmark starts, both in document order; a string is in either list exactly when a matching element carries it |
| `Extraction.ExtractHyperlinksAndBookmarks` | main.py:35-70 | a missing part gives empty lists; the result is the three filtered lists; a missing Id or Target on an external relationship makes the whole extraction fail |
| `Extraction.ScanDocumentLength` | main.py:60-68 | no single element yields both an anchor and a bookmark name (the `if`/`elif`), so the two lists together are no longer than the element sequence |
| `Extraction.ExternalModeExamples` | main.py:45 | `External` and `NotExternal` are kept, an absent TargetMode and `external` (lower case) are not |
| `Report.LinkStatus` | main.py:101 | the status is `Külső hivatkozás` exactly when the target's first four characters are `http`, and `Belső hivatkozás` otherwise |
| `Report.StatusesDistinct` | main.py:101-123 | the three status labels are pairwise different |
| `Report.BuildRows` | main.py:99-126 | the row count is the sum of the three list lengths; first come the external rows (name = Id, destination = Target, status from the target), then the anchor rows (name, `#`+anchor, internal), then the bookmark rows (name, `#`+name, bookmark), each block in its list's order |
| `Report.ReportPlaceholders` | main.py:102-126 | every row of a report has page `N/A` and flag `NEM` |
| `Report.IsReportUnique` | main.py:99-126 | the report is fully determined by the three lists |
| `Report.BookmarksFromReport` | main.py:119-126 | the names of the rows with status `Könyvjelző`, in order, are exactly the bookmark list |
| `Report.ExternalStatusExactly` | main.py:100-117 | a row has status `Külső hivatkozás` exactly when it is an external-link row whose target starts with `http` |
| `Report.LinkStatusExamples` | main.py:101 | `https` targets are external; `HTTP`, `htt` and `file:` targets are internal (the prefix test is case-sensitive) |
| `Report.ListLinks` | main.py:96-126 | extraction followed by row building: it fails exactly when extraction raises, and otherwise returns the report of the three filtered lists |

## Left out

- File and folder dialogs (`select_folder`, `askopenfilename`) and the early exits when nothing is chosen: user interface.
- The logging setup, the timestamped log file and `log_message`: file I/O and wall-clock time.
- Opening the archive, the member-name checks and XML parsing: library calls. Their results are the model's inputs, and a missing member is `None`.
- The order in which ElementTree's `iter()` walks the element tree: the document elements are given already in that order.
- `save_csv`, the CSV header and writing the rows to a file: serialisation through the `csv` module.
- The unused imports `docxpy` and `re`.
- Exceptions other than the missing `Id`/`Target` key (an unreadable archive, malformed XML): they come from the libraries.
