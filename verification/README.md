# cucumber-table-optimizer: the table splitter in Dafny

The optimizer walks a directory tree of Cucumber `.feature` files. For each
file that holds an `Examples:` table, it writes one file per table row. Each
such file holds the scenario text before the table, the table header and
that single row. A file without a table is copied unchanged.

This project models the two pieces of that tool that carry logic:

- `CucumberProcessor` (`cucumber_processor.dfy`) is the per-file splitting
  pass of `CucumberProcessor.processFile`, with its two line tests
  `isTableDefinition` and `isTableRow`. The file arrives as a sequence of
  lines and a file name. The pass is the method `ProcessFile`, a `while`
  loop over the lines with the source's variables (`scenario`,
  `foundTable`, `rowNumber`, `lineNumber`). Its result is an `Outcome`:
  - `CopyVerbatim` when the file has no table;
  - `Split(files)` with one `(name, lines)` pair per written file, in the
    order they are written;
  - `MissingHeader(k)` when the first `Examples:` line is the last line of
    the file, where the source reads past the end of its array and throws.

  `ProcessFile` is proved equal to the specification function `Process`.
  `Process` defines the result from the input lines: the preamble is
  `lines[..k + 2]`, where `k` is the index of the first marker. Every later
  line containing `|` gives one file, numbered from 1 across the whole file.
  The lemmas then state what the source promises of that result: when the
  file is copied, when processing fails, the shape of every generated file,
  a one-to-one and order-keeping match between row lines and generated
  files, and the output names.
- `FileUtil` (`file_util.dfy`) is the extension test `isCucumberFile`,
  built on `lastIndexOf` and `substring`. The lemma `IsCucumberFileIff`
  characterises it: a name passes when it is exactly `feature` or ends in
  `.feature`.
- `JavaStrings` (`java_strings.dfy`) holds the `java.lang.String` operations
  both rely on: `contains`, `lastIndexOf`, `replace` (all occurrences) and
  the decimal text of an `int`. Each is stated with Java's behaviour.

Behaviour of the code that the model keeps on purpose:

- The pass has only two states, before and after the first marker. After
  the header line, every line containing `|` becomes a file. A later
  `Examples:` line without `|` is skipped. The header line of a later table
  contains `|`, so it is written out as a row. Row numbers never reset.
- The header is simply the line after the marker, even when it is blank. It
  joins the preamble and is never tested as a row.
- `isTableDefinition` is a full-line match of `^.*(Examples:).*$`. Java's
  `.` does not match a line terminator. A line holding U+0085, U+2028
  or U+2029 is therefore not a marker, even when it contains `Examples:`
  (`TableDefinitionOnReadLine`).
- A file with a marker and a header but no row line after the header is
  neither copied nor split: nothing is written for it (`Split([])`).
- The output name replaces every `.feature` in the file name. A file named
  just `feature` passes the extension filter, but its name holds no
  `.feature`. All its rows are therefore written under the name `feature`
  (`BareFeatureNameRepeats`). In general the rows of a file get pairwise
  different names exactly when its name holds `.feature` somewhere
  (`SplitNamesDistinctIff`). A name such as `x.features.feature` has two
  replaced occurrences; the first one still tells the rows apart.
- The row counter is a Java `int`, and the model counts with unbounded
  integers. The two agree: the last row number is at most the line count
  minus 2 (`SplitFileCountBound`), and a Java array holds fewer than 2^31
  lines, so the increment never wraps.

`processFile` (src/nl/igorski/cto/utils/CucumberProcessor.java:81-133) does
not skip comment lines, replace tag lines, skip blank lines before the
header, or merge the header of a later `Examples:` block; neither does the
model.

## Model

| member | source | states |
|---|---|---|
| `CucumberProcessor.ProcessFile` | src/nl/igorski/cto/utils/CucumberProcessor.java:81-133 | the line loop's result equals `Process`: copy, header error, or one file per row line after the header, each a copy of the preamble plus that row |
| `CucumberProcessor.Process` | src/nl/igorski/cto/utils/CucumberProcessor.java:81-133 | the result of processing one file, defined from its lines; characterised by `CopyIffNoMarker`, `MissingHeaderIffMarkerLast`, `SplitFilesShape`, `EveryRowLineEmitted`, `EveryFileFromRowLine` and `RowOrderKept` |
| `CucumberProcessor.Scenarios` | src/nl/igorski/cto/utils/CucumberProcessor.java:116-124 | one file per row, numbered from 1: the preamble cloned with that row added, under the row's output name; as many files as rows |
| `CucumberProcessor.OutputName` | src/nl/igorski/cto/utils/CucumberProcessor.java:124 | every `.feature` of the name replaced by `_N.feature`; characterised by `OutputNameOfFeatureFile`, `OutputNamesDistinctIff` and `BareFeatureNameRepeats` |
| `CucumberProcessor.IsTableDefinition` | src/nl/igorski/cto/utils/CucumberProcessor.java:142-144 | the marker test; characterised by `TableDefinitionIsPatternMatch` and `TableDefinitionOnReadLine` |
| `CucumberProcessor.IsTableRow` | src/nl/igorski/cto/utils/CucumberProcessor.java:153-155 | the row test; characterised by `TableRowIff` |
| `CucumberProcessor.TableDefinitionIsPatternMatch` | src/nl/igorski/cto/utils/CucumberProcessor.java:142-144 | the marker test holds iff the line is prefix + `Examples:` + suffix with no line terminator in prefix or suffix, the meaning of `^.*(Examples:).*$` under `matches` |
| `CucumberProcessor.TableDefinitionOnReadLine` | src/nl/igorski/cto/utils/CucumberProcessor.java:142-144 | on a line without `\n`/`\r`, a line is a marker iff it contains `Examples:` and none of U+0085, U+2028, U+2029 |
| `CucumberProcessor.TableRowIff` | src/nl/igorski/cto/utils/CucumberProcessor.java:153-155 | a line is a table row iff it contains `\|` |
| `CucumberProcessor.FirstMarker` | src/nl/igorski/cto/utils/CucumberProcessor.java:97-104 | the first-marker index found, when there is one, is within the file |
| `CucumberProcessor.FirstMarkerIsFirst` | src/nl/igorski/cto/utils/CucumberProcessor.java:97-104 | the found index is a marker with no marker before it; no index means no line is a marker |
| `CucumberProcessor.FirstMarkerAt` | src/nl/igorski/cto/utils/CucumberProcessor.java:97-104 | a marker with no marker before it is the one that switches the scan into table mode |
| `CucumberProcessor.Rows` | src/nl/igorski/cto/utils/CucumberProcessor.java:114 | the row lines picked from a stretch of lines are never more than its lines |
| `CucumberProcessor.RowsAt` | src/nl/igorski/cto/utils/CucumberProcessor.java:114-120 | a line with `\|` at index j is the entry numbered by the count of row lines before it |
| `CucumberProcessor.RowsFrom` | src/nl/igorski/cto/utils/CucumberProcessor.java:114-120 | every picked entry is a line with `\|` at an index whose preceding row-line count is the entry's position |
| `CucumberProcessor.RowsAreRowLines` | src/nl/igorski/cto/utils/CucumberProcessor.java:114 | every picked entry contains `\|` |
| `CucumberProcessor.RowsMonotone` | src/nl/igorski/cto/utils/CucumberProcessor.java:114-120 | a later row line has a strictly larger count of row lines before it |
| `CucumberProcessor.SplitFileCountBound` | src/nl/igorski/cto/utils/CucumberProcessor.java:93-120 | a split writes at most one file per line after the marker and header, so the number of files (and the last row number) is at most the line count minus 2 |
| `CucumberProcessor.CopyIffNoMarker` | src/nl/igorski/cto/utils/CucumberProcessor.java:93-132 | the file is copied verbatim iff no line is a marker (so an empty or unreadable file is copied) |
| `CucumberProcessor.MissingHeaderIffMarkerLast` | src/nl/igorski/cto/utils/CucumberProcessor.java:103-107 | processing fails iff the first marker is the last line, and the error names that line |
| `CucumberProcessor.SplitFilesShape` | src/nl/igorski/cto/utils/CucumberProcessor.java:101-118 | with marker k and a line after it, every generated file is `lines[..k + 2]` (marker and header, even blank) plus one line containing `\|` |
| `CucumberProcessor.EveryRowLineEmitted` | src/nl/igorski/cto/utils/CucumberProcessor.java:110-127 | every line with `\|` after the header yields file number n + 1 with exactly preamble + that line, where n counts the row lines before it; no reset at later markers |
| `CucumberProcessor.EveryFileFromRowLine` | src/nl/igorski/cto/utils/CucumberProcessor.java:110-127 | every generated file t comes from a line with `\|` after the header that has t row lines before it |
| `CucumberProcessor.RowCountsIncrease` | src/nl/igorski/cto/utils/CucumberProcessor.java:114-120 | of two lines after the header, the earlier one, when it holds `\|`, has fewer row lines before it |
| `CucumberProcessor.RowOrderKept` | src/nl/igorski/cto/utils/CucumberProcessor.java:93-127 | of two row lines i < j after the header, line i is written to a file of smaller index in the split than line j, each file being preamble + its line |
| `CucumberProcessor.NoOccurrenceInBase` | src/nl/igorski/cto/utils/CucumberProcessor.java:124 | in `base.feature`, with no `.feature` inside base, no occurrence of `.feature` starts inside base |
| `CucumberProcessor.OutputNameOfFeatureFile` | src/nl/igorski/cto/utils/CucumberProcessor.java:124 | when base holds no `.feature`, the name for row N of `base.feature` is `base_N.feature` |
| `CucumberProcessor.SuffixReplaced` | src/nl/igorski/cto/utils/CucumberProcessor.java:124 | replacing in `.feature` alone gives the replacement |
| `CucumberProcessor.OutputNamesDistinct` | src/nl/igorski/cto/utils/CucumberProcessor.java:120-124 | when base holds no `.feature`, different row numbers of `base.feature` give different output names |
| `CucumberProcessor.SplitNames` | src/nl/igorski/cto/utils/CucumberProcessor.java:120-124 | when base holds no `.feature`, file t of `base.feature` is named `base_(t+1).feature` and no two files share a name |
| `CucumberProcessor.OutputNamesDistinctWhenSuffixed` | src/nl/igorski/cto/utils/CucumberProcessor.java:120-124 | for any name holding `.feature` somewhere (`x.features.feature`, `a.feature.feature` included), different row numbers give different output names |
| `CucumberProcessor.OutputNamesDistinctIff` | src/nl/igorski/cto/utils/CucumberProcessor.java:120-124 | for two different row numbers the output names differ iff the file name holds `.feature`; otherwise both are the file name itself |
| `CucumberProcessor.SplitNamesDistinctIff` | src/nl/igorski/cto/utils/CucumberProcessor.java:114-127 | the files of a split have pairwise different names iff the file name holds `.feature` or fewer than two files are written |
| `CucumberProcessor.ReplacedAtHead` | src/nl/igorski/cto/utils/CucumberProcessor.java:124 | a name starting with `.feature` is renamed to `_` + the row number + `.feature` + the rest renamed (first character `_`, then the digits) |
| `CucumberProcessor.KeptAtHead` | src/nl/igorski/cto/utils/CucumberProcessor.java:124 | a name not starting with `.feature` keeps its first character unchanged, and the rest is renamed |
| `CucumberProcessor.DigitRunsEqual` | src/nl/igorski/cto/utils/CucumberProcessor.java:124 | two row-number texts each followed by `.` that begin the same string are the same text, so the number can be read back from a name |
| `CucumberProcessor.BareFeatureNameRepeats` | src/nl/igorski/cto/utils/CucumberProcessor.java:124 | for a file named `feature`, every row's output name is `feature` |
| `FileUtil.Extension` | src/nl/igorski/cto/utils/FileUtil.java:115-118 | the extension is the longest dot-free suffix of the name: preceded by `.` when shorter than the name, the whole name when there is no `.` |
| `FileUtil.IsCucumberFile` | src/nl/igorski/cto/utils/FileUtil.java:111-122 | the extension after the last dot equals `feature`; characterised by `IsCucumberFileIff` |
| `FileUtil.IsCucumberFileIff` | src/nl/igorski/cto/utils/FileUtil.java:111-122 | a name is accepted iff it is `feature` or ends in `.feature` |
| `FileUtil.AcceptedNameShape` | src/nl/igorski/cto/utils/FileUtil.java:115-121 | an accepted name is `feature` itself or ends in `.feature` |
| `FileUtil.DotFeatureAccepted` | src/nl/igorski/cto/utils/FileUtil.java:115-121 | any name ending in `.feature` is accepted, whatever dots come before |
| `FileUtil.BareFeatureNameAccepted` | src/nl/igorski/cto/utils/FileUtil.java:118 | `feature` (no dot, lastIndexOf -1) is accepted |
| `FileUtil.UpperCaseRejected` | src/nl/igorski/cto/utils/FileUtil.java:121 | `x.FEATURE` is rejected: the comparison is case-sensitive |
| `FileUtil.OnlyLastDotCounts` | src/nl/igorski/cto/utils/FileUtil.java:118-121 | `a.b.feature` is accepted, `a.feature.bak` and `a.` are rejected |
| `JavaStrings.ContainsIff` | src/nl/igorski/cto/utils/CucumberProcessor.java:154 | `contains` holds iff the needle occurs at some index |
| `JavaStrings.ContainsChar` | src/nl/igorski/cto/utils/CucumberProcessor.java:154 | containing a one-character string is membership of that character |
| `JavaStrings.LastIndexOf` | src/nl/igorski/cto/utils/FileUtil.java:118 | -1 only when the character is absent, otherwise an index holding it with none after it |
| `JavaStrings.ReplaceAll` | src/nl/igorski/cto/utils/CucumberProcessor.java:124 | a string without the target comes back unchanged |
| `JavaStrings.ReplaceAllSkipsPrefix` | src/nl/igorski/cto/utils/CucumberProcessor.java:124 | a prefix where no occurrence starts is kept, and replacement continues after it |
| `JavaStrings.Decimal` | src/nl/igorski/cto/utils/CucumberProcessor.java:124 | the text of a row number is non-empty, all digits, and has no leading zero unless it is 0 |
| `JavaStrings.DecimalRoundTrip` | src/nl/igorski/cto/utils/CucumberProcessor.java:124 | parsing the decimal text of n gives n back |
| `JavaStrings.DecimalInjective` | src/nl/igorski/cto/utils/CucumberProcessor.java:124 | different numbers have different decimal texts |

## Left out

- The directory walk (`CucumberProcessor.walk`, `recursiveRead`) and the building of output paths: filesystem listing and recursion. The model covers one file. `IsCucumberFile` is the filter the walk applies.
- File input and output (`FileUtil.getFileContentsAsArray`, `writeFile`, `copyFile`, `createFoldersForPath`): these are reads, writes, charsets and directory creation. A write becomes an entry of `Split`, and the copy becomes `CopyVerbatim`. A failed read gives zero lines in the source, which the model covers as the empty input (copied, by `CopyIffNoMarker`). A failed write is not modelled.
- `Main.main`: command-line checks, `System.exit` and console output.
- The exception at src/nl/igorski/cto/utils/CucumberProcessor.java:106 is modelled as the `MissingHeader` result. The model does not capture that the uncaught exception also ends the walk over the remaining files.
- Strings are sequences of Unicode scalar values, not UTF-16 code units. The tests used here (`contains`, `lastIndexOf`, `replace` and `equals` on ASCII needles) behave the same either way.
