# MarkItDownGUI drop area, modelled in Dafny

MarkItDownGUI is a small desktop window. The user drops PDF, Word (`.docx`)
and PowerPoint (`.pptx`) files on it, and each file is turned into Markdown by
the MarkItDown library. The Markdown is written next to the original as a
`.md` file. This project models the window's drop area (`DropArea` in
`main.py`) and proves what it does:

- **Drag-enter** (`dragEnterEvent`): the drag is accepted at the first URL whose
  lower-cased path ends with `.pdf`, `.docx` or `.pptx`, and ignored otherwise.
- **Drop** (`dropEvent`): the dropped paths are filtered to those same
  extensions, in order. Each one is then converted. A failure is recorded in
  the `failed` list and the loop goes on; a success goes in the `successful`
  list. The drop is accepted when at least one file qualified.
- **Conversion** (`_convert_file`): the output path is `with_suffix(".md")` of
  the input. The input is stat-ed, which raises when it is missing. The
  converter is called, its text is written to the output path, and that path
  is returned.

Files and modules:

| file | module | what it holds |
|---|---|---|
| `wrappers.dfy` | `Wrappers` | `Option` and `Result` |
| `text.dfy` | `Text` | ASCII `str.lower`, `str.endswith`, `str.rfind` |
| `paths.dfy` | `PurePaths` | pathlib's `name`, `suffix`, `stem` and `with_suffix` on POSIX paths |
| `extensions.dfy` | `Extensions` | the accepted extensions, the drag and drop tests, the filter, and where the output of an accepted file goes |
| `filesystem.dfy` | `FileSystems` | the filesystem as a class whose `files` map the methods update: `stat`, write, `exists` |
| `conversion.dfy` | `Conversion` | `_convert_file` as a method on the filesystem, and its specification `Convert` |
| `droparea.dfy` | `DropArea` | `dragEnterEvent` and `dropEvent` as methods with loops, and their specifications |
| `drop_properties.dfy` | `DropProperties` | what a whole drop guarantees |
| `scenarios.dfy` | `Scenarios` | concrete drags and drops |

Each method is proved against a function that specifies it:

- `ConvertFile` against `Convert`.
- `DropEvent` against `Drop`, which runs `RunBatch` over the filtered paths.
- `CollectFilesToConvert` against `Filter`.
- `DragEnter` against `DragAccepts`.

Two consequences of the source are proved as examples:

- A dropped file named exactly `.pdf` is accepted. Since pathlib sees no suffix in it, it is converted to `.pdf.md` (`Scenarios.DotfileExample`).
- `a.pdf` and `a.docx` in one drop both write `a.md`, and when both convert, the later one overwrites the earlier one (`Scenarios.SiblingsShareOutput`, `DropProperties.BatchLastWriteWins`).

The lemmas state the properties of those functions. The MarkItDown
converter is a parameter: a function from a path and the file's content to
either Markdown text or the message of the exception it raised.

## Model

| member | source | states |
|---|---|---|
| Text.Lower | main.py:65 | `str.lower` on ASCII: same length, no upper-case letter left, every other character kept, and each upper-case letter turned into the same letter in lower case |
| Text.LowerCharKeepsPunctuation | main.py:65 | lower-casing neither creates nor removes a `.` or a `/`, so it never moves an extension or directory boundary |
| Text.LowerIdempotent | main.py:65 | lower-casing twice is lower-casing once |
| Text.EndsWithIffConcat | main.py:65 | `endswith(suffix)` holds exactly when the string is some prefix followed by the suffix |
| Text.RFind | main.py:101 | the index `rfind` returns is -1 or a position holding that character |
| Text.RFindIsLast | main.py:101 | no occurrence of the character follows the index `rfind` returns, so -1 means there is none |
| PurePaths.DirectoryAndName | main.py:100-101 | a path is its directory part followed by its final component; the component holds no separator and the directory part is empty or ends in one |
| PurePaths.NameHasNoSeparator | main.py:101 | the final component holds no separator |
| PurePaths.SplitJoin | main.py:100-101 | splitting a directory joined to a separator-free name gives back that directory and that name |
| PurePaths.Suffix | main.py:101 | pathlib's suffix is empty or shorter than the name it comes from |
| PurePaths.SuffixShape | main.py:101 | there is no suffix exactly when the name has no dot or its last dot leads or ends it (no dot at all gives none); otherwise the suffix is a dot and at least one more character, ends the name, is shorter than it, and holds no further dot |
| PurePaths.WithMdSuffixParts | main.py:101 | `with_suffix(".md")` fails exactly on an empty final component; otherwise it keeps the directory, makes the name the stem followed by `.md`, and the result ends in `.md` |
| PurePaths.NewNameHasNoSeparator | main.py:101 | the new name the `.md` suffix produces holds no separator |
| PurePaths.SuffixFromLastDot | main.py:101 | when the last dot of a name starts its final k characters, with k at least 2, the suffix is those characters, unless the dot opens the name |
| PurePaths.WithMdSuffixReplacesTail | main.py:101 | a suffix of k characters is cut off the path and replaced by `.md` |
| PurePaths.WithMdSuffixAppends | main.py:101 | a non-empty name without a suffix gets `.md` appended |
| PurePaths.WithMdSuffixAtLastDot | main.py:101 | `with_suffix(".md")` replaces the tail that starts at the name's last dot, or appends when that dot opens the name |
| Extensions.AnyIffEndsWithOneOf | main.py:65-79 | the drag's `any(... endswith(ext))` and the drop's `endswith((...))` with a tuple agree on every string and every extension list |
| Extensions.QualifiesIffConvertible | main.py:62-79 | a path passes the drag test exactly when it passes the drop test |
| Extensions.Filter | main.py:76-80 | `files_to_convert` is no longer than the payload and holds only accepted paths |
| Extensions.FilterConcat | main.py:77-80 | filtering a concatenation filters each part, so payload order is kept |
| Extensions.FilterCounts | main.py:77-80 | each accepted path is kept as many times as it was dropped, and each other path is dropped |
| Extensions.FilterMembership | main.py:77-80 | a path is in `files_to_convert` exactly when it was dropped and is accepted |
| Extensions.FilterEmptyIff | main.py:84 | `files_to_convert` is empty exactly when no dropped path is accepted |
| Extensions.FilterIdempotent | main.py:77-80 | filtering the filtered list changes nothing |
| Extensions.ValidExtensionsArePlain | main.py:62 | each accepted extension is a dot followed by at least one character, none of them a dot or a separator |
| Extensions.ValidExtensionsAreLowerCase | main.py:62 | each accepted extension is already lower case, so lower-casing it changes nothing |
| Extensions.ExtensionCharacters | main.py:65-101 | a path whose lower-cased form ends with an accepted extension has a dot where the extension begins, and no later dot or separator |
| Extensions.ExtensionEndsName | main.py:79-101 | that extension lies inside the final component and begins at its last dot |
| Extensions.NameKeepsTail | main.py:101 | a separator-free tail of a path is also the tail of its final component |
| Extensions.ConvertibleOutputPath | main.py:79-101 | an accepted path's output is the path with its matched extension replaced by `.md`, or with `.md` appended when the whole name is the extension |
| Extensions.ConvertibleIsNotMd | main.py:79 | no accepted path ends in `.md` |
| Extensions.AcceptedEndsInFOrX | main.py:62-79 | a lower-cased path that ends with an accepted extension ends in `f` or `x`, never in the `d` of `.md` |
| Extensions.OutputDiffersFromInput | main.py:101 | an accepted path always has an output path, and it is never the input itself |
| Extensions.DroppedFileOutput | main.py:79-101 | `dir/stem.EXT`, with EXT any case of an accepted extension and a non-empty stem, is accepted and converts to `dir/stem.md` |
| Extensions.MatchedExtension | main.py:79 | a path ending in any case of an accepted extension is accepted, and its lower-cased form ends with that extension in lower case |
| Extensions.NameOfJoin | main.py:101 | the final component of a directory followed by two separator-free parts is those two parts |
| Extensions.DotfileOutput | main.py:79-101 | a bare `.pdf` (or `.docx`, `.pptx`) name is accepted and, having no pathlib suffix, converts to that name followed by `.md` |
| FileSystems.FileSystem.Stat | main.py:103 | `stat` succeeds exactly when the path exists and gives the file's size |
| FileSystems.FileSystem.Write | main.py:108-109 | opening for writing and writing replaces the path's content with the text, whether or not it existed, and changes no other path |
| FileSystems.FileSystem.Exists | main.py:111 | `exists` holds exactly when the path is present |
| Conversion.ConvertFile | main.py:99-120 | the method returns, raises and writes exactly what the specification `Convert` says |
| Conversion.FailureWritesNothing | main.py:103-118 | a conversion that raises leaves every file as it was |
| Conversion.ConvertOutcomes | main.py:99-120 | for an accepted path: it fails as not found exactly when the input is missing; it fails with the converter's message exactly when the converter raises it; it succeeds exactly when the input exists and the converter succeeds; it never fails on the output path |
| Conversion.SuccessWritesOutput | main.py:101-120 | a success returns the `with_suffix(".md")` path (same directory, the stem followed by `.md`, not the input); that path holds the converted text; every other file, the input included, is unchanged |
| Conversion.ConvertTwiceIsConvertOnce | main.py:99-120 | converting the same file twice returns the same result and leaves the same files as converting it once |
| Conversion.ConvertTwiceWhenOutputIsNew | main.py:99-120 | converting twice is converting once whenever the output path differs from the input |
| DropArea.DragEnter | main.py:58-70 | the drag is accepted exactly when some URL qualifies, and then at the first that does |
| DropArea.CollectFilesToConvert | main.py:76-80 | the loop builds exactly the filter of the dropped paths |
| DropArea.RunBatch | main.py:87-94 | one outcome per file to convert; which outcome each file gets is `DropProperties.BatchIsolation` |
| DropArea.RunBatchSnoc | main.py:87-94 | a batch one file longer is the shorter batch followed by that file converted on the files the shorter batch left |
| DropArea.SuccessesSnoc | main.py:90-91 | one more outcome appends its pair to `successful` when it converted and leaves the list alone when it failed |
| DropArea.FailuresSnoc | main.py:92-94 | one more outcome appends its pair to `failed` when it failed and leaves the list alone when it converted |
| DropArea.DropEvent | main.py:72-97 | the method's lists, its acceptance and the files it leaves are exactly those of the specification `Drop` |
| DropArea.ConvertAll | main.py:85-95 | the loop leaves exactly the lists and the files of `RunBatch` over the files to convert |
| DropArea.ConvertAndRecord | main.py:87-94 | one pass of the loop extends the lists and the files from those of the batch so far to those of the batch one file longer |
| DropProperties.EveryFileClassified | main.py:87-94 | the `successful` and `failed` lists have one entry per file tried, together |
| DropProperties.SuccessesAreConverted | main.py:90-91 | a pair is in `successful` exactly when that file converted to that output |
| DropProperties.FailuresAreFailed | main.py:92-94 | a pair is in `failed` exactly when that file raised that error |
| DropProperties.SingleFailureLists | main.py:87-94 | with one failed outcome, `failed` is that entry alone and every other outcome is a success |
| DropProperties.NoFailures | main.py:92-94 | with no failed outcome, `failed` is empty |
| DropProperties.BatchKeepsOtherPaths | main.py:87-109 | a drop never changes a path that does not end in `.md`, so dropped inputs survive |
| DropProperties.ConvertDependsOnInputOnly | main.py:99-120 | a conversion's result depends only on what the filesystem holds at its input path |
| DropProperties.BatchIsolation | main.py:87-94 | each file's outcome in a drop is what converting it alone against the original files gives: an earlier failure or write never changes a later file's outcome |
| DropProperties.IsolationWithoutMdInputs | main.py:87-94 | fail isolation holds for any batch whose inputs do not end in `.md` |
| DropProperties.BatchWritesOnlyOutputs | main.py:87-109 | a path that no success in the batch reported as its output is left as it was |
| DropProperties.BatchLastWriteWins | main.py:87-109 | when a success is the last to write its output, that output holds the converted text of its file afterwards |
| DropProperties.LastWriteWinsWithoutMdInputs | main.py:87-109 | the last write wins in any batch whose inputs do not end in `.md` |
| DropProperties.StepWritesOwnOutput | main.py:101-109 | a successful conversion writes its input's converted text to the output it returns |
| DropProperties.StepKeepsOtherPaths | main.py:101-109 | a conversion changes no path but the output it returns |
| DropProperties.OneFailingFile | main.py:87-96 | with exactly one failing file, the summary is one fewer success than files and that single failure |
| DropProperties.DropAcceptedIffDragAccepted | main.py:58-97 | a drop is accepted exactly when a drag of the same payload is |
| DropProperties.DropClassifiesEveryFile | main.py:76-96 | the two lists together have one entry per accepted dropped file |
| DropProperties.DropIsFailIsolated | main.py:84-97 | the lists of a drop are those obtained by converting each accepted file alone against the original files |
| DropProperties.DropSuccessfulEntries | main.py:79-101 | each `successful` entry pairs a dropped accepted file with its `with_suffix(".md")` path in the same directory |
| DropProperties.DropFailedEntries | main.py:79-107 | each `failed` entry is a dropped accepted file, recorded as not found when missing and otherwise with the converter's own message |
| DropProperties.AttemptedOutcome | main.py:87-94 | an outcome among the stand-alone attempts belongs to one of the inputs and is that input's own attempt |
| Scenarios.UpperCaseExtensionExample | main.py:79-101 | `a.b.PDF` is accepted and converts to `a.b.md` |
| Scenarios.DotfileExample | main.py:79-101 | `.pdf` is accepted and converts to `.pdf.md` |
| Scenarios.SiblingsShareOutput | main.py:101 | `a.pdf` and `a.docx` both convert to `a.md` |
| Scenarios.TopLevelOutput | main.py:79-101 | a top-level `stem + ext` with an accepted extension is accepted and converts to `stem + ".md"` |
| Scenarios.PdfBesideImage | main.py:58-97 | dropping `doc.pdf` with `image.png`: the drag is accepted, only `doc.pdf` is converted, to `doc.md`, and the drop is accepted |
| Scenarios.OneOfTwoFails | main.py:84-97 | dropping `a.docx` and `b.pptx` when the converter raises "corrupt file" on the second: `a.md` is written and listed, `b.pptx` is listed as failed with that message, and no `b.md` appears |
| Scenarios.TextFileRefused | main.py:58-84 | `readme.txt` is refused by the drag, and a drop of it converts nothing and changes no file |
| Scenarios.EmptyPayloadRefused | main.py:58-84 | an empty payload is refused and changes no file |

## Left out

- The Qt window itself (`MainWindow`, the label's text and style, the icon, `main()`): none of it decides what is converted.
- Logging: every `logger` call only emits text.
- Qt's `toLocalFile`: each URL is taken as the local path it yields; a URL that is not a local file gives an empty path in Qt, and the model treats that path like any other string.
- The MarkItDown converter's internals: it is a parameter, a function of the path and the file's content.
- The sizes in MB and KB are floating point and only logged. `stat` is modelled as giving the length of the content.
- `str.lower` is modelled on ASCII letters only; Unicode case folding is not modelled.
- Paths use `/` as their only separator; Windows paths and pathlib's collapsing of `//` and `.` components are not modelled, so the directory part is kept as written.
- Errors from opening or writing the output (permissions, a full disk, a directory at that path) are not modelled: a write always succeeds, and a partial write cannot happen.
- The warning branch after the existence check (main.py:114-115) cannot be reached in the model, since nothing else touches the files between the write and the check; the returned path does not depend on it either way.
- DropArea.DropEvent: the `failed` list holds a structured `Error` instead of the text of `str(e)`; a converter failure keeps the converter's own message.
- Concurrency with other processes writing the same paths is not modelled.
- Two paths are the same file only when their strings are equal. On a case-insensitive filesystem (the default on macOS and Windows), `A.pdf` and `a.pdf` dropped together write one `a.md`/`A.md` file; `DropProperties.BatchWritesOnlyOutputs` and `DropProperties.BatchLastWriteWins` do not describe that case.
