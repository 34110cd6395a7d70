# Docparse XR-usage pipeline, modelled in Dafny

Docparse turns a folder of plain-text research papers into CSV reports of
extended-reality (XR) hardware and software mentions. It does this in three
scripts:

- `indiv.py` handles each paper on its own. For every chunk of 500 words it
  asks a language model for XR mentions. It splits the reply's numbered lines
  into a device list and a software list. It writes one CSV per paper,
  and only when that paper yields a record.
- `main.py` keeps only the stripped reply of each chunk. It gathers the records
  of all papers and writes a single `xr_usage_reports.csv`.
- `cleaner.py` walks a directory tree and renames every file whose name holds
  characters outside the sanitizer's allow-set.

The model follows that layout:

- **Shared helpers.** `Sanitizer`, `Chunker`, `Metadata`, `Strings`, `Paths`,
  `Seqs`, `Outputs` and `Optional` hold the code that the three scripts share
  or use from Python's standard library.
  - `sanitize_filename` is identical in all three scripts.
  - `split_into_chunks` and `extract_author_year` are identical in the two
    pipelines.
  - `Strings` models `str.split`, `str.strip`, `str.join`, `str.lower` and the
    other string methods.
  - `Paths` models POSIX `os.path.join`, `basename` and `splitext`.
- **One module per script.** `IndivPipeline`, `MainPipeline` and `Cleaner`.

Each loop of the source is a Dafny method with the same loop. The method's
contract ties what it builds to a specification function on sequences. The
properties are proved as lemmas about that function.

The world outside the program becomes parameters:

- **The model call.** One oracle `string -> Option<string>` maps a chunk to
  its reply. `None` stands for an `OpenAIError`.
- **`DOCUMENT_FOLDER_PATH`.** An `Option<string>`.
- **`os.listdir`.** A sequence of names.
- **Readable files.** A map from path to content. A path missing from the map
  raises `FileNotFoundError`.
- **`os.walk`.** A sequence of (root, files) steps.

The scripts' effects are modelled as values:

- A written CSV is its path plus its ordered rows.
- A rename is an (old path, new path) pair.

The pipelines build a document's read path from the *sanitized* name, not
the listed one. The model keeps that behaviour. An entry whose name is not
clean reads whatever file sits at its sanitized name:

- When no file exists there, the entry is skipped as not found
  (`IndivPipeline.ReadsSanitizedPath`).
- When one does, say `b.txt` listed beside `b?.txt`, that other file's rows
  are produced again under the sanitized name.
  - indiv.py writes the same CSV twice.
  - main.py gathers the same rows twice.
  - `SameSanitizedNameReadTwice` in both pipelines states this.

## Model

| member | source | states |
|---|---|---|
| Sanitizer.Sanitize | indiv.py:7-10 | every character of the result is in the allow-set `-_.() `, ASCII letters and digits; the result is never longer than the input |
| Sanitizer.SanitizeIsSubsequence | cleaner.py:7 | the result is the input with characters removed and the rest kept in their order |
| Sanitizer.SanitizeCounts | indiv.py:9 | each allowed character occurs in the result exactly as often as in the input; no other character occurs |
| Sanitizer.SanitizeConcat | main.py:9 | sanitizing a concatenation is the concatenation of the sanitized parts |
| Sanitizer.SanitizeFixedPoint | main.py:7-10 | a name is unchanged by sanitizing exactly when it is already clean |
| Sanitizer.SanitizeIdempotent | cleaner.py:5-8 | sanitizing twice gives the same as sanitizing once |
| Sanitizer.SanitizedHasNoSeparator | main.py:8 | a sanitized name holds no `/`, `\` or `:` |
| Strings.Words | indiv.py:23 | `document.split()` yields only non-empty words free of whitespace; `WordsAfterSpace`, `WordsOfWordThenSpace` and `WordsOfWord` fix which words, on any text |
| Strings.WordsAfterSpace | indiv.py:23 | whitespace of any kind and length in front of a text adds no word: newlines, tabs and runs of spaces are skipped |
| Strings.WordsOfWordThenSpace | main.py:22 | a word followed by any non-empty whitespace run is the first word, and the split resumes after the run; with `WordsAfterSpace` and `WordsOfWord` this fixes `split()` to the maximal non-whitespace runs, in order, on every text |
| Strings.WordsOfWord | main.py:22 | a single word with no whitespace splits into just itself |
| Strings.WordsEmpty | main.py:22 | the split is empty exactly when the text is empty or only whitespace |
| Strings.WordsOfJoin | indiv.py:24 | splitting words joined by single spaces gives back those words |
| Strings.SplitOnJoin | indiv.py:46 | `s.split(c)` joined back with `c` is `s` |
| Strings.SplitOnCount | indiv.py:62-63 | `s.split(c)` has one more part than `s` has occurrences of `c` |
| Strings.SplitOn | indiv.py:62 | `s.split(c)` gives at least one part, and no part holds `c`; `SplitOnJoin` and `SplitOnCount` fix the parts |
| Strings.TrimStart | main.py:36 | the result is a suffix of the input; everything dropped is whitespace, and the result does not start with whitespace |
| Strings.TrimEnd | main.py:36 | the result is a prefix of the input; everything dropped is whitespace, and the result does not end with whitespace |
| Strings.Strip | indiv.py:42 | `strip()` never lengthens the text and leaves no whitespace at either end; `StripEmpty`, `StripIdempotent` and `StripUnchanged` give the rest |
| Strings.StripUnchanged | indiv.py:50 | a text with no whitespace at either end is its own strip |
| Strings.Lower | indiv.py:49 | `lower()` keeps the length; it folds the ASCII capitals only |
| Strings.LastIndexOf | main.py:66 | the position of the last occurrence of the character, or -1 when there is none |
| Strings.StripEmpty | main.py:36-37 | the stripped reply is empty exactly when the reply is only whitespace |
| Strings.StripIdempotent | main.py:36 | stripping a stripped text changes nothing |
| Strings.JoinEmpty | indiv.py:54 | non-empty items join to the empty string only when there are none |
| Strings.Join | indiv.py:54 | `sep.join(parts)`: the parts in order with `sep` between neighbours; `SplitOnJoin`, `WordsOfJoin` and `JoinEmpty` are its properties |
| Strings.Contains | indiv.py:49 | `p in s`: `p` occurs as a contiguous slice of `s`; used through `ContainsAt` and `AbsentCharNotContained` |
| Strings.StartsWith | indiv.py:48 | `s.startswith(p)`: `p` is a prefix of `s` |
| Strings.EndsWith | indiv.py:99 | `s.endswith(p)`: `p` is a suffix of `s` |
| Paths.BasenameOfJoin | main.py:66 | the basename of a folder joined with a name that has no separator is that name |
| Paths.SplitextRootOfTxt | indiv.py:106 | for a ".txt" name with a character other than a dot before the extension, the splitext root drops ".txt" |
| Paths.SplitextRootOfDotsTxt | indiv.py:106 | a name of only dots before ".txt" has no extension: its root is the whole name |
| Paths.Join | main.py:82 | `os.path.join(folder, name)`: the name alone when it starts with `/`, otherwise the folder, one `/` unless the folder is empty or ends in one, and the name; `JoinEnds` and `BasenameOfJoin` are its properties |
| Paths.JoinEnds | main.py:82 | the joined path ends with the name and, for a name not starting with `/`, starts with the folder |
| Paths.Basename | indiv.py:74 | `os.path.basename`: a suffix of the path with no `/`, preceded by `/` unless it is the whole path |
| Paths.SplitextRoot | indiv.py:106 | `os.path.splitext(p)[0]` is a prefix of the path; `SplitextRootOfTxt` and `SplitextRootOfDotsTxt` give its value on ".txt" names |
| Chunker.Groups | indiv.py:24 | the `range(0, len(words), chunk_size)` slices: every group has 1 to `chunk_size` words, all but the last exactly `chunk_size` |
| Chunker.SplitIntoChunks | indiv.py:22-25 | `split_into_chunks`: each group of `Words(document)` joined by single spaces; `ChunksRoundTrip`, `ChunkShape`, `ChunkCount`, `NoChunks` and `ChunksJoin` are its properties |
| Chunker.GroupsFlatten | indiv.py:24 | the groups concatenated are the word list: no word dropped, duplicated or moved |
| Chunker.GroupsCount | indiv.py:24 | there are ceil(n / chunk_size) groups of n words |
| Chunker.ChunksRoundTrip | indiv.py:22-25 | the words of all chunks, in chunk order, are exactly `document.split()` |
| Chunker.ChunkWords | indiv.py:23-24 | re-splitting a chunk gives back exactly its group of words |
| Chunker.ChunkShape | indiv.py:23-24 | each chunk has 1 to `chunk_size` words, exactly `chunk_size` except the last, and no whitespace at either end |
| Chunker.ChunkCount | main.py:21-24 | the number of chunks is ceil(n / chunk_size) |
| Chunker.NoChunks | main.py:21-24 | there are no chunks exactly when the document is empty or only whitespace |
| Chunker.ChunksJoin | main.py:23 | all chunks joined by spaces give the document's words joined by single spaces |
| Metadata.ExtractAuthorYear | indiv.py:60-68 | with two underscores or more, the name starts with author, `_`, year, `_`, and neither holds `_`; with fewer, both are "Unknown" |
| Metadata.ExtractAuthorYearOfLayout | main.py:42-50 | conversely, any name laid out as author_year_rest yields (author, year), whatever the year holds |
| Metadata.ExtractAuthorYearExample | indiv.py:61-66 | "Smith_2023_StudyTitle.txt" yields ("Smith", "2023") |
| Metadata.ExtractAuthorYearFallbackExample | indiv.py:67-68 | a name without underscores yields ("Unknown", "Unknown") |
| Outputs.DocumentFolder | indiv.py:90-93 | `if not document_folder`: an unset or empty variable ends the run; `NothingWritten` in both pipelines uses it |
| IndivPipeline.SearchXrUsage | indiv.py:42-58 | the parsing loop builds the device and software lists that `Analyze` defines, and returns the API error unchanged |
| IndivPipeline.Route | indiv.py:48-52 | the list a reply line goes to; `DeviceWordsTakePrecedence` and `OnlyListLinesRouted` are its properties |
| IndivPipeline.Item | indiv.py:50 | `line[2:].strip()`; `ItemOfMarkedLine` and `RoutedItemShape` are its properties |
| IndivPipeline.Analyze | indiv.py:42-58 | the triple `search_xr_usage` returns: the API error, or the stripped reply with the two lists joined by ", "; `AnalyzeListsEmpty` and `AnalyzeReportEmpty` are its properties |
| IndivPipeline.RoutedItems | indiv.py:47-52 | one list after the line loop; `RoutedItemsMember`, `RoutedItemsConcat` and `EachLineInOneList` are its properties |
| IndivPipeline.DeviceWordsTakePrecedence | indiv.py:48-50 | a list line that mentions hardware or a device goes to devices, even when it also mentions software |
| IndivPipeline.OnlyListLinesRouted | indiv.py:48-52 | only lines starting with "1." or "2." are kept; a software line mentions software and neither hardware nor a device |
| IndivPipeline.QuestLineRoute | indiv.py:49-50 | "1. Device - Oculus Quest (hardware)" is a device line |
| IndivPipeline.UnityLineRoute | indiv.py:51-52 | "2. Unity (software)" is a software line |
| IndivPipeline.UnityLineItem | indiv.py:52 | its stored item is "Unity (software)" |
| IndivPipeline.ItemOfMarkedLine | indiv.py:50-52 | a marker, one space and a text give that text as the item |
| IndivPipeline.RoutedItemShape | indiv.py:50-52 | every stored item is non-empty and has no whitespace at either end |
| IndivPipeline.RoutedItemsMember | indiv.py:47-52 | an item is in a list exactly when some reply line routed to that list yields it |
| IndivPipeline.RoutedItemsConcat | indiv.py:47-52 | the lists follow the order of the reply's lines |
| IndivPipeline.EachLineInOneList | indiv.py:49-52 | a line goes to at most one list, so the two lists together have at most one item per line |
| IndivPipeline.JoinedListEmpty | indiv.py:54 | a joined list is "" exactly when no line is routed to it |
| IndivPipeline.AnalyzeListsEmpty | indiv.py:42-54 | with a reply, both lists are strings, and each is "" exactly when no line of the stripped reply is routed to it |
| IndivPipeline.AnalyzeReportEmpty | indiv.py:42 | the report is empty exactly when the reply is only whitespace |
| IndivPipeline.ProcessDocument | indiv.py:70-87 | raises (None) on a missing file; otherwise returns the records `DocumentRecords` defines for the content and the path's basename |
| IndivPipeline.DocumentRecords | indiv.py:73-87 | the records of one document; `DocumentRecordsShape` is its property |
| IndivPipeline.ChunkYieldsRecord | indiv.py:77-86 | a chunk yields at most one record, and one exactly when the API answers with more than whitespace |
| IndivPipeline.TaggedRecordsConcat | indiv.py:76-86 | records follow chunk order |
| IndivPipeline.TaggedRecordsMember | indiv.py:76-86 | every record has the document's author, year and file name, a non-empty report, and the parse of the reply to one of the chunks |
| IndivPipeline.TaggedRecordsCount | indiv.py:76-86 | there are at most as many records as chunks, and none exactly when no chunk got a non-blank reply |
| IndivPipeline.DocumentRecordsShape | indiv.py:73-87 | at most one record per chunk of 500 words; none for a blank document or a failing API; author and year from the file name |
| IndivPipeline.Run | indiv.py:89-114 | the listing loop writes the CSVs `RunOutputs` defines: none without a folder, else one per entry whose records are not empty, in listing order |
| IndivPipeline.RunOutputs | indiv.py:89-114 | no CSV without a folder, else the CSVs of the listing; `NothingWritten` and `FolderOutputRows` are its properties |
| IndivPipeline.FolderOutputs | indiv.py:97-111 | every entry's CSVs, in listing order; `FolderOutputsConcat` and `FolderOutputRows` are its properties |
| IndivPipeline.EntryOutputs | indiv.py:98-111 | what one entry writes; `EntryOutputsSpec` states it |
| IndivPipeline.OutputName | indiv.py:106 | the CSV name for a sanitized name; `OutputNameOfTxt` states it |
| IndivPipeline.EntryOutputsAtMostOne | indiv.py:104-108 | an entry writes at most one CSV, at the folder joined with the output name of its sanitized name |
| IndivPipeline.SameSanitizedNameReadTwice | indiv.py:98-108 | two listed names with the same sanitized name write nothing, or the same CSV at the same path twice |
| IndivPipeline.EntryOutputsSpec | indiv.py:97-111 | an entry writes exactly one CSV, named after the sanitized stem, when its sanitized name ends in ".txt", the sanitized path exists and its records are not empty; the rows carry the sanitized name |
| IndivPipeline.ReadsSanitizedPath | indiv.py:100-103 | an entry whose sanitized path is absent writes nothing, whatever the listed file holds |
| IndivPipeline.EntryOutputRows | indiv.py:98-108 | one entry's CSV has rows, and each names the entry by its sanitized ".txt" name with the author and year of that name |
| IndivPipeline.FolderOutputRows | indiv.py:97-108 | every CSV of a run has rows, and every row names a listed document by its clean ".txt" name |
| IndivPipeline.FolderOutputsConcat | indiv.py:97 | CSVs are written in listing order |
| IndivPipeline.NothingWritten | indiv.py:90-93 | without a folder, or when every API call fails, nothing is written |
| IndivPipeline.OutputNameOfTxt | indiv.py:106 | the CSV name replaces ".txt" with "_report_version.csv"; a name of only dots before ".txt" keeps it |
| MainPipeline.SearchXrUsage | main.py:36-40 | `None` exactly when the API fails or the reply is only whitespace; otherwise the stripped reply, non-empty and already stripped |
| MainPipeline.ProcessDocument | main.py:52-69 | raises (None) on a missing file; otherwise returns the records `DocumentRecords` defines for the content and the path's basename |
| MainPipeline.DocumentRecords | main.py:56-69 | the records of one document; `DocumentAgreesWithIndiv` ties it to indiv.py's |
| MainPipeline.ChunkYieldsRecord | main.py:59-61 | a chunk yields at most one record, and one exactly when the API answers with more than whitespace |
| MainPipeline.TaggedRecordsConcat | main.py:58-67 | records follow chunk order |
| MainPipeline.TaggedRecordsMember | main.py:58-67 | every record has the document's author, year and file name, and the non-empty stripped reply to one of the chunks |
| MainPipeline.TaggedRecordsCount | main.py:58-67 | there are at most as many records as chunks, and none exactly when no chunk got a non-blank reply |
| MainPipeline.ChunkAgreesWithIndiv | main.py:60-61 | for one chunk, main.py keeps a record exactly when indiv.py does, with the same report |
| MainPipeline.TaggedAgreesWithIndiv | main.py:59-67 | given the same replies, main.py's records are indiv.py's records, in the same order, without the two name lists |
| MainPipeline.DocumentAgreesWithIndiv | main.py:52-69 | the same for a whole document |
| MainPipeline.Run | main.py:71-98 | gathers the records `AllReports` defines; writes one table, in the folder, exactly when the folder is set and some record was gathered |
| MainPipeline.RunOutput | main.py:71-98 | no table without a folder or when nothing was gathered, else one table in the folder; `NothingWritten` and `SingleDocumentFolder` are its properties |
| MainPipeline.AllReports | main.py:77-89 | `all_reports` after the loop; `AllReportsConcat` and `AllReportsMember` are its properties |
| MainPipeline.EntryRecords | main.py:80-89 | what one entry adds; `EntryRecordsSpec` states it |
| MainPipeline.SameSanitizedNameReadTwice | main.py:80-86 | two listed names with the same sanitized name gather the rows of the one file at that name twice |
| MainPipeline.EntryRecordsSpec | main.py:80-89 | an entry contributes the records of the file at the sanitized path, named by the sanitized name, when that name ends in ".txt" and the file exists; otherwise nothing |
| MainPipeline.AllReportsConcat | main.py:79-86 | `all_reports` follows listing order |
| MainPipeline.AllReportsMember | main.py:79-86 | every gathered row names a listed document by its clean ".txt" name, that file exists, its report is non-empty, and author and year come from the name |
| MainPipeline.DocumentRecordsFailingOracle | main.py:59-61 | when every API call fails, a document yields no record |
| MainPipeline.EntryRecordsFailingOracle | main.py:84-86 | when every API call fails, an entry contributes nothing |
| MainPipeline.NothingWritten | main.py:72-93 | without a folder, or when every API call fails, no table is written |
| MainPipeline.OneChunk | main.py:56 | a document of 1 to 500 words is one chunk |
| MainPipeline.SingleChunkDocument | main.py:56-67 | such a document yields just the record of its one chunk |
| MainPipeline.SingleDocumentEntry | main.py:79-86 | a clean ".txt" file of 1 to 500 words, with an API that always answers, contributes one row |
| MainPipeline.SingleDocumentFolder | main.py:71-98 | a folder with that one file gives one table in the folder with one row: the name's author and year, the stripped reply and the file name |
| Cleaner.CleanFilenames | cleaner.py:10-17 | the nested walk loops issue the renames `PlannedRenames` defines, in walk order |
| Cleaner.PlannedRenames | cleaner.py:11-17 | the renames of the whole walk, in walk order; `PlannedRenamesMember`, `NoRenamesWhenClean` and `CleanAfterApply` are its properties |
| Cleaner.RenamesIn | cleaner.py:12-17 | the renames of one directory, in file order; `RenamesInMember` is its property |
| Cleaner.FileRename | cleaner.py:13-17 | the rename of one file, if any; `FileRenameNeeded` and `RenameShape` are its properties |
| Cleaner.Applied | cleaner.py:17 | the walk after the renames: the same directories, each with as many files as before |
| Cleaner.FileRenameNeeded | cleaner.py:13-14 | a file is renamed exactly when its name is not clean |
| Cleaner.RenameShape | cleaner.py:15-17 | a rename stays in the file's directory and changes only the name, to its clean form, and never onto itself |
| Cleaner.RenamesInMember | cleaner.py:12-17 | the renames of one directory are one per unclean file and only those |
| Cleaner.PlannedRenamesMember | cleaner.py:11-17 | a rename is planned exactly for each unclean file of each walked directory |
| Cleaner.NoRenamesWhenClean | cleaner.py:13-14 | nothing is renamed exactly when every walked name is already clean |
| Cleaner.CleanAfterApply | cleaner.py:10-17 | after the renames, a second run plans nothing |

## Left out

- Chunker.SplitIntoChunks: requires a chunk size other than 0. `range(0, n, 0)` raises `ValueError`, and that error path is not modelled. Both callers pass 500.
- The OpenAI call itself (indiv.py:27-40, main.py:26-35) is out of scope. This covers the prompt text, `current_year`, the model name, `max_tokens` and `temperature`. An oracle from chunk text to `Option<string>` replaces the call. The oracle gives the same reply whenever the same chunk text is sent, which the real service need not do.
- A reply whose `message.content` is missing is not modelled. Every reply is a string.
- `load_dotenv` and `os.getenv` are replaced by a parameter. `safe_print` and all console output are left out; they carry no logic.
- pandas `DataFrame` and `to_csv` are left out. A written CSV is its path and its rows; column layout and quoting are not modelled.
- `IndivPipeline.Run`: lists the CSVs in the order they are written. Two listed names that sanitize to the same name give two entries in that list. On disk the second file would overwrite the first.
- Only `FileNotFoundError` is modelled, as a path absent from the file map. Decoding errors, permission errors and other `OSError`s are not.
- `os.walk` is a given sequence of (root, files) steps. The `dirs` list and the walk order are not modelled.
- `Cleaner.CleanFilenames`: returns the renames instead of performing them. These are not modelled:
  - a rename onto a name that already exists;
  - a name that sanitizes to the empty string;
  - a rename that fails part-way.
- `Cleaner.CleanAfterApply`: describes the tree after the renames by name only, so files that collide are not merged.
- `pathlib` normalisation (cleaner.py:15-16) is not modelled: no collapsing of repeated separators or `.` components. `Path(root) / filename` is modelled as POSIX `os.path.join`. Windows path rules are not modelled.
- The hard-coded folder and the module-level call of cleaner.py:19-23 are platform set-up and are left out.
- `str.lower` folds only the ASCII capitals. The keywords the parser looks for are ASCII, but a non-ASCII capital that lowers to ASCII is not folded. `str.split()` and `str.strip()` use Python's full whitespace set.
