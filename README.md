# ForensicCLI core, modelled in Dafny

ForensicCLI scans a case directory for evidence files. This model covers the
core of the scan:

- **File discovery** (`load_files_from_directory`, `is_supported_file`). The
  loader checks that the path exists and is a directory. It then walks the
  directory, recursively or one level deep, and keeps the regular files whose
  lower-cased suffix is a supported extension. If nothing is kept it raises
  `NoFilesFoundError`; otherwise it returns the kept files sorted.
- **The analysis loop** (`analyze_files`). Each discovered file is classified
  by the ending of its lower-cased base name:
  - an image is counted and recorded as an "IMAGE FILE" match;
  - a CSV is loaded as a table, and two suspicious-activity rules plus a
    dataset summary are computed from it;
  - any other file is read as text and searched, ignoring case, for the
    keyword.
  Everything accumulates into one summary record.
- **Path conversion** (`_convert_paths_to_str`). Before the summary is written
  as JSON, every path reachable through dicts and lists becomes its string
  form.

Modules:

- `Wrappers`: `Option` and `Result`, and `Somes`, the present values of a
  sequence of options.
- `Text`: ASCII lower-casing, `endswith`, substring search, `rfind` and
  lexicographic order.
- `FileLoader`: the filesystem as a finite map from paths (sequences of
  components) to `File` or `Dir`, the suffix rule, extension sets, the
  matched set, an in-place insertion sort and the loader method.
- `RuleEngine`: tables as column names plus rows (maps from column to a null,
  integer or string cell), the two rules, the missing-cell count, label
  frequencies, and the per-CSV evaluation method.
- `Analyzer`: the summary record, per-file specification functions, the loop
  method, its invariant, and the composition with the loader.
- `ResultManager`: JSON-like values and the conversion.

The order in which the directory walk yields entries is not specified. The
loop picks each next entry nondeterministically. The analysis loop is
specified file by file: after scanning a prefix of the file list, every
accumulated field equals a function of that prefix. The loader returns the
matched files sorted and each once, and two such lists of the same files are
equal (`FileLoader.SortedDistinctUnique`). So two scans of the same directory
with the same file contents give equal summaries
(`Analyzer.ScanIsDeterministic`).

Points of the code that the model follows:

- CSV files and unreadable text files add no entry to `matches`
  (analyzer.py:47-88, 104-105).
- A dataset load error is only printed: `dataset_summary` keeps its previous
  value and only `csv_found` is set (analyzer.py:48, 87-88).
- The summary keeps only `images_found` and `csv_found`, no count per file
  kind.
- The loader's docstring says a non-directory raises `FileNotFoundError`. The
  code raises `NotADirectoryError`.

## Model

| member | source | states |
|---|---|---|
| FileLoader.ExtSet | ForensicCLI/core/file_loader.py:29 | the extensions `is_supported_file` checks against are never empty: the caller's set when it is non-empty, else the defaults |
| FileLoader.SupportedFileEndsWithExtension | ForensicCLI/core/file_loader.py:27-32 | a supported file is a regular file whose lower-cased name ends with one of the extensions |
| FileLoader.Suffix | ForensicCLI/core/file_loader.py:32 | `path.suffix`: it is empty, or it starts at a dot that is followed by no other dot, ends the name and is not its first character |
| FileLoader.SuffixOfLower | ForensicCLI/core/file_loader.py:32 | taking the suffix and lower-casing commute, so `suffix.lower()` equals the suffix of the lower-cased name |
| FileLoader.DefaultExtensions | ForensicCLI/core/file_loader.py:29 | both the predicate and the loader (line 65) fall back to {.txt, .pdf, .jpg, .jpeg, .png} when the extensions are absent or empty |
| FileLoader.LoaderExts | ForensicCLI/core/file_loader.py:65 | the loader's extension set is never empty |
| FileLoader.DirectoryNeverSupported | ForensicCLI/core/file_loader.py:30-31 | a directory is never a supported file, whatever its name |
| FileLoader.SupportIgnoresNameCase | ForensicCLI/core/file_loader.py:27-32 | two files whose names differ only in letter case are both supported or both not |
| FileLoader.LoaderMatchIgnoresCase | ForensicCLI/core/file_loader.py:65-75 | inside the loader a file matches iff its suffix equals a given extension up to letter case, in both directions |
| FileLoader.UpperCaseExtensionsNeverMatch | ForensicCLI/core/file_loader.py:29-32 | called directly with extensions that all have an upper-case letter, `is_supported_file` accepts nothing, because it does not lower-case them |
| FileLoader.DefaultSuffixIsNotCsv | ForensicCLI/core/file_loader.py:20-32 | a name whose lower-cased suffix is a default extension never ends in ".csv" in any letter case |
| FileLoader.MatchedAreSupportedFiles | ForensicCLI/core/file_loader.py:68-75 | every kept entry is a regular file under the directory whose lower-cased suffix is listed |
| FileLoader.FlatWithinRecursive | ForensicCLI/core/file_loader.py:68-75 | the one-level walk keeps exactly the entries of the recursive walk that are immediate children |
| FileLoader.PathLeTotal | ForensicCLI/core/file_loader.py:82 | any two paths are comparable in the sort order |
| FileLoader.PathLeTransitive | ForensicCLI/core/file_loader.py:82 | the sort order is transitive |
| Text.StrLtStrictTotal | ForensicCLI/core/file_loader.py:82 | string comparison, which path comparison is built on, is a strict total order |
| FileLoader.SortPaths | ForensicCLI/core/file_loader.py:82 | `files.sort()` in place: the array ends sorted and is a permutation of its old contents |
| FileLoader.CollectSupported | ForensicCLI/core/file_loader.py:68-75 | the walk's loop, in any visiting order, appends exactly the supported entries, each once, with no path twice |
| FileLoader.PathLeAntisymmetric | ForensicCLI/core/file_loader.py:82 | two paths each ordered before the other are equal |
| FileLoader.DistinctPermutation | ForensicCLI/core/file_loader.py:82 | sorting, being a permutation, keeps a list free of duplicates |
| FileLoader.SortedDistinctUnique | ForensicCLI/core/file_loader.py:68-84 | two sorted, duplicate-free lists with the same paths are equal, so the returned list does not depend on the walk's order |
| FileLoader.LoadFilesFromDirectory | ForensicCLI/core/file_loader.py:35-84 | a missing path gives FileNotFound, checked before NotADirectory for a file; no match gives NoFilesFound; otherwise the result holds exactly the matched files, once each, sorted, and is non-empty |
| Text.EndsWithAnyExists | ForensicCLI/core/analyzer.py:35 | `endswith` with a tuple holds iff some suffix in the tuple ends the string |
| Text.Contains | ForensicCLI/core/analyzer.py:95 | `needle in hay` holds iff the needle occurs at some index of the hay |
| Text.RFind | ForensicCLI/core/file_loader.py:32 | the last index holding the character, or -1 iff it does not occur |
| RuleEngine.CountRowsIsHitCount | ForensicCLI/core/analyzer.py:61-69 | `len(df[mask])` is the number of row indices whose row satisfies the mask |
| RuleEngine.ExcessiveLogins | ForensicCLI/core/analyzer.py:61 | a row flagged by rule 1 holds an integer login count above 5 |
| RuleEngine.LoginHitsCount | ForensicCLI/core/analyzer.py:59-61 | rule 1's count is the number of rows whose login cell is an integer above 5, a null counting as 0, and 0 when the table has no `Login_Attempts` column |
| RuleEngine.ActionHitsCount | ForensicCLI/core/analyzer.py:66-68 | rule 2's count is the number of rows whose action is "Delete", "Upload" or "Privilege_Escalation", and 0 when the table has no `Action` column |
| RuleEngine.ForbiddenAction | ForensicCLI/core/analyzer.py:68 | a row is flagged by rule 2 iff its action is "Delete", "Upload" or "Privilege_Escalation" |
| RuleEngine.Evaluate | ForensicCLI/core/analyzer.py:50-83 | a loaded CSV yields no evaluation iff it has a login column holding a string; otherwise the dataset record names the CSV |
| RuleEngine.NullLoginNotFlagged | ForensicCLI/core/analyzer.py:61 | a null login count is read as 0 and never flagged by rule 1 |
| RuleEngine.LoginExample | ForensicCLI/core/analyzer.py:59-64 | login attempts 1, 6, 10 and 0 give two rule-1 hits |
| RuleEngine.ActionExample | ForensicCLI/core/analyzer.py:66-71 | one "Delete" and one "Read" action give one rule-2 hit |
| RuleEngine.MissingCellsBound | ForensicCLI/core/analyzer.py:52 | the missing-value count never exceeds rows times columns |
| RuleEngine.MissingCellsByColumn | ForensicCLI/core/analyzer.py:52 | the missing-value count equals the sum over columns of each column's null count, the order `df.isnull().sum().sum()` adds them in |
| RuleEngine.LabelCountsAreFrequencies | ForensicCLI/core/analyzer.py:53 | the label map holds exactly the non-null labels that occur, each mapped to its number of rows |
| RuleEngine.EvaluateProperties | ForensicCLI/core/analyzer.py:51-83 | a loaded CSV fails iff rule 1 meets a string; otherwise its hits are rule 1's plus rule 2's count and the sum over its details, it has at most two details, all positive, a rule has a detail iff it flagged a row, and the dataset record names the CSV and gives its row count, its column count, the column-by-column null total, and a label map with no null key that is empty when there is no `Label` column |
| RuleEngine.AnalyzeDataset | ForensicCLI/core/analyzer.py:51-83 | the CSV branch's local `rule_hits` and `details` accumulators, with the early exit on the TypeError, compute the evaluation |
| ResultManager.PathString | ForensicCLI/core/result_manager.py:13 | `str(path)` is "." for the empty path and otherwise ends with the last component, preceded by "/" when there are several |
| ResultManager.ConvertPathsToStr | ForensicCLI/core/result_manager.py:6-15 | no path is reachable through dicts and lists of the result |
| ResultManager.ConvertUnchangedIffPathFree | ForensicCLI/core/result_manager.py:6-15 | the conversion leaves a value unchanged iff no path is reachable in it |
| ResultManager.ConvertIdempotent | ForensicCLI/core/result_manager.py:6-15 | converting twice equals converting once |
| ResultManager.ConvertPreservesShape | ForensicCLI/core/result_manager.py:8-15 | dicts keep their keys and lists their lengths at every depth; a path becomes its string; tuples and other values are returned unchanged |
| ResultManager.PathInTupleSurvives | ForensicCLI/core/result_manager.py:12-15 | a path inside a tuple is not converted |
| Analyzer.KindOfByEnding | ForensicCLI/core/analyzer.py:35-47 | a file is an image iff its lower-cased name ends with an image ending, and a CSV iff it ends with ".csv" |
| Analyzer.StatusTextsDiffer | ForensicCLI/core/analyzer.py:37-96 | the three status strings are distinct, and only a `Match` reads "MATCH" |
| Analyzer.EntryOf | ForensicCLI/core/analyzer.py:34-105 | a file adds at most one entry, about itself with its metadata; none iff it is a CSV or an unreadable other file; "IMAGE FILE" iff it is an image; the keyword flag holds iff the status is "MATCH" |
| Analyzer.AccumulatedInitially | ForensicCLI/core/analyzer.py:18-27 | the initial summary is what scanning no file accumulates |
| Analyzer.AnalyzeFile | ForensicCLI/core/analyzer.py:31-105 | one loop iteration changes the summary exactly as its branch prescribes: image count and entry, the CSV flag and the evaluation's hits, details and dataset record, or the keyword entry |
| Analyzer.AccumulatedStep | ForensicCLI/core/analyzer.py:30-105 | one iteration extends the accumulated fields from a prefix of the files to the next prefix |
| Analyzer.AnalyzeFiles | ForensicCLI/core/analyzer.py:17-105 | after the loop, `files_scanned` is the number of files, and the image count, CSV flag, matches, total hits, details and dataset summary are the accumulated values; the summary is consistent |
| Analyzer.AccumulatedIsConsistent | ForensicCLI/core/analyzer.py:30-105 | accumulated summaries have at most one match per file, as many image entries as images, well-formed entries, hits equal to the sum of the details, positive details, and no dataset data unless a CSV was found |
| Analyzer.MatchesProperties | ForensicCLI/core/analyzer.py:34-105 | each file adds at most one entry; entries are about scanned files, never about CSVs, are "IMAGE FILE" exactly for images with the keyword flag false, and are "MATCH" iff the keyword was found |
| Analyzer.KeywordEntry | ForensicCLI/core/analyzer.py:92-102 | a readable other file adds one entry with its metadata, whose flag holds iff the keyword is non-empty and occurs in the content ignoring case, and whose status is "MATCH" iff the flag holds |
| Analyzer.UnreadableAddsNoEntry | ForensicCLI/core/analyzer.py:104-105 | an unreadable other file adds no entry |
| Analyzer.FailedCsvOnlySetsFlag | ForensicCLI/core/analyzer.py:47-88 | a CSV that fails to load or to evaluate only sets `csv_found` |
| Analyzer.AnalysedIsLoadedCsv | ForensicCLI/core/analyzer.py:46-88 | what a file adds to the dataset part (`EvaluationOf`): only a loaded CSV yields an evaluation, and its dataset record names that CSV |
| Analyzer.EvaluationsComeFromCsvs | ForensicCLI/core/analyzer.py:46-88 | evaluations exist only if a CSV was scanned, and every one is sound (hits are the sum of at most two positive details) |
| Analyzer.DetailsMatchHits | ForensicCLI/core/analyzer.py:63-74 | over all evaluations, total hits equal the sum of the details, every detail is positive, and there are at most twice as many details as analysed CSVs |
| Analyzer.NoEvaluationsIffNoneAnalysed | ForensicCLI/core/analyzer.py:46-88 | no CSV is analysed iff no file yields an evaluation, and then the dataset summary stays empty |
| Analyzer.LastDatasetIsLastAnalysedCsv | ForensicCLI/core/analyzer.py:77-83 | once a CSV is analysed, the dataset summary is the record of the last analysed CSV, it names that file, and no later file was analysed |
| Analyzer.DefaultLoaderNeverYieldsCsv | ForensicCLI/core/analyzer.py:14-47 | a file the default loader returns is never classified as a CSV |
| Analyzer.AnalyzeDirectory | ForensicCLI/core/analyzer.py:10-115 | loader errors propagate, and an existing directory with matched files always gives a summary, since nothing in the loop raises; on success the summary is the scan of the matched files in path order: `files_scanned` is their number and every accumulated field (images, matches, CSV flag, hits, details, dataset) is what the loop yields over them; it is consistent, and with the default extensions `csv_found` is false, the dataset summary empty and there are no rule hits |
| Analyzer.ScanIsDeterministic | ForensicCLI/core/analyzer.py:14-105 | two summaries of scans of the same directory with the same file contents are equal |
| Analyzer.ScanLoaderKeepsCsv | ForensicCLI/core/file_loader.py:65-75 | a loader given the analyzer's extensions keeps every CSV file under the directory whose name has a stem |
| Analyzer.AnalyzeDirectoryWithCsv | ForensicCLI/core/analyzer.py:14 | with the loader given the extensions the analyzer handles, loader errors propagate, an existing directory with matched files always gives a summary, and on success the summary is the scan of the matched files in path order, so each matched CSV's evaluation enters the hits, details and dataset record, and `csv_found` holds iff a matched file is a CSV |

## Left out

- `guess_mime_type`: it wraps the `mimetypes` module and nothing in the core uses it.
- Metadata extraction, reading text with errors ignored, and `pandas.read_csv` are foreign calls. They are parameters of the `Environment` datatype: metadata is an opaque JSON value, a read either succeeds or fails, and a load gives a table or fails.
- Lower-casing is ASCII only. Python's Unicode `str.lower`, including characters whose lower-case form has a different length, is not modelled.
- Path order compares component lists, as `PurePath` comparison does on POSIX. How the root of an absolute path sorts is not modelled: the paths the loader sorts all share the directory's prefix.
- The filesystem has regular files and directories only: symbolic links, permissions, and special files are not modelled.
- `str(path)` is modelled as the components joined by "/", and path strings are not parsed. The loader takes the directory as a path.
- Table cells are null, integer or string. Float cells are not modelled, and neither are the float column pandas makes when an integer column holds nulls.
- Boolean cells, which `read_csv` makes from `True`/`False` columns, are not modelled; such a cell is flagged by neither rule. The label map is a map, so the descending-frequency order of `value_counts().to_dict()`, visible in the saved JSON, is not modelled.
- `read_csv` failures and the TypeError of rule 1 on a string cell are both "no evaluation". Other pandas exceptions inside the `try` are not modelled.
- A rule detail is a rule id plus a row count rather than the formatted description string.
- The set order of `SUSPICIOUS_ACTIONS` printed inside rule 2's description is not modelled.
- Keys of the label map are cell values, and dict keys in `ResultManager` are strings.
- JSON values other than dicts, lists, tuples and paths are atoms: strings, integers, booleans and None.
- All printing and logging, and the messages that carry the directory text, are left out; errors are the `LoadError` constructors.
- `main.py`, encryption, the PDF report, `save_results` file writing, and the helper scripts are I/O and are not part of this model.
- `supported_exts` is a set, since `set(...)` of the iterable drops order and duplicates. An empty generator is truthy, so the loader builds an empty set from it and `is_supported_file` falls back to the defaults; `LoaderExts(Some({}))` gives the same defaults directly.

## Findings

| source | as written | input that shows it | evidently intended | confidence | as-written member | corrected member |
|---|---|---|---|---|---|---|
| ForensicCLI/core/analyzer.py:14 | `analyze_files` calls the loader with its default extensions, which include neither ".csv" nor ".gif" and ".bmp"; its CSV branch (lines 46-88) can therefore never run | a case directory holding `a.txt` and `log.csv`: only `a.txt` is scanned and `csv_found` stays false; a directory holding only `log.csv` raises `NoFilesFoundError` | the loader is given the extensions the analyzer has branches for, so each CSV in the directory is analysed | medium, not executed | Analyzer.AnalyzeDirectory | Analyzer.AnalyzeDirectoryWithCsv |
