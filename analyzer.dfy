/**
 * `analyze_files`: one pass over the discovered files that classifies
 * each by the ending of its lower-cased name, counts images, records a
 * match entry per image and per readable other file, and runs the rule
 * engine on every CSV, accumulating into one summary record.
 *
 * What the file system would answer (the metadata record, the text read
 * with errors ignored, the result of `pandas.read_csv`) is given by an
 * `Environment`.
 */
module Analyzer {
  import opened Wrappers
  import opened Text
  import opened FileLoader
  import opened RuleEngine
  import opened ResultManager

  datatype ReadResult = Read(content: string) | ReadFailed

  datatype TableLoad = Loaded(table: Table) | LoadFailed

  /** The answers of `extract_metadata`, `open(...).read()` and `pd.read_csv` for each path. */
  datatype Environment = Environment(extract: Path -> Json, read: Path -> ReadResult, load: Path -> TableLoad)

  const ImageEndings: seq<string> := [".jpg", ".jpeg", ".png", ".gif", ".bmp"]

  datatype FileKind = ImageKind | CsvKind | OtherKind

  /**
   * A file is an image iff its lower-cased name ends with one of the image
   * endings, and a CSV iff it ends with ".csv": no image ending ends in "csv".
   */
  lemma KindOfByEnding(p: Path)
    ensures KindOf(p) == ImageKind <==> exists e :: e in ImageEndings && EndsWith(Lower(Name(p)), e)
    ensures KindOf(p) == CsvKind <==> EndsWith(Lower(Name(p)), ".csv")
  {
    var name := Lower(Name(p));
    EndsWithAnyExists(name, ImageEndings);
    if EndsWith(name, ".csv") {
      var last := name[|name| - 1];
      assert last == ".csv"[3] == 'v';
      forall e | e in ImageEndings
        ensures !EndsWith(name, e)
      {
        assert e[|e| - 1] != 'v';
        if |e| <= |name| {
          assert name[|name| - |e|..][|e| - 1] == last;
        }
      }
    }
  }

  /** The branch of the loop a file takes, decided by its lower-cased base name. */
  function KindOf(p: Path): FileKind
  {
    var name := Lower(Name(p));
    if EndsWithAny(name, ImageEndings) then ImageKind
    else if EndsWith(name, ".csv") then CsvKind
    else OtherKind
  }

  datatype Status = ImageFile | Match | NoMatch {
    function Text(): string
    {
      match this
      case ImageFile => "IMAGE FILE"
      case Match => "MATCH"
      case NoMatch => "NO MATCH"
    }
  }

  /** The three statuses are told apart by their strings, and only `Match` reads "MATCH". */
  lemma StatusTextsDiffer(a: Status, b: Status)
    ensures a.Text() == b.Text() <==> a == b
    ensures a.Text() == "MATCH" <==> a == Match
  {
    assert "IMAGE FILE"[0] == 'I' && "MATCH"[0] == 'M' && "NO MATCH"[0] == 'N';
  }

  /** One element of `summary["matches"]`. */
  datatype MatchEntry = MatchEntry(file: Path, metadata: Json, keywordFound: bool, status: Status)

  /** The `summary` dict. */
  datatype Summary = Summary(
    directory: Path,
    filesScanned: nat,
    imagesFound: nat,
    csvFound: bool,
    datasetSummary: DatasetSummary,
    suspiciousRuleHits: nat,
    ruleDetails: seq<RuleHit>,
    matches: seq<MatchEntry>)

  /** `keyword.lower() in content.lower() if keyword else False`. */
  predicate KeywordFound(keyword: string, content: string)
  {
    |keyword| > 0 && Contains(Lower(content), Lower(keyword))
  }

  /** The match entry one file contributes: none for a CSV or an unreadable other file. */
  function EntryOf(env: Environment, keyword: string, p: Path): (r: seq<MatchEntry>)
    ensures |r| <= 1
    ensures r == [] <==> KindOf(p) == CsvKind || (KindOf(p) == OtherKind && env.read(p).ReadFailed?)
    ensures r != [] ==> r[0].file == p && r[0].metadata == env.extract(p)
    ensures r != [] ==> (r[0].status == ImageFile <==> KindOf(p) == ImageKind)
    ensures r != [] ==> (r[0].keywordFound <==> r[0].status == Match)
  {
    match KindOf(p)
    case ImageKind => [MatchEntry(p, env.extract(p), false, ImageFile)]
    case CsvKind => []
    case OtherKind =>
      match env.read(p)
      case ReadFailed => []
      case Read(content) =>
        var found := KeywordFound(keyword, content);
        [MatchEntry(p, env.extract(p), found, if found then Match else NoMatch)]
  }

  function Matches(env: Environment, keyword: string, files: seq<Path>): seq<MatchEntry>
  {
    if files == [] then []
    else Matches(env, keyword, files[..|files| - 1]) + EntryOf(env, keyword, files[|files| - 1])
  }

  function ImageCount(files: seq<Path>): nat
  {
    if files == [] then 0
    else ImageCount(files[..|files| - 1]) + (if KindOf(files[|files| - 1]) == ImageKind then 1 else 0)
  }

  predicate CsvFound(files: seq<Path>)
  {
    exists i :: 0 <= i < |files| && KindOf(files[i]) == CsvKind
  }

  /** What one file adds to the dataset part of the summary: only a loaded, evaluated CSV adds anything. */
  function EvaluationOf(env: Environment, p: Path): Option<Evaluation>
  {
    if KindOf(p) != CsvKind then None
    else match env.load(p)
      case LoadFailed => None
      case Loaded(t) => Evaluate(p, t)
  }

  /** What each file adds to the dataset part of the summary, file by file. */
  function Outcomes(env: Environment, files: seq<Path>): seq<Option<Evaluation>>
  {
    seq(|files|, i requires 0 <= i < |files| => EvaluationOf(env, files[i]))
  }

  /** The evaluations of the successfully analysed CSVs, in file order. */
  function Evaluations(env: Environment, files: seq<Path>): seq<Evaluation>
  {
    Somes(Outcomes(env, files))
  }

  function TotalHits(evals: seq<Evaluation>): nat
  {
    if evals == [] then 0 else TotalHits(evals[..|evals| - 1]) + evals[|evals| - 1].ruleHits
  }

  function AllDetails(evals: seq<Evaluation>): seq<RuleHit>
  {
    if evals == [] then [] else AllDetails(evals[..|evals| - 1]) + evals[|evals| - 1].details
  }

  /** `dataset_summary` is overwritten by each analysed CSV, so the last one wins. */
  function LastDataset(evals: seq<Evaluation>): DatasetSummary
  {
    if evals == [] then NoDataset else evals[|evals| - 1].dataset
  }

  /** The fields `analyze_files` accumulates, as they stand after scanning `files`. */
  predicate Accumulated(s: Summary, files: seq<Path>, keyword: string, env: Environment)
  {
    var evals := Evaluations(env, files);
    && s.imagesFound == ImageCount(files)
    && s.csvFound == CsvFound(files)
    && s.matches == Matches(env, keyword, files)
    && s.suspiciousRuleHits == TotalHits(evals)
    && s.ruleDetails == AllDetails(evals)
    && s.datasetSummary == LastDataset(evals)
  }

  /** How the loop body for `p` changes the summary. */
  predicate Step(s: Summary, next: Summary, p: Path, keyword: string, env: Environment)
  {
    && next.directory == s.directory && next.filesScanned == s.filesScanned
    && next.imagesFound == s.imagesFound + (if KindOf(p) == ImageKind then 1 else 0)
    && next.csvFound == (s.csvFound || KindOf(p) == CsvKind)
    && next.matches == s.matches + EntryOf(env, keyword, p)
    && match EvaluationOf(env, p)
       case None =>
         && next.suspiciousRuleHits == s.suspiciousRuleHits && next.ruleDetails == s.ruleDetails
         && next.datasetSummary == s.datasetSummary
       case Some(e) =>
         && next.suspiciousRuleHits == s.suspiciousRuleHits + e.ruleHits
         && next.ruleDetails == s.ruleDetails + e.details && next.datasetSummary == e.dataset
  }

  lemma CsvFoundAppend(files: seq<Path>, p: Path)
    ensures CsvFound(files + [p]) == (CsvFound(files) || KindOf(p) == CsvKind)
  {
    var all := files + [p];
    if KindOf(p) == CsvKind {
      assert all[|files|] == p;
    } else if CsvFound(files) {
      var k :| 0 <= k < |files| && KindOf(files[k]) == CsvKind;
      assert all[k] == files[k];
    } else {
      forall k | 0 <= k < |all|
        ensures KindOf(all[k]) != CsvKind
      {
        if k < |files| {
          assert all[k] == files[k];
        }
      }
    }
  }

  lemma EvaluationsAppend(env: Environment, files: seq<Path>, p: Path)
    ensures Evaluations(env, files + [p]) == Evaluations(env, files) + OptionToSeq(EvaluationOf(env, p))
  {
    var all := files + [p];
    var outcomes := Outcomes(env, all);
    assert outcomes[..|files|] == Outcomes(env, files);
    assert outcomes[|files|] == EvaluationOf(env, p);
  }

  function OptionToSeq<T>(o: Option<T>): seq<T>
  {
    match o
    case None => []
    case Some(v) => [v]
  }

  lemma ImageCountAppend(files: seq<Path>, p: Path)
    ensures ImageCount(files + [p]) == ImageCount(files) + (if KindOf(p) == ImageKind then 1 else 0)
  {
    assert (files + [p])[..|files|] == files;
  }

  lemma MatchesAppend(env: Environment, keyword: string, files: seq<Path>, p: Path)
    ensures Matches(env, keyword, files + [p]) == Matches(env, keyword, files) + EntryOf(env, keyword, p)
  {
    assert (files + [p])[..|files|] == files;
  }

  /** Folding one more optional evaluation into the dataset part of the summary. */
  lemma EvaluationFoldAppend(evals: seq<Evaluation>, o: Option<Evaluation>)
    ensures o.None? ==> evals + OptionToSeq(o) == evals
    ensures o.Some? ==> var all := evals + OptionToSeq(o);
              && TotalHits(all) == TotalHits(evals) + o.value.ruleHits
              && AllDetails(all) == AllDetails(evals) + o.value.details
              && LastDataset(all) == o.value.dataset
  {
    if o.Some? {
      assert (evals + [o.value])[..|evals|] == evals;
    }
  }

  /** One more file of the loop: the loop body extends what has been accumulated by that file. */
  lemma AccumulatedStep(s: Summary, next: Summary, files: seq<Path>, i: nat, keyword: string, env: Environment)
    requires i < |files|
    requires Accumulated(s, files[..i], keyword, env) && Step(s, next, files[i], keyword, env)
    ensures Accumulated(next, files[..i + 1], keyword, env)
  {
    var done, p := files[..i], files[i];
    assert files[..i + 1] == done + [p];
    ImageCountAppend(done, p);
    CsvFoundAppend(done, p);
    MatchesAppend(env, keyword, done, p);
    EvaluationsAppend(env, done, p);
    EvaluationFoldAppend(Evaluations(env, done), EvaluationOf(env, p));
  }

  /** The summary `analyze_files` starts from has accumulated nothing. */
  lemma AccumulatedInitially(s: Summary, keyword: string, env: Environment)
    requires s.imagesFound == 0 && !s.csvFound && s.datasetSummary == NoDataset
    requires s.suspiciousRuleHits == 0 && s.ruleDetails == [] && s.matches == []
    ensures Accumulated(s, [], keyword, env)
  {
    assert Outcomes(env, []) == [];
  }

  /** Loop body of `analyze_files` for one file. */
  method AnalyzeFile(summary: Summary, filePath: Path, keyword: string, env: Environment) returns (next: Summary)
    ensures Step(summary, next, filePath, keyword, env)
  {
    next := summary;
    var metadata := env.extract(filePath);
    var fileName := Lower(Name(filePath));
    if EndsWithAny(fileName, ImageEndings) {
      next := next.(imagesFound := next.imagesFound + 1,
                    matches := next.matches + [MatchEntry(filePath, metadata, false, ImageFile)]);
    } else if EndsWith(fileName, ".csv") {
      next := next.(csvFound := true);
      match env.load(filePath)
      case LoadFailed =>
      case Loaded(t) =>
        var outcome := AnalyzeDataset(filePath, t);
        match outcome
        case None =>
        case Some(e) =>
          next := next.(suspiciousRuleHits := next.suspiciousRuleHits + e.ruleHits,
                        ruleDetails := next.ruleDetails + e.details,
                        datasetSummary := e.dataset);
    } else {
      match env.read(filePath)
      case ReadFailed =>
      case Read(content) =>
        var containsKeyword := |keyword| > 0 && Contains(Lower(content), Lower(keyword));
        var status := if containsKeyword then Match else NoMatch;
        next := next.(matches := next.matches + [MatchEntry(filePath, metadata, containsKeyword, status)]);
    }
  }

  /** `analyze_files` over an explicit list of discovered files. */
  method AnalyzeFiles(directory: Path, files: seq<Path>, keyword: string, env: Environment) returns (summary: Summary)
    ensures summary.directory == directory && summary.filesScanned == |files|
    ensures Accumulated(summary, files, keyword, env)
    ensures Consistent(summary)
  {
    summary := Summary(directory, |files|, 0, false, NoDataset, 0, [], []);
    AccumulatedInitially(summary, keyword, env);
    assert files[..0] == [];
    var i := 0;
    while i < |files|
      invariant 0 <= i <= |files|
      invariant summary.directory == directory && summary.filesScanned == |files|
      invariant Accumulated(summary, files[..i], keyword, env)
    {
      var next := AnalyzeFile(summary, files[i], keyword, env);
      AccumulatedStep(summary, next, files, i, keyword, env);
      summary := next;
      i := i + 1;
    }
    assert files[..i] == files;
    AccumulatedIsConsistent(summary, files, keyword, env);
  }

  /** The number of entries with the given status. */
  function CountStatus(entries: seq<MatchEntry>, st: Status): nat
  {
    if entries == [] then 0
    else CountStatus(entries[..|entries| - 1], st) + (if entries[|entries| - 1].status == st then 1 else 0)
  }

  lemma {:induction false} CountStatusAppend(a: seq<MatchEntry>, b: seq<MatchEntry>, st: Status)
    ensures CountStatus(a + b, st) == CountStatus(a, st) + CountStatus(b, st)
    decreases |b|
  {
    if b == [] {
      assert a + b == a;
    } else {
      assert (a + b)[..|a + b| - 1] == a + b[..|b| - 1];
      CountStatusAppend(a, b[..|b| - 1], st);
    }
  }

  /** An entry as `analyze_files` writes it: never a CSV, images unmatched, "MATCH" iff the keyword was found. */
  predicate WellFormedEntry(m: MatchEntry)
  {
    && KindOf(m.file) != CsvKind
    && (m.status == ImageFile <==> KindOf(m.file) == ImageKind)
    && (m.status == ImageFile ==> !m.keywordFound)
    && (m.status == Match <==> m.keywordFound)
  }

  /**
   * Each file adds at most one entry, every entry is well formed and is
   * about one of the files, and the image entries are exactly the images.
   */
  lemma {:induction false} MatchesProperties(env: Environment, keyword: string, files: seq<Path>)
    ensures |Matches(env, keyword, files)| <= |files|
    ensures forall m :: m in Matches(env, keyword, files) ==> WellFormedEntry(m) && m.file in files
    ensures CountStatus(Matches(env, keyword, files), ImageFile) == ImageCount(files)
  {
    if files != [] {
      var init, last := files[..|files| - 1], files[|files| - 1];
      MatchesProperties(env, keyword, init);
      CountStatusAppend(Matches(env, keyword, init), EntryOf(env, keyword, last), ImageFile);
      var entry := EntryOf(env, keyword, last);
      assert CountStatus(entry, ImageFile) == if KindOf(last) == ImageKind then 1 else 0 by {
        if entry != [] {
          assert entry[..0] == [];
        }
      }
      forall m | m in Matches(env, keyword, files)
        ensures WellFormedEntry(m) && m.file in files
      {
        if m in Matches(env, keyword, init) {
          assert m.file in init;
        }
      }
    }
  }

  /**
   * A readable file that is neither an image nor a CSV gets one entry,
   * whose `keyword_found` holds iff the keyword is non-empty and occurs,
   * ignoring case, in the content.
   */
  lemma KeywordEntry(env: Environment, keyword: string, p: Path, content: string)
    requires KindOf(p) == OtherKind && env.read(p) == Read(content)
    ensures |EntryOf(env, keyword, p)| == 1
    ensures var m := EntryOf(env, keyword, p)[0];
            && m.file == p && m.metadata == env.extract(p)
            && (m.keywordFound <==> |keyword| > 0 && exists i :: OccursAt(Lower(content), Lower(keyword), i))
            && (m.status == Match <==> m.keywordFound)
  {
  }

  /** An unreadable other file adds no entry. */
  lemma UnreadableAddsNoEntry(env: Environment, keyword: string, p: Path)
    requires KindOf(p) == OtherKind && env.read(p) == ReadFailed
    ensures EntryOf(env, keyword, p) == []
  {
  }

  /** What `Evaluate` guarantees of every evaluation it produces. */
  predicate SoundEvaluation(e: Evaluation)
  {
    e.ruleHits == SumRows(e.details) && |e.details| <= 2 && forall d :: d in e.details ==> d.rows > 0
  }

  /** Only CSV-named files are evaluated, and every evaluation is sound. */
  lemma EvaluationsComeFromCsvs(env: Environment, files: seq<Path>)
    ensures Evaluations(env, files) == [] || CsvFound(files)
    ensures forall e :: e in Evaluations(env, files) ==> SoundEvaluation(e)
  {
    var outcomes := Outcomes(env, files);
    forall e | e in Evaluations(env, files)
      ensures SoundEvaluation(e) && CsvFound(files)
    {
      SomesFrom(outcomes, e);
      var i :| 0 <= i < |outcomes| && outcomes[i] == Some(e);
      EvaluateProperties(files[i], env.load(files[i]).table);
    }
    if Evaluations(env, files) != [] {
      assert Evaluations(env, files)[0] in Evaluations(env, files);
    }
  }

  /**
   * Over sound evaluations, the hit total is the sum of the detail
   * entries' row counts, each detail is positive and each evaluation
   * adds at most two.
   */
  lemma {:induction false} DetailsMatchHits(evals: seq<Evaluation>)
    requires forall e :: e in evals ==> SoundEvaluation(e)
    ensures TotalHits(evals) == SumRows(AllDetails(evals))
    ensures |AllDetails(evals)| <= 2 * |evals|
    ensures forall d :: d in AllDetails(evals) ==> d.rows > 0
  {
    if evals != [] {
      var init, last := evals[..|evals| - 1], evals[|evals| - 1];
      assert forall e :: e in init ==> e in evals;
      assert last in evals;
      DetailsMatchHits(init);
      SumRowsAppend(AllDetails(init), last.details);
    }
  }

  /** No CSV is analysed iff no file yields an evaluation; then the dataset summary stays empty. */
  lemma NoEvaluationsIffNoneAnalysed(env: Environment, files: seq<Path>)
    ensures Evaluations(env, files) == [] <==> forall i :: 0 <= i < |files| ==> EvaluationOf(env, files[i]).None?
    ensures Evaluations(env, files) == [] ==> LastDataset(Evaluations(env, files)) == NoDataset
  {
    SomesEmpty(Outcomes(env, files));
    assert forall i :: 0 <= i < |files| ==> Outcomes(env, files)[i] == EvaluationOf(env, files[i]);
  }

  /**
   * File `i` was the last one analysed: `dataset_summary` is its dataset
   * record, which names it, and no later file was analysed.
   */
  predicate LastAnalysed(env: Environment, files: seq<Path>, i: int)
  {
    && 0 <= i < |files| && EvaluationOf(env, files[i]).Some?
    && LastDataset(Evaluations(env, files)) == EvaluationOf(env, files[i]).value.dataset
    && LastDataset(Evaluations(env, files)).DatasetSummary?
    && LastDataset(Evaluations(env, files)).csvPath == files[i]
    && forall j :: i < j < |files| ==> EvaluationOf(env, files[j]).None?
  }

  /** Once some CSV has been analysed, `dataset_summary` describes the last one. */
  lemma LastDatasetIsLastAnalysedCsv(env: Environment, files: seq<Path>)
    requires Evaluations(env, files) != []
    ensures exists i :: LastAnalysed(env, files, i)
  {
    var outcomes := Outcomes(env, files);
    var i := SomesLast(outcomes);
    LastAnalysedAt(env, files, i);
  }

  /** The position of the last evaluation is the last analysed file. */
  lemma LastAnalysedAt(env: Environment, files: seq<Path>, i: int)
    requires Evaluations(env, files) != [] && 0 <= i < |Outcomes(env, files)|
    requires Outcomes(env, files)[i] == Some(Somes(Outcomes(env, files))[|Somes(Outcomes(env, files))| - 1])
    requires forall j :: i < j < |Outcomes(env, files)| ==> Outcomes(env, files)[j].None?
    ensures LastAnalysed(env, files, i)
  {
    var outcomes := Outcomes(env, files);
    var evals := Evaluations(env, files);
    var p := files[i];
    var last := evals[|evals| - 1];
    assert EvaluationOf(env, p) == Some(last);
    AnalysedIsLoadedCsv(env, p);
    forall j | i < j < |files|
      ensures EvaluationOf(env, files[j]).None?
    {
      assert outcomes[j] == EvaluationOf(env, files[j]);
    }
  }

  /** Only a loaded CSV yields an evaluation, and its dataset record names the CSV. */
  lemma AnalysedIsLoadedCsv(env: Environment, p: Path)
    requires EvaluationOf(env, p).Some?
    ensures KindOf(p) == CsvKind && env.load(p).Loaded?
    ensures EvaluationOf(env, p).value.dataset.DatasetSummary?
    ensures EvaluationOf(env, p).value.dataset.csvPath == p
  {
  }

  /**
   * A CSV that fails to load or to evaluate only sets `csv_found`; a CSV
   * never adds a match entry.
   */
  lemma FailedCsvOnlySetsFlag(s: Summary, next: Summary, p: Path, keyword: string, env: Environment)
    requires KindOf(p) == CsvKind && EvaluationOf(env, p).None?
    requires Step(s, next, p, keyword, env)
    ensures next == s.(csvFound := true)
  {
  }

  /** The summary's own invariants, which hold after every file of the loop. */
  predicate Consistent(s: Summary)
  {
    && |s.matches| <= s.filesScanned
    && CountStatus(s.matches, ImageFile) == s.imagesFound
    && (forall m :: m in s.matches ==> WellFormedEntry(m))
    && s.suspiciousRuleHits == SumRows(s.ruleDetails)
    && (forall d :: d in s.ruleDetails ==> d.rows > 0)
    && (!s.csvFound ==> s.datasetSummary == NoDataset && s.ruleDetails == [] && s.suspiciousRuleHits == 0)
  }

  lemma AccumulatedIsConsistent(s: Summary, files: seq<Path>, keyword: string, env: Environment)
    requires Accumulated(s, files, keyword, env) && s.filesScanned == |files|
    ensures Consistent(s)
  {
    MatchesProperties(env, keyword, files);
    EvaluationsComeFromCsvs(env, files);
    DetailsMatchHits(Evaluations(env, files));
  }

  /** `files` lists the set `matched` in path order, each path once: what the loader returns. */
  ghost predicate Enumerates(files: seq<Path>, matched: set<Path>)
  {
    Sorted(files) && Distinct(files) && forall p :: p in files <==> p in matched
  }

  /**
   * `s` is the summary of a scan of `directory` whose loader matched the
   * files with the extensions `exts`: every accumulated field is what the
   * loop leaves after going through those files in path order.
   */
  ghost predicate ScanOf(fs: FileSystem, directory: Path, exts: set<string>, keyword: string, env: Environment, s: Summary)
  {
    var matched := Matched(fs, directory, true, exts);
    && s.directory == directory && s.filesScanned == |matched|
    && exists files :: Enumerates(files, matched) && Accumulated(s, files, keyword, env)
  }

  /**
   * Two scans of the same directory with the same file contents give
   * equal summaries, whatever order the walk visits the tree in.
   */
  lemma ScanIsDeterministic(fs: FileSystem, directory: Path, exts: set<string>, keyword: string,
                            env: Environment, s: Summary, t: Summary)
    requires ScanOf(fs, directory, exts, keyword, env, s)
    requires ScanOf(fs, directory, exts, keyword, env, t)
    ensures s == t
  {
    var matched := Matched(fs, directory, true, exts);
    var files :| Enumerates(files, matched) && Accumulated(s, files, keyword, env);
    var others :| Enumerates(others, matched) && Accumulated(t, others, keyword, env);
    SortedDistinctUnique(files, others);
  }

  /** A file the default loader returns is never taken for a CSV. */
  lemma DefaultLoaderNeverYieldsCsv(fs: FileSystem, dir: Path, recursive: bool, p: Path)
    requires p in Matched(fs, dir, recursive, LoaderExts(None))
    ensures KindOf(p) != CsvKind
  {
    MatchedAreSupportedFiles(fs, dir, recursive, LoaderExts(None), p);
    DefaultSuffixIsNotCsv(Name(p));
  }

  /**
   * `analyze_files(directory, keyword)`: the loader with its defaults
   * (recursive, default extensions), then the scan. Its errors propagate;
   * with the default extensions no CSV is ever scanned.
   */
  method AnalyzeDirectory(fs: FileSystem, directory: Path, keyword: string, env: Environment)
    returns (r: Result<Summary, LoadError>)
    ensures directory !in fs ==> r == Failure(FileNotFound)
    ensures directory in fs && fs[directory].File? ==> r == Failure(NotADirectory)
    ensures directory in fs && fs[directory].Dir? && Matched(fs, directory, true, SupportedExts) == {} ==>
              r == Failure(NoFilesFound)
    ensures directory in fs && fs[directory].Dir? && Matched(fs, directory, true, SupportedExts) != {} ==>
              r.Success?
    ensures r.Success? ==>
              && r.value.directory == directory
              && |Matched(fs, directory, true, SupportedExts)| > 0
              && ScanOf(fs, directory, SupportedExts, keyword, env, r.value)
              && Consistent(r.value)
              && !r.value.csvFound && r.value.datasetSummary == NoDataset
              && r.value.suspiciousRuleHits == 0 && r.value.ruleDetails == []
  {
    var loaded := LoadFilesFromDirectory(fs, directory, true, None);
    match loaded
    case Failure(e) =>
      r := Failure(e);
    case Success(files) =>
      var summary := AnalyzeFiles(directory, files, keyword, env);
      forall i | 0 <= i < |files|
        ensures KindOf(files[i]) != CsvKind
      {
        DefaultLoaderNeverYieldsCsv(fs, directory, true, files[i]);
      }
      EvaluationsComeFromCsvs(env, files);
      assert Enumerates(files, Matched(fs, directory, true, SupportedExts));
      r := Success(summary);
  }

  /** The extensions `analyze_files` has a branch for: the loader's defaults, two more image types and CSV. */
  const ScanExts: set<string> := {".txt", ".pdf", ".jpg", ".jpeg", ".png", ".gif", ".bmp", ".csv"}

  /**
   * Given `ScanExts`, the loader keeps every CSV under the directory
   * whose name has something before ".csv".
   */
  lemma ScanLoaderKeepsCsv(fs: FileSystem, dir: Path, p: Path)
    requires p in fs && fs[p].File? && Under(dir, p, true)
    requires KindOf(p) == CsvKind && |Name(p)| > 4
    ensures p in Matched(fs, dir, true, LoaderExts(Some(ScanExts)))
  {
    var name, ext := Name(p), ".csv";
    var low := Lower(name);
    assert EndsWith(low, ext) && |low| > |ext|;
    assert |ext| == 4 && ext[0] == '.' && ext[1] == 'c' && ext[2] == 's' && ext[3] == 'v';
    SuffixOfDottedEnding(low, ext);
    SuffixOfLower(name);
    CsvInScanExts();
    assert Lower(Suffix(name)) in LoaderExts(Some(ScanExts));
    assert p in Candidates(fs, dir, true);
  }

  lemma CsvInScanExts()
    ensures ".csv" in LoaderExts(Some(ScanExts))
  {
    assert ".csv" in ScanExts;
    assert Lower(".csv") == ".csv" by {
      assert forall k :: 0 <= k < 4 ==> LowerChar(".csv"[k]) == ".csv"[k];
    }
  }

  /** A list of files holds a CSV iff the set it enumerates does. */
  lemma CsvFoundAmong(files: seq<Path>, matched: set<Path>)
    requires forall p :: p in files <==> p in matched
    ensures CsvFound(files) <==> exists p :: p in matched && KindOf(p) == CsvKind
  {
    if CsvFound(files) {
      var i :| 0 <= i < |files| && KindOf(files[i]) == CsvKind;
      assert files[i] in matched;
    }
    if exists p :: p in matched && KindOf(p) == CsvKind {
      var p :| p in matched && KindOf(p) == CsvKind;
      var i :| 0 <= i < |files| && files[i] == p;
    }
  }

  /**
   * `analyze_files` with the loader given the extensions it can analyse:
   * the same errors, and on success a CSV is found iff the directory holds
   * one, and the summary is the scan of the matched files in path order.
   */
  method AnalyzeDirectoryWithCsv(fs: FileSystem, directory: Path, keyword: string, env: Environment)
    returns (r: Result<Summary, LoadError>)
    ensures directory !in fs ==> r == Failure(FileNotFound)
    ensures directory in fs && fs[directory].File? ==> r == Failure(NotADirectory)
    ensures directory in fs && fs[directory].Dir? && Matched(fs, directory, true, LoaderExts(Some(ScanExts))) == {} ==>
              r == Failure(NoFilesFound)
    ensures directory in fs && fs[directory].Dir? && Matched(fs, directory, true, LoaderExts(Some(ScanExts))) != {} ==>
              r.Success?
    ensures r.Success? ==>
              && r.value.directory == directory
              && |Matched(fs, directory, true, LoaderExts(Some(ScanExts)))| > 0
              && ScanOf(fs, directory, LoaderExts(Some(ScanExts)), keyword, env, r.value)
              && Consistent(r.value)
              && (r.value.csvFound <==>
                    exists p :: p in Matched(fs, directory, true, LoaderExts(Some(ScanExts))) && KindOf(p) == CsvKind)
  {
    var loaded := LoadFilesFromDirectory(fs, directory, true, Some(ScanExts));
    match loaded
    case Failure(e) =>
      r := Failure(e);
    case Success(files) =>
      var summary := AnalyzeFiles(directory, files, keyword, env);
      CsvFoundAmong(files, Matched(fs, directory, true, LoaderExts(Some(ScanExts))));
      assert Enumerates(files, Matched(fs, directory, true, LoaderExts(Some(ScanExts))));
      r := Success(summary);
  }
}
