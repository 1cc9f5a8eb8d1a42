/**
 * The dataset part of the scan: a loaded CSV table, the two
 * suspicious-activity rules evaluated over its rows, and the dataset
 * summary (row, column and missing-cell counts and the `Label`
 * frequencies).
 *
 * A table is what `pandas.read_csv` produced: its column names and its
 * rows, each row a map from column name to cell value.
 */
module RuleEngine {
  import opened Wrappers
  import opened FileLoader

  datatype Value = Null | Int(n: int) | Str(s: string)

  type Row = map<string, Value>

  datatype Table = Table(columns: seq<string>, rows: seq<Row>)

  /** Actions that rule 2 flags. */
  const SuspiciousActions: set<string> := {"Delete", "Upload", "Privilege_Escalation"}

  /** Rule 1 flags rows with more login attempts than this. */
  const LoginThreshold: int := 5

  /** The value in column `col` of a row; a cell the row lacks reads as null. */
  function Cell(r: Row, col: string): Value
  {
    if col in r then r[col] else Null
  }

  /** The number of rows satisfying `p` (`len(df[mask])`). */
  function CountRows(rows: seq<Row>, p: Row -> bool): (n: nat)
    ensures n <= |rows|
  {
    if rows == [] then 0
    else CountRows(rows[..|rows| - 1], p) + (if p(rows[|rows| - 1]) then 1 else 0)
  }

  /** The indices of the rows satisfying `p`. */
  function Hits(rows: seq<Row>, p: Row -> bool): set<int>
  {
    set i | 0 <= i < |rows| && p(rows[i])
  }

  /** The count is the number of matching row indices. */
  lemma {:induction false} CountRowsIsHitCount(rows: seq<Row>, p: Row -> bool)
    ensures CountRows(rows, p) == |Hits(rows, p)|
  {
    if rows != [] {
      var n := |rows| - 1;
      CountRowsIsHitCount(rows[..n], p);
      var before := Hits(rows[..n], p);
      var last: set<int> := if p(rows[n]) then {n} else {};
      forall i | 0 <= i < n
        ensures (i in Hits(rows, p)) == (i in before)
      {
        assert rows[..n][i] == rows[i];
      }
      assert Hits(rows, p) == before + last;
      assert n !in before;
    }
  }

  /** `df["Login_Attempts"].fillna(0) > 5` for one row. */
  predicate ExcessiveLogins(r: Row)
    ensures ExcessiveLogins(r) ==> Cell(r, "Login_Attempts").Int? && Cell(r, "Login_Attempts").n > LoginThreshold
  {
    match Cell(r, "Login_Attempts")
    case Null => 0 > LoginThreshold
    case Int(n) => n > LoginThreshold
    case Str(_) => false
  }

  /** `df["Action"].isin(SUSPICIOUS_ACTIONS)` for one row. */
  predicate ForbiddenAction(r: Row)
    ensures ForbiddenAction(r) <==>
              Cell(r, "Action") in {Str("Delete"), Str("Upload"), Str("Privilege_Escalation")}
  {
    match Cell(r, "Action")
    case Str(s) => s in SuspiciousActions
    case _ => false
  }

  /**
   * Whether the comparison of rule 1 can be evaluated: comparing a
   * string cell with 5 raises `TypeError`.
   */
  predicate LoginAttemptsComparable(t: Table)
  {
    forall i :: 0 <= i < |t.rows| ==> !Cell(t.rows[i], "Login_Attempts").Str?
  }

  /** Rows flagged by rule 1; none when the column is absent. */
  function LoginHits(t: Table): nat
  {
    if "Login_Attempts" in t.columns then CountRows(t.rows, ExcessiveLogins) else 0
  }

  /** Rows flagged by rule 2; none when the column is absent. */
  function ActionHits(t: Table): nat
  {
    if "Action" in t.columns then CountRows(t.rows, ForbiddenAction) else 0
  }

  /**
   * Rule 1 counts the rows whose login cell is an integer above 5 (a null
   * reads as 0), and nothing when the table has no `Login_Attempts` column.
   */
  lemma LoginHitsCount(t: Table)
    ensures LoginHits(t) ==
              if "Login_Attempts" in t.columns then
                |set i | 0 <= i < |t.rows| && Cell(t.rows[i], "Login_Attempts").Int? && Cell(t.rows[i], "Login_Attempts").n > 5|
              else 0
  {
    CountRowsIsHitCount(t.rows, ExcessiveLogins);
    assert Hits(t.rows, ExcessiveLogins) ==
           set i | 0 <= i < |t.rows| && Cell(t.rows[i], "Login_Attempts").Int? && Cell(t.rows[i], "Login_Attempts").n > 5;
  }

  /**
   * Rule 2 counts the rows whose action is "Delete", "Upload" or
   * "Privilege_Escalation", and nothing when the table has no `Action` column.
   */
  lemma ActionHitsCount(t: Table)
    ensures ActionHits(t) ==
              if "Action" in t.columns then
                |set i | 0 <= i < |t.rows| && Cell(t.rows[i], "Action") in {Str("Delete"), Str("Upload"), Str("Privilege_Escalation")}|
              else 0
  {
    CountRowsIsHitCount(t.rows, ForbiddenAction);
    assert Hits(t.rows, ForbiddenAction) ==
           set i | 0 <= i < |t.rows| && Cell(t.rows[i], "Action") in {Str("Delete"), Str("Upload"), Str("Privilege_Escalation")};
  }

  /** Rule 1's description is "Login_Attempts > 5 : N rows", rule 2's "Action in [...] : N rows". */
  datatype RuleId = LoginAttemptsRule | ActionRule

  /** One entry of `rule_details`: the rule and how many rows it flagged. */
  datatype RuleHit = RuleHit(rule: RuleId, rows: nat)

  function SumRows(details: seq<RuleHit>): nat
  {
    if details == [] then 0 else SumRows(details[..|details| - 1]) + details[|details| - 1].rows
  }

  lemma {:induction false} SumRowsAppend(a: seq<RuleHit>, b: seq<RuleHit>)
    ensures SumRows(a + b) == SumRows(a) + SumRows(b)
    decreases |b|
  {
    if b == [] {
      assert a + b == a;
    } else {
      var n := |b| - 1;
      assert (a + b)[..|a + b| - 1] == a + b[..n];
      SumRowsAppend(a, b[..n]);
    }
  }

  /** Null cells of one row over the table's columns. */
  function NullsInRow(r: Row, columns: seq<string>): (n: nat)
    ensures n <= |columns|
  {
    if columns == [] then 0
    else NullsInRow(r, columns[..|columns| - 1]) + (if Cell(r, columns[|columns| - 1]) == Null then 1 else 0)
  }

  /** `int(df.isnull().sum().sum())`. */
  function MissingCells(rows: seq<Row>, columns: seq<string>): nat
  {
    if rows == [] then 0 else MissingCells(rows[..|rows| - 1], columns) + NullsInRow(rows[|rows| - 1], columns)
  }

  /** There are never more missing cells than cells. */
  lemma {:induction false} MissingCellsBound(rows: seq<Row>, columns: seq<string>)
    ensures MissingCells(rows, columns) <= |rows| * |columns|
  {
    if rows != [] {
      var n := |rows| - 1;
      MissingCellsBound(rows[..n], columns);
      assert |rows| * |columns| == n * |columns| + |columns|;
    }
  }

  /** `df[col].isnull().sum()`: the null cells of one column. */
  function ColumnNulls(rows: seq<Row>, col: string): (n: nat)
    ensures n <= |rows|
  {
    if rows == [] then 0
    else ColumnNulls(rows[..|rows| - 1], col) + (if Cell(rows[|rows| - 1], col) == Null then 1 else 0)
  }

  /** The per-column null counts summed over the columns, the order pandas adds them in. */
  function NullsByColumn(rows: seq<Row>, columns: seq<string>): nat
  {
    if columns == [] then 0
    else NullsByColumn(rows, columns[..|columns| - 1]) + ColumnNulls(rows, columns[|columns| - 1])
  }

  /** Adding a row adds its null cells to the column-wise total. */
  lemma {:induction false} NullsByColumnLastRow(rows: seq<Row>, columns: seq<string>)
    requires rows != []
    ensures NullsByColumn(rows, columns)
            == NullsByColumn(rows[..|rows| - 1], columns) + NullsInRow(rows[|rows| - 1], columns)
  {
    if columns != [] {
      NullsByColumnLastRow(rows, columns[..|columns| - 1]);
    }
  }

  /** Counting the missing cells row by row gives the column-by-column total. */
  lemma {:induction false} MissingCellsByColumn(rows: seq<Row>, columns: seq<string>)
    ensures MissingCells(rows, columns) == NullsByColumn(rows, columns)
  {
    if rows != [] {
      MissingCellsByColumn(rows[..|rows| - 1], columns);
      NullsByColumnLastRow(rows, columns);
    } else {
      NullsByColumnOfNoRows(columns);
    }
  }

  lemma {:induction false} NullsByColumnOfNoRows(columns: seq<string>)
    ensures NullsByColumn([], columns) == 0
  {
    if columns != [] {
      NullsByColumnOfNoRows(columns[..|columns| - 1]);
    }
  }

  /** The number of rows whose `Label` cell is `v`. */
  function LabelOccurrences(rows: seq<Row>, v: Value): nat
  {
    if rows == [] then 0
    else LabelOccurrences(rows[..|rows| - 1], v) + (if Cell(rows[|rows| - 1], "Label") == v then 1 else 0)
  }

  /** `df["Label"].value_counts().to_dict()`, built one row at a time; nulls are dropped. */
  function LabelCounts(rows: seq<Row>): map<Value, nat>
  {
    if rows == [] then map[]
    else
      var counts := LabelCounts(rows[..|rows| - 1]);
      var v := Cell(rows[|rows| - 1], "Label");
      if v == Null then counts
      else counts[v := (if v in counts then counts[v] else 0) + 1]
  }

  /** The label map holds exactly the non-null labels, each with its frequency. */
  lemma {:induction false} LabelCountsAreFrequencies(rows: seq<Row>, v: Value)
    ensures v in LabelCounts(rows) <==> v != Null && LabelOccurrences(rows, v) > 0
    ensures v in LabelCounts(rows) ==> LabelCounts(rows)[v] == LabelOccurrences(rows, v)
  {
    if rows != [] {
      LabelCountsAreFrequencies(rows[..|rows| - 1], v);
    }
  }

  /** `summary["dataset_summary"]`: absent (`{}`) until a CSV is analysed. */
  datatype DatasetSummary =
    | NoDataset
    | DatasetSummary(csvPath: Path, rows: nat, columns: nat, missingValues: nat, labelCounts: map<Value, nat>)

  /** What one analysed CSV adds to the scan summary. */
  datatype Evaluation = Evaluation(ruleHits: nat, details: seq<RuleHit>, dataset: DatasetSummary)

  /**
   * The body of the `try` for one loaded CSV: the rule evaluation and
   * the dataset summary, or `None` when rule 1's comparison raises.
   */
  function Evaluate(path: Path, t: Table): (r: Option<Evaluation>)
    ensures r.None? <==>
              "Login_Attempts" in t.columns && exists i :: 0 <= i < |t.rows| && Cell(t.rows[i], "Login_Attempts").Str?
    ensures r.Some? ==> r.value.dataset.DatasetSummary? && r.value.dataset.csvPath == path
  {
    if "Login_Attempts" in t.columns && !LoginAttemptsComparable(t) then None
    else Some(Evaluation(LoginHits(t) + ActionHits(t), RuleDetails(LoginHits(t), ActionHits(t)), DatasetOf(path, t)))
  }

  /** `summary["dataset_summary"]` as set from one loaded CSV. */
  function DatasetOf(path: Path, t: Table): DatasetSummary
  {
    var labels := if "Label" in t.columns then LabelCounts(t.rows) else map[];
    DatasetSummary(path, |t.rows|, |t.columns|, MissingCells(t.rows, t.columns), labels)
  }

  /** One detail entry per rule that flagged at least one row, in rule order. */
  function RuleDetails(login: nat, action: nat): seq<RuleHit>
  {
    (if login > 0 then [RuleHit(LoginAttemptsRule, login)] else [])
    + (if action > 0 then [RuleHit(ActionRule, action)] else [])
  }

  /**
   * An analysed CSV fails exactly when rule 1 meets a string; otherwise its
   * hit count is the sum of the two rules' counts and of its detail entries,
   * and a rule has an entry iff it flagged a row. Its dataset record
   * counts the rows, the columns and, column by column, the null cells,
   * and its label map is empty when there is no `Label` column.
   */
  lemma EvaluateProperties(path: Path, t: Table)
    ensures Evaluate(path, t).None? <==> "Login_Attempts" in t.columns && !LoginAttemptsComparable(t)
    ensures Evaluate(path, t).Some? ==>
              var e := Evaluate(path, t).value;
              && e.ruleHits == LoginHits(t) + ActionHits(t) == SumRows(e.details)
              && |e.details| <= 2 && (forall d :: d in e.details ==> d.rows > 0)
              && (RuleHit(LoginAttemptsRule, LoginHits(t)) in e.details <==> LoginHits(t) > 0)
              && (RuleHit(ActionRule, ActionHits(t)) in e.details <==> ActionHits(t) > 0)
              && e.dataset.DatasetSummary? && e.dataset.csvPath == path
              && e.dataset.rows == |t.rows| && e.dataset.columns == |t.columns|
              && e.dataset.missingValues == NullsByColumn(t.rows, t.columns)
              && ("Label" !in t.columns ==> e.dataset.labelCounts == map[])
              && ("Label" in t.columns ==> forall v :: v in e.dataset.labelCounts ==> v != Null)
  {
    var login, action := LoginHits(t), ActionHits(t);
    MissingCellsByColumn(t.rows, t.columns);
    if "Label" in t.columns {
      forall v | v in LabelCounts(t.rows)
        ensures v != Null
      {
        LabelCountsAreFrequencies(t.rows, v);
      }
    }
    SumRowsAppend(if login > 0 then [RuleHit(LoginAttemptsRule, login)] else [],
                  if action > 0 then [RuleHit(ActionRule, action)] else []);
  }

  /**
   * The CSV branch of `analyze_files` after a successful load: the
   * missing-value and label counts, then local `rule_hits` and `details`
   * accumulators updated rule by rule.
   */
  method AnalyzeDataset(path: Path, t: Table) returns (outcome: Option<Evaluation>)
    ensures outcome == Evaluate(path, t)
  {
    var missing := MissingCells(t.rows, t.columns);
    var labels := if "Label" in t.columns then LabelCounts(t.rows) else map[];
    var ruleHits := 0;
    var details: seq<RuleHit> := [];
    if "Login_Attempts" in t.columns {
      if !LoginAttemptsComparable(t) {
        assert Evaluate(path, t).None?;
        return None;
      }
      var hits := CountRows(t.rows, ExcessiveLogins);
      ruleHits := ruleHits + hits;
      if hits > 0 {
        details := details + [RuleHit(LoginAttemptsRule, hits)];
      }
    }
    ghost var loginDetails := details;
    assert ruleHits == LoginHits(t);
    assert loginDetails == (if LoginHits(t) > 0 then [RuleHit(LoginAttemptsRule, LoginHits(t))] else []);
    if "Action" in t.columns {
      var hits2 := CountRows(t.rows, ForbiddenAction);
      ruleHits := ruleHits + hits2;
      if hits2 > 0 {
        details := details + [RuleHit(ActionRule, hits2)];
      }
    }
    assert ruleHits == LoginHits(t) + ActionHits(t);
    assert details == loginDetails + (if ActionHits(t) > 0 then [RuleHit(ActionRule, ActionHits(t))] else []);
    var dataset := DatasetSummary(path, |t.rows|, |t.columns|, missing, labels);
    assert dataset == DatasetOf(path, t);
    outcome := Some(Evaluation(ruleHits, details, dataset));
  }

  /** Login attempts 1, 6, 10 and 0 with threshold 5: two rows are flagged. */
  lemma LoginExample()
    ensures var t := Table(["Login_Attempts"],
                           [map["Login_Attempts" := Int(1)], map["Login_Attempts" := Int(6)],
                            map["Login_Attempts" := Int(10)], map["Login_Attempts" := Int(0)]]);
            LoginHits(t) == 2
  {
    var rows := [map["Login_Attempts" := Int(1)], map["Login_Attempts" := Int(6)],
                 map["Login_Attempts" := Int(10)], map["Login_Attempts" := Int(0)]];
    assert rows[..3][..2][..1][..0] == [];
    assert CountRows(rows[..3][..2][..1], ExcessiveLogins) == 0;
    assert CountRows(rows[..3][..2], ExcessiveLogins) == 1;
    assert CountRows(rows[..3], ExcessiveLogins) == 2;
    assert CountRows(rows, ExcessiveLogins) == 2;
  }

  /** One "Delete" and one "Read" action: one row is flagged. */
  lemma ActionExample()
    ensures var t := Table(["Action"], [map["Action" := Str("Delete")], map["Action" := Str("Read")]]);
            ActionHits(t) == 1
  {
  }

  /** A null login count counts as 0 and is never flagged. */
  lemma NullLoginNotFlagged(r: Row)
    requires Cell(r, "Login_Attempts") == Null
    ensures !ExcessiveLogins(r)
  {
  }
}
