/**
 * The query loop of Legilimens._read_save (legilimens.py): every table of
 * QUERIES is queried in turn; a table that answers contributes the set of its
 * first-column values to `sql_data`, a table whose query raises
 * sqlite3.DatabaseError contributes its AFFECTED_TYPES categories to `errors`.
 * SQLite itself is not modelled: a database is a function from table to the
 * outcome of that table's fixed query.
 */
module RowSets {
  import opened Catalog

  /** The outcome of one table's query: the first-column values of its rows, or a DatabaseError. */
  datatype QueryResult = Rows(firstColumn: seq<string>) | QueryFailed

  type Database = Table -> QueryResult

  /** Python's `s.split(',')`: the segments between commas, empty ones included. */
  function Split(s: string): (segments: seq<string>)
    ensures |segments| >= 1
    ensures forall i :: 0 <= i < |segments| ==> ',' !in segments[i]
  {
    if s == [] then [""]
    else
      var rest := Split(s[1..]);
      if s[0] == ',' then [""] + rest
      else [[s[0]] + rest[0]] + rest[1..]
  }

  /** `','.join(segments)`: the inverse of Split. */
  function Join(segments: seq<string>): string
    requires |segments| >= 1
  {
    if |segments| == 1 then segments[0] else segments[0] + "," + Join(segments[1..])
  }

  lemma {:induction false} JoinSplit(s: string)
    ensures Join(Split(s)) == s
  {
    if s != [] {
      var rest := Split(s[1..]);
      JoinSplit(s[1..]);
      if s[0] == ',' {
        assert Split(s) == [""] + rest;
        assert ([""] + rest)[1..] == rest;
        assert s == "," + s[1..];
      } else if |rest| == 1 {
        assert s == [s[0]] + s[1..];
      } else {
        assert Join(rest) == rest[0] + "," + Join(rest[1..]);
        assert Split(s)[1..] == rest[1..];
        assert s == [s[0]] + s[1..];
      }
    }
  }

  /** Splitting text that starts with a comma-free part `a` puts `a` in front of the first segment. */
  lemma {:induction false} SplitAfterPlain(a: string, t: string)
    requires ',' !in a
    ensures Split(a + t) == [a + Split(t)[0]] + Split(t)[1..]
  {
    if a != [] {
      SplitAfterPlain(a[1..], t);
      assert (a + t)[1..] == a[1..] + t;
      assert (a + t)[0] == a[0];
      assert [a[0]] + (a[1..] + Split(t)[0]) == a + Split(t)[0];
    } else {
      assert a + t == t;
      assert a + Split(t)[0] == Split(t)[0];
      assert Split(t) == [Split(t)[0]] + Split(t)[1..];
    }
  }

  lemma {:induction false} SplitJoin(segments: seq<string>)
    requires |segments| >= 1
    requires forall i :: 0 <= i < |segments| ==> ',' !in segments[i]
    ensures Split(Join(segments)) == segments
  {
    var a := segments[0];
    if |segments| == 1 {
      SplitAfterPlain(a, "");
      assert a + "" == a;
    } else {
      var t := Join(segments[1..]);
      SplitJoin(segments[1..]);
      SplitAfterPlain(a, "," + t);
      assert ("," + t)[1..] == t;
      assert Split("," + t) == [""] + Split(t);
      assert a + "," + t == a + ("," + t);
      assert a + "" == a;
    }
  }

  /** Every value of the query's first column, as a set. */
  function FirstColumn(column: seq<string>): set<string> {
    set row | row in column
  }

  /** The comma-separated segments of every value, without the empty string. */
  function SplitRows(values: set<string>): set<string> {
    (set row, k | row in values && k in Split(row) :: k) - {""}
  }

  /** The row set stored in `sql_data` for a table that answered. */
  function RowSet(t: Table, column: seq<string>): set<string> {
    if t == AchievementDynamic then SplitRows(FirstColumn(column)) else FirstColumn(column)
  }

  /** A value of the AchievementDynamic row set is a non-empty, comma-free segment of some returned value. */
  lemma AchievementRowSet(column: seq<string>, v: string)
    ensures v in RowSet(AchievementDynamic, column) <==>
              v != "" && exists row, i :: row in column && 0 <= i < |Split(row)| && Split(row)[i] == v
    ensures v in RowSet(AchievementDynamic, column) ==> ',' !in v
  {
    if v in RowSet(AchievementDynamic, column) {
      var row, k :| row in column && k in Split(row) && k == v;
      var i :| 0 <= i < |Split(row)| && Split(row)[i] == v;
    }
    if v != "" && exists row, i :: row in column && 0 <= i < |Split(row)| && Split(row)[i] == v {
      var row, i :| row in column && 0 <= i < |Split(row)| && Split(row)[i] == v;
      assert row in FirstColumn(column) && v in Split(row);
    }
  }

  /** The example of the row format: a trailing comma leaves an empty last segment. */
  lemma SplitExample()
    ensures Split("PFA_1,PFA_2,") == ["PFA_1", "PFA_2", ""]
  {
    var segments := ["PFA_1", "PFA_2", ""];
    assert ',' !in segments[0] && ',' !in segments[1] && ',' !in segments[2];
    SplitJoin(segments);
    assert Join(segments[2..]) == "";
    assert Join(segments[1..]) == "PFA_2,";
    assert Join(segments) == "PFA_1,PFA_2,";
  }

  /** The AchievementDynamic row set of a single value: its non-empty segments. */
  lemma AchievementSingleRow(row: string)
    ensures RowSet(AchievementDynamic, [row]) == (set k | k in Split(row)) - {""}
  {
    assert FirstColumn([row]) == {row};
  }

  /** The empty segment is discarded from the AchievementDynamic row set. */
  lemma AchievementExample()
    ensures RowSet(AchievementDynamic, ["PFA_1,PFA_2,"]) == {"PFA_1", "PFA_2"}
  {
    AchievementSingleRow("PFA_1,PFA_2,");
    SplitExample();
    TwoSegmentsAndEmpty("PFA_1", "PFA_2");
  }

  lemma TwoSegmentsAndEmpty(a: string, b: string)
    requires a != "" && b != ""
    ensures (set k | k in [a, b, ""]) - {""} == {a, b}
  {
    assert (set k | k in [a, b, ""]) == {a, b, ""};
  }

  /** `sql_data` after querying `tables`: an entry for each table that answered. */
  function SqlDataOf(db: Database, tables: seq<Table>): map<Table, set<string>> {
    map t | t in tables && db(t).Rows? :: RowSet(t, db(t).firstColumn)
  }

  function SqlData(db: Database): map<Table, set<string>> {
    SqlDataOf(db, QueryOrder)
  }

  /** `errors` after querying `tables`: the affected categories of each failed table, in query order. */
  function TableErrorsOf(db: Database, tables: seq<Table>): seq<Category> {
    if tables == [] then []
    else
      var last := tables[|tables| - 1];
      TableErrorsOf(db, tables[..|tables| - 1]) + (if db(last).QueryFailed? then AffectedTypes(last) else [])
  }

  function TableErrors(db: Database): seq<Category> {
    TableErrorsOf(db, QueryOrder)
  }

  /** The AFFECTED_TYPES categories of `tables`, in order. */
  function AffectedCategories(tables: seq<Table>): seq<Category> {
    if tables == [] then [] else AffectedCategories(tables[..|tables| - 1]) + AffectedTypes(tables[|tables| - 1])
  }

  /** Querying `a` and then `b` reports the errors of `a` followed by those of `b`. */
  lemma {:induction false} TableErrorsOfAppend(db: Database, a: seq<Table>, b: seq<Table>)
    ensures TableErrorsOf(db, a + b) == TableErrorsOf(db, a) + TableErrorsOf(db, b)
  {
    if b == [] {
      assert a + b == a;
    } else {
      var init, last := b[..|b| - 1], b[|b| - 1];
      var step := if db(last).QueryFailed? then AffectedTypes(last) else [];
      TableErrorsOfAppend(db, a, init);
      assert (a + b)[..|a + b| - 1] == a + init;
      assert (a + b)[|a + b| - 1] == last;
      assert TableErrorsOf(db, a + b) == TableErrorsOf(db, a + init) + step;
      assert TableErrorsOf(db, b) == TableErrorsOf(db, init) + step;
    }
  }

  /** When every table in `tables` fails, all their categories are reported, in order. */
  lemma {:induction false} TableErrorsOfFailed(db: Database, tables: seq<Table>)
    requires forall i :: 0 <= i < |tables| ==> db(tables[i]).QueryFailed?
    ensures TableErrorsOf(db, tables) == AffectedCategories(tables)
  {
    if tables != [] {
      TableErrorsOfFailed(db, tables[..|tables| - 1]);
    }
  }

  /** A table is in `sql_data` exactly when its query succeeded, whatever happened to the other tables. */
  lemma SqlDataEntries(db: Database, t: Table)
    ensures t in SqlData(db) <==> db(t).Rows?
    ensures t in SqlData(db) ==> SqlData(db)[t] == RowSet(t, db(t).firstColumn)
  {
    QueryOrderComplete(t);
  }

  /** `len(sql_data) == 0` detects exactly the case where every table failed. */
  lemma TotalFailure(db: Database)
    ensures |SqlData(db)| == 0 <==> forall t :: db(t).QueryFailed?
  {
    if |SqlData(db)| == 0 {
      forall t ensures db(t).QueryFailed? {
        SqlDataEntries(db, t);
      }
    } else {
      var t :| t in SqlData(db);
    }
  }

  lemma {:induction false} TableErrorsOfEmpty(db: Database, tables: seq<Table>)
    ensures TableErrorsOf(db, tables) == [] <==> forall i :: 0 <= i < |tables| ==> db(tables[i]).Rows?
  {
    if tables != [] {
      var init := tables[..|tables| - 1];
      TableErrorsOfEmpty(db, init);
      assert forall i :: 0 <= i < |init| ==> init[i] == tables[i];
    }
  }

  /** No error is reported exactly when every table was read. */
  lemma NoErrorsIffAllRead(db: Database)
    ensures TableErrors(db) == [] <==> forall t :: db(t).Rows?
  {
    TableErrorsOfEmpty(db, QueryOrder);
    if TableErrors(db) == [] {
      forall t ensures db(t).Rows? {
        QueryOrderComplete(t);
        var i :| 0 <= i < |QueryOrder| && QueryOrder[i] == t;
      }
    }
  }

  lemma SqlDataOfSnoc(db: Database, tables: seq<Table>, t: Table)
    ensures SqlDataOf(db, tables + [t]) ==
              if db(t).Rows? then SqlDataOf(db, tables)[t := RowSet(t, db(t).firstColumn)] else SqlDataOf(db, tables)
  {
  }

  /** The query loop: each table in QUERIES order, a failure recorded and skipped. */
  method ReadTables(db: Database) returns (sqlData: map<Table, set<string>>, errors: seq<Category>)
    ensures sqlData == SqlData(db)
    ensures errors == TableErrors(db)
  {
    sqlData, errors := map[], [];
    for i := 0 to |QueryOrder|
      invariant sqlData == SqlDataOf(db, QueryOrder[..i])
      invariant errors == TableErrorsOf(db, QueryOrder[..i])
    {
      var table := QueryOrder[i];
      assert QueryOrder[..i + 1] == QueryOrder[..i] + [table];
      SqlDataOfSnoc(db, QueryOrder[..i], table);
      match db(table)
      case Rows(column) =>
        var rows := FirstColumn(column);
        if table == AchievementDynamic {
          rows := SplitRows(rows);
        }
        sqlData := sqlData[table := rows];
      case QueryFailed =>
        errors := errors + AffectedTypes(table);
    }
    assert QueryOrder[..|QueryOrder|] == QueryOrder;
  }
}
