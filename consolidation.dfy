/** The consolidation of app.py:83-112: the main spreadsheet joined, one
    extra spreadsheet after another, on the reference column the user picked. */
module Consolidation {
  import opened Tables
  import opened Merge

  /** An uploaded extra file: a sheet `pd.read_excel` could read, or one it
      could not (a file that is not a valid workbook). */
  datatype Upload = Parsed(table: Table) | Unreadable

  /** What pressing the button yields: the consolidated table, or the one
      error message of app.py:111-112, which names the reference column. */
  datatype Outcome = Success(table: Table) | Failure(key: string)

  /** Every sheet that was read is a data frame: unique column labels (the
      reader renames repeated headers) and one value per column in each row. */
  predicate UploadsWellFormed(extras: seq<Upload>)
  {
    forall i :: 0 <= i < |extras| ==> extras[i].Parsed? ==> WellFormed(extras[i].table)
  }

  /** An extra file the loop can join on `key`: it was read, and it has the column. */
  predicate Usable(u: Upload, key: string)
  {
    u.Parsed? && key in u.table.columns
  }

  /** Every extra file can be joined on `key`. */
  predicate AllUsable(extras: seq<Upload>, key: string)
  {
    forall i :: 0 <= i < |extras| ==> Usable(extras[i], key)
  }

  /** The column labels of an upload; an unreadable file has none. */
  function ColumnsOf(u: Upload): seq<string>
  {
    if u.Parsed? then u.table.columns else []
  }

  /** Some extra file has column `c`. */
  predicate InSomeUpload(c: string, extras: seq<Upload>)
  {
    exists i :: 0 <= i < |extras| && c in ColumnsOf(extras[i])
  }

  /** Every extra file that was read holds each key value at most once. */
  predicate KeysUnique(extras: seq<Upload>, key: string)
  {
    forall i :: 0 <= i < |extras| ==> extras[i].Parsed? ==> UniqueKeys(extras[i].table, key)
  }

  /** The columns the consolidation ends with, computed on labels alone: the
      main table's, then each extra file's new non-key columns in that
      file's order, one file after another. */
  function FinalColumns(cols: seq<string>, extras: seq<Upload>, key: string): seq<string>
    decreases |extras|
  {
    if extras == [] then cols
    else FinalColumns(cols + Without(FilterCols(ColumnsOf(extras[0]), cols, key), key), extras[1..], key)
  }

  /** One pass of the loop body at app.py:88-92. Reading the file raises if it
      is unreadable; the merge raises if either side lacks the key. Any
      exception ends the whole operation with the error message. */
  function Step(acc: Table, u: Upload, key: string): (r: Outcome)
    requires WellFormed(acc)
    requires u.Parsed? ==> WellFormed(u.table)
    ensures r.Success? ==> WellFormed(r.table)
    ensures r.Success? ==> |acc.columns| <= |r.table.columns| && r.table.columns[..|acc.columns|] == acc.columns
    ensures r.Failure? <==> !Usable(u, key) || key !in acc.columns
    ensures r.Failure? ==> r.key == key
  {
    if !Usable(u, key) || key !in acc.columns then Failure(key)
    else Success(JoinExtra(acc, u.table, key))
  }

  /** The whole loop of app.py:85-92 from the accumulated table `acc` on:
      the first failing pass aborts everything, otherwise the table after
      the last pass. */
  function Fold(acc: Table, extras: seq<Upload>, key: string): (r: Outcome)
    requires WellFormed(acc) && UploadsWellFormed(extras)
    ensures r.Success? ==> WellFormed(r.table)
    ensures r.Success? ==> |acc.columns| <= |r.table.columns| && r.table.columns[..|acc.columns|] == acc.columns
    ensures r.Success? ==> |r.table.rows| >= |acc.rows|
    ensures r.Failure? ==> r == Failure(key)
    decreases |extras|
  {
    if extras == [] then Success(acc)
    else
      match Step(acc, extras[0], key)
      case Failure(k) => Failure(k)
      case Success(next) => Fold(next, extras[1..], key)
  }

  /** The button handler of app.py:83-112 without its display: copy the main
      table, then for each extra file read it, keep the columns that are new
      or the key, and left-join it onto the result. */
  method Consolidate(main: Table, extras: seq<Upload>, key: string) returns (r: Outcome)
    requires WellFormed(main) && UploadsWellFormed(extras)
    ensures r == Fold(main, extras, key)
  {
    var acc := main;
    var i := 0;
    while i < |extras|
      invariant 0 <= i <= |extras|
      invariant WellFormed(acc)
      invariant UploadsWellFormed(extras[i..])
      invariant Fold(main, extras, key) == Fold(acc, extras[i..], key)
    {
      assert extras[i..][0] == extras[i] && extras[i..][1..] == extras[i + 1..];
      if extras[i].Unreadable? {
        return Failure(key);
      }
      var temp := extras[i].table;
      var cols := FilterCols(temp.columns, acc.columns, key);
      if key !in acc.columns || key !in cols {
        return Failure(key);
      }
      acc := LeftJoin(acc, Project(temp, cols), key);
      i := i + 1;
    }
    assert extras[i..] == [];
    return Success(acc);
  }

  // ---------------------------------------------------------------------
  // Properties of the whole consolidation
  // ---------------------------------------------------------------------

  lemma UploadsTail(extras: seq<Upload>)
    requires UploadsWellFormed(extras) && extras != []
    ensures UploadsWellFormed(extras[1..])
    ensures extras[0].Parsed? ==> WellFormed(extras[0].table)
  {
    forall i | 0 <= i < |extras[1..]| && extras[1..][i].Parsed? ensures WellFormed(extras[1..][i].table) {
      assert extras[1..][i] == extras[i + 1];
    }
  }

  /** One pass of the loop, then the rest. */
  lemma FoldUnfold(acc: Table, extras: seq<Upload>, key: string)
    requires WellFormed(acc) && UploadsWellFormed(extras) && extras != []
    ensures UploadsWellFormed(extras[1..])
    ensures extras[0].Parsed? ==> WellFormed(extras[0].table)
    ensures Step(acc, extras[0], key).Failure? ==> Fold(acc, extras, key) == Failure(key)
    ensures Step(acc, extras[0], key).Success? ==>
      Fold(acc, extras, key) == Fold(Step(acc, extras[0], key).table, extras[1..], key)
  {
    UploadsTail(extras);
  }

  /** A column of a prefix of a column list is a column of the list. */
  lemma InPrefix(c: string, cols: seq<string>, longer: seq<string>)
    requires |cols| <= |longer| && longer[..|cols|] == cols
    ensures c in cols ==> c in longer
  {
    if c in cols {
      var j :| 0 <= j < |cols| && cols[j] == c;
      assert longer[j] == c;
    }
  }

  /** The operation fails exactly when there is at least one extra file and
      the key is not a column of the main table, or some extra file cannot
      be read or lacks the key; with no extra file the loop does nothing. */
  lemma {:induction false} FoldFailsIff(acc: Table, extras: seq<Upload>, key: string)
    requires WellFormed(acc) && UploadsWellFormed(extras)
    ensures Fold(acc, extras, key).Failure? <==>
      |extras| > 0 && (key !in acc.columns || !AllUsable(extras, key))
    decreases |extras|
  {
    if extras != [] {
      FoldUnfold(acc, extras, key);
      var s := Step(acc, extras[0], key);
      if s.Success? {
        var rest := extras[1..];
        FoldFailsIff(s.table, rest, key);
        InPrefix(key, acc.columns, s.table.columns);
        if !AllUsable(extras, key) {
          var i :| 0 <= i < |extras| && !Usable(extras[i], key);
          assert rest[i - 1] == extras[i];
        }
        if !AllUsable(rest, key) {
          var j :| 0 <= j < |rest| && !Usable(rest[j], key);
          assert extras[j + 1] == rest[j];
        }
        if rest == [] {
          assert AllUsable(extras, key);
        }
      }
    }
  }

  /** On success the result has the columns `FinalColumns` computes, with no
      label twice: a column is in the result exactly when the main table or
      some extra file has it, and the main table's columns come first. */
  lemma {:induction false} FoldColumns(acc: Table, extras: seq<Upload>, key: string)
    requires WellFormed(acc) && UploadsWellFormed(extras)
    ensures var r := Fold(acc, extras, key);
      r.Success? ==>
        && r.table.columns == FinalColumns(acc.columns, extras, key)
        && Distinct(r.table.columns)
        && (forall c :: c in r.table.columns <==> c in acc.columns || InSomeUpload(c, extras))
    decreases |extras|
  {
    if extras != [] {
      FoldUnfold(acc, extras, key);
      var s := Step(acc, extras[0], key);
      if s.Success? {
        var t := extras[0].table;
        var rest := extras[1..];
        JoinExtraColumns(acc, t, key);
        FoldColumns(s.table, rest, key);
        var r := Fold(acc, extras, key);
        if r.Success? {
          forall c ensures c in r.table.columns <==> c in acc.columns || InSomeUpload(c, extras) {
            if InSomeUpload(c, extras) && c !in acc.columns {
              var i :| 0 <= i < |extras| && c in ColumnsOf(extras[i]);
              if i > 0 {
                assert rest[i - 1] == extras[i];
              }
            }
            if InSomeUpload(c, rest) {
              var j :| 0 <= j < |rest| && c in ColumnsOf(rest[j]);
              assert extras[j + 1] == rest[j];
            }
          }
        }
      }
    } else {
      assert !InSomeUpload(key, extras);
    }
  }

  /** On success no row is invented and none is lost: every result row is a
      copy of a main row, carrying all of its values, and every main row has
      at least one copy in the result. */
  lemma {:induction false} FoldRowsKept(acc: Table, extras: seq<Upload>, key: string)
    requires WellFormed(acc) && UploadsWellFormed(extras)
    ensures var r := Fold(acc, extras, key);
      r.Success? ==>
        && (forall k :: 0 <= k < |r.table.rows| ==> CopyOfSome(r.table.rows[k], acc.rows))
        && (forall i :: 0 <= i < |acc.rows| ==> HasCopy(acc.rows[i], r.table.rows))
    decreases |extras|
  {
    var r := Fold(acc, extras, key);
    if extras == [] {
      CopiesOfItself(acc.rows);
    } else {
      FoldUnfold(acc, extras, key);
      var s := Step(acc, extras[0], key);
      if s.Success? {
        var next := s.table;
        JoinExtraRowsKept(acc, extras[0].table, key);
        FoldRowsKept(next, extras[1..], key);
        if r.Success? {
          CopiesCompose(r.table.rows, next.rows, acc.rows);
          CoversCompose(r.table.rows, next.rows, acc.rows);
        }
      }
    }
  }

  lemma KeysUniqueTail(extras: seq<Upload>, key: string)
    requires KeysUnique(extras, key) && extras != []
    ensures KeysUnique(extras[1..], key)
  {
    var rest := extras[1..];
    forall i | 0 <= i < |rest| && rest[i].Parsed? ensures UniqueKeys(rest[i].table, key) {
      assert rest[i] == extras[i + 1];
    }
  }

  /** When every extra file holds each key value at most once, a successful
      consolidation keeps the main table's rows, in number and order: row i
      of the result carries all of row i's values of the main table. */
  lemma {:induction false} FoldUniqueKeys(acc: Table, extras: seq<Upload>, key: string)
    requires WellFormed(acc) && UploadsWellFormed(extras)
    requires KeysUnique(extras, key)
    ensures var r := Fold(acc, extras, key);
      r.Success? ==>
        && |r.table.rows| == |acc.rows|
        && (forall i :: 0 <= i < |acc.rows| ==> Keeps(r.table.rows[i], acc.rows[i]))
    decreases |extras|
  {
    var r := Fold(acc, extras, key);
    if extras != [] {
      FoldUnfold(acc, extras, key);
      var s := Step(acc, extras[0], key);
      if s.Success? {
        var next := s.table;
        var rest := extras[1..];
        JoinExtraUniqueKeys(acc, extras[0].table, key);
        KeysUniqueTail(extras, key);
        FoldUniqueKeys(next, rest, key);
        if r.Success? {
          forall i | 0 <= i < |acc.rows| ensures Keeps(r.table.rows[i], acc.rows[i]) {
            KeepsTrans(r.table.rows[i], next.rows[i], acc.rows[i]);
          }
        }
      }
    }
  }

  /** Row `row` holds, in column `c`, what a left join on `key` takes from
      the uniquely keyed `rows` for key value `v`: the value of the row
      holding `v`, or `Missing` if none does. */
  predicate TakesValue(row: Row, c: string, rows: seq<Row>, key: string, v: Value)
  {
    && (forall e :: 0 <= e < |rows| && HasKey(rows[e], key, v) ==> Cell(row, c) == Cell(rows[e], c))
    && ((forall e :: 0 <= e < |rows| ==> !HasKey(rows[e], key, v)) ==> Cell(row, c) == Missing)
  }

  /** The round that adds column `c` fills it in row i from the extra file. */
  lemma RoundAddsValue(acc: Table, t: Table, key: string, i: nat, c: string)
    requires WellFormed(acc) && WellFormed(t)
    requires key in acc.columns && key in t.columns && UniqueKeys(t, key)
    requires i < |acc.rows| && c in t.columns && c !in acc.columns
    ensures var next := JoinExtra(acc, t, key);
      && |next.rows| == |acc.rows|
      && c in next.rows[i]
      && TakesValue(next.rows[i], c, t.rows, key, Cell(acc.rows[i], key))
  {
    var next := JoinExtra(acc, t, key);
    JoinExtraColumns(acc, t, key);
    JoinExtraUniqueKeys(acc, t, key);
    assert c in AddedColumns(acc, t, key);
    assert c in next.columns;
  }

  /** A round whose file lacks column `c` leaves `c` out and keeps row i's key. */
  lemma RoundSkipsColumn(acc: Table, t: Table, key: string, i: nat, c: string)
    requires WellFormed(acc) && WellFormed(t)
    requires key in acc.columns && key in t.columns && UniqueKeys(t, key)
    requires i < |acc.rows| && c !in t.columns && c !in acc.columns
    ensures var next := JoinExtra(acc, t, key);
      && |next.rows| == |acc.rows|
      && c !in next.columns
      && Cell(next.rows[i], key) == Cell(acc.rows[i], key)
  {
    JoinExtraColumns(acc, t, key);
    JoinExtraUniqueKeys(acc, t, key);
  }

  /** A row that keeps another's values agrees with it in a column it has. */
  lemma TakesValueKept(r: Row, n: Row, c: string, rows: seq<Row>, key: string, v: Value)
    requires Keeps(r, n) && c in n
    requires TakesValue(n, c, rows, key, v)
    ensures TakesValue(r, c, rows, key, v)
  {
    assert Cell(r, c) == Cell(n, c);
  }

  /** If no file before position j has column `c`, the first one lacks it and
      none of the rest before position j does. */
  lemma NotInEarlierFiles(c: string, extras: seq<Upload>, j: nat)
    requires 0 < j <= |extras| && !InSomeUpload(c, extras[..j])
    ensures c !in ColumnsOf(extras[0])
    ensures !InSomeUpload(c, extras[1..][..j - 1])
  {
    assert extras[..j][0] == extras[0];
    var rest := extras[1..][..j - 1];
    forall m | 0 <= m < |rest| ensures c !in ColumnsOf(rest[m]) {
      assert rest[m] == extras[..j][m + 1];
    }
  }

  /** The file that first has column `c` fills it, and the later rounds keep it. */
  lemma FoldValueFirst(acc: Table, extras: seq<Upload>, key: string, i: nat, c: string)
    requires WellFormed(acc) && UploadsWellFormed(extras)
    requires KeysUnique(extras, key)
    requires i < |acc.rows| && 0 < |extras|
    requires extras[0].Parsed? && c in extras[0].table.columns && c !in acc.columns
    ensures var r := Fold(acc, extras, key);
      r.Success? ==>
        && |r.table.rows| == |acc.rows|
        && TakesValue(r.table.rows[i], c, extras[0].table.rows, key, Cell(acc.rows[i], key))
  {
    var r := Fold(acc, extras, key);
    FoldUnfold(acc, extras, key);
    var s := Step(acc, extras[0], key);
    if s.Success? {
      var next := s.table;
      KeysUniqueTail(extras, key);
      FoldUniqueKeys(next, extras[1..], key);
      if r.Success? {
        RoundAddsValue(acc, extras[0].table, key, i, c);
        TakesValueKept(r.table.rows[i], next.rows[i], c, extras[0].table.rows, key, Cell(acc.rows[i], key));
      }
    }
  }

  /** A round before the first file with column `c` passes the question on
      to the rest of the files. */
  lemma FoldValueSkip(acc: Table, extras: seq<Upload>, key: string, i: nat, j: nat, c: string)
    requires WellFormed(acc) && UploadsWellFormed(extras)
    requires KeysUnique(extras, key)
    requires i < |acc.rows| && 0 < j < |extras|
    requires c !in acc.columns && !InSomeUpload(c, extras[..j])
    requires Step(acc, extras[0], key).Success?
    ensures var next := Step(acc, extras[0], key).table;
      var rest := extras[1..];
      && WellFormed(next) && UploadsWellFormed(rest) && KeysUnique(rest, key)
      && |next.rows| == |acc.rows| && rest[j - 1] == extras[j]
      && c !in next.columns && !InSomeUpload(c, rest[..j - 1])
      && Cell(next.rows[i], key) == Cell(acc.rows[i], key)
      && Fold(acc, extras, key) == Fold(next, rest, key)
  {
    FoldUnfold(acc, extras, key);
    KeysUniqueTail(extras, key);
    NotInEarlierFiles(c, extras, j);
    RoundSkipsColumn(acc, extras[0].table, key, i, c);
  }

  /** First writer wins, over the whole consolidation. Take a column `c`
      that the main table lacks and that extra file j is the first to have.
      When every extra file holds each key value at most once, a successful
      consolidation gives row i, in column `c`, the value of the row of file
      j holding row i's key, or `Missing` if file j has no such row. */
  lemma {:induction false} FoldValue(acc: Table, extras: seq<Upload>, key: string, i: nat, j: nat, c: string)
    requires WellFormed(acc) && UploadsWellFormed(extras)
    requires KeysUnique(extras, key)
    requires i < |acc.rows| && j < |extras|
    requires extras[j].Parsed? && c in extras[j].table.columns
    requires c !in acc.columns && !InSomeUpload(c, extras[..j])
    ensures var r := Fold(acc, extras, key);
      r.Success? ==>
        && |r.table.rows| == |acc.rows|
        && TakesValue(r.table.rows[i], c, extras[j].table.rows, key, Cell(acc.rows[i], key))
    decreases |extras|
  {
    if j == 0 {
      FoldValueFirst(acc, extras, key, i, c);
    } else {
      FoldUnfold(acc, extras, key);
      if Step(acc, extras[0], key).Success? {
        var next := Step(acc, extras[0], key).table;
        var rest := extras[1..];
        FoldValueSkip(acc, extras, key, i, j, c);
        FoldValue(next, rest, key, i, j - 1, c);
      }
    }
  }
}
