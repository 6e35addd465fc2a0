/** The tabular data the consolidator works on: a spreadsheet read into a
    data frame, with an ordered list of column names and a sequence of rows.
    A row maps each column name to the cell value in that column. */
module Tables {

  /** A cell value as read from a spreadsheet. `Missing` is the empty cell
      (a data frame's NaN), which a left join also puts into every added
      column of a row that found no partner. */
  datatype Value = Missing | Text(text: string) | Number(number: real) | Boolean(flag: bool)

  type Row = map<string, Value>

  datatype Table = Table(columns: seq<string>, rows: seq<Row>)

  /** The names in a column list, as a set. */
  function ColumnSet(cols: seq<string>): set<string>
  {
    set c | c in cols
  }

  /** No column name occurs twice. */
  predicate Distinct(cols: seq<string>)
  {
    forall i, j :: 0 <= i < j < |cols| ==> cols[i] != cols[j]
  }

  /** A row has a value for exactly the columns of its table. */
  predicate RowFits(r: Row, cols: seq<string>)
  {
    r.Keys == ColumnSet(cols)
  }

  /** Every row has a value for exactly the given columns. */
  predicate RowsFit(rows: seq<Row>, cols: seq<string>)
  {
    forall i :: 0 <= i < |rows| ==> RowFits(rows[i], cols)
  }

  /** What every data frame satisfies: unique column names, and every row
      holding one value per column. */
  predicate WellFormed(t: Table)
  {
    Distinct(t.columns) && RowsFit(t.rows, t.columns)
  }

  /** Row `e` carries every column of row `l` with the same value. */
  predicate Keeps(e: Row, l: Row)
  {
    forall c :: c in l ==> c in e && e[c] == l[c]
  }

  /** Row `r` is a copy of one of `rows`: it keeps all of that row's values. */
  predicate CopyOfSome(r: Row, rows: seq<Row>)
  {
    exists i :: 0 <= i < |rows| && Keeps(r, rows[i])
  }

  /** Some row of `rows` is a copy of `l`. */
  predicate HasCopy(l: Row, rows: seq<Row>)
  {
    exists k :: 0 <= k < |rows| && Keeps(rows[k], l)
  }

  /** `a` is `b` with some elements left out, the rest in their order. */
  predicate IsSubsequence(a: seq<string>, b: seq<string>)
  {
    a == [] ||
    (b != [] && ((a[0] == b[0] && IsSubsequence(a[1..], b[1..])) || IsSubsequence(a, b[1..])))
  }

  /** Row `r` holds value `v` in column `key`: the exact equality the join uses
      to match keys, with no trimming or other normalisation. */
  predicate HasKey(r: Row, key: string, v: Value)
  {
    key in r && r[key] == v
  }

  /** No two rows of the table hold the same key value. */
  predicate UniqueKeys(t: Table, key: string)
  {
    forall i, j :: 0 <= i < |t.rows| && 0 <= j < |t.rows| && i != j && key in t.rows[i] && key in t.rows[j]
      ==> t.rows[i][key] != t.rows[j][key]
  }

  /** `Keeps` is transitive. */
  lemma KeepsTrans(a: Row, b: Row, c: Row)
    requires Keeps(a, b) && Keeps(b, c)
    ensures Keeps(a, c)
  {
  }

  /** Rows are copies of themselves. */
  lemma CopiesOfItself(rows: seq<Row>)
    ensures forall k :: 0 <= k < |rows| ==> CopyOfSome(rows[k], rows)
    ensures forall i :: 0 <= i < |rows| ==> HasCopy(rows[i], rows)
  {
    forall k | 0 <= k < |rows| ensures CopyOfSome(rows[k], rows) && HasCopy(rows[k], rows) {
      assert Keeps(rows[k], rows[k]);
    }
  }

  /** A copy of a row of `b`, where each row of `b` copies a row of `c`,
      copies a row of `c`. */
  lemma CopyTrans(x: Row, b: seq<Row>, c: seq<Row>)
    requires CopyOfSome(x, b)
    requires forall m :: 0 <= m < |b| ==> CopyOfSome(b[m], c)
    ensures CopyOfSome(x, c)
  {
    var m :| 0 <= m < |b| && Keeps(x, b[m]);
    var i :| 0 <= i < |c| && Keeps(b[m], c[i]);
    KeepsTrans(x, b[m], c[i]);
  }

  /** A row with a copy in `b`, where each row of `b` has a copy in `a`,
      has a copy in `a`. */
  lemma CoverTrans(y: Row, b: seq<Row>, a: seq<Row>)
    requires HasCopy(y, b)
    requires forall m :: 0 <= m < |b| ==> HasCopy(b[m], a)
    ensures HasCopy(y, a)
  {
    var m :| 0 <= m < |b| && Keeps(b[m], y);
    var k :| 0 <= k < |a| && Keeps(a[k], b[m]);
    KeepsTrans(a[k], b[m], y);
  }

  /** Copies of copies are copies: if every row of `a` copies one of `b`
      and every row of `b` one of `c`, every row of `a` copies one of `c`. */
  lemma CopiesCompose(a: seq<Row>, b: seq<Row>, c: seq<Row>)
    requires forall k :: 0 <= k < |a| ==> CopyOfSome(a[k], b)
    requires forall m :: 0 <= m < |b| ==> CopyOfSome(b[m], c)
    ensures forall k :: 0 <= k < |a| ==> CopyOfSome(a[k], c)
  {
    forall k | 0 <= k < |a| ensures CopyOfSome(a[k], c) {
      CopyTrans(a[k], b, c);
    }
  }

  /** If every row of `c` has a copy in `b` and every row of `b` one in `a`,
      every row of `c` has one in `a`. */
  lemma CoversCompose(a: seq<Row>, b: seq<Row>, c: seq<Row>)
    requires forall i :: 0 <= i < |c| ==> HasCopy(c[i], b)
    requires forall m :: 0 <= m < |b| ==> HasCopy(b[m], a)
    ensures forall i :: 0 <= i < |c| ==> HasCopy(c[i], a)
  {
    forall i | 0 <= i < |c| ensures HasCopy(c[i], a) {
      CoverTrans(c[i], b, a);
    }
  }
}
