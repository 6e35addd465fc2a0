/** One round of the consolidation: the column filter of app.py:91 and the
    left outer join of app.py:92 (`pd.merge(..., on=key, how="left")`). */
module Merge {
  import opened Tables

  /** The column filter of app.py:91: the extra table's columns, in their
      order, that the accumulated result does not have yet, plus the key. */
  function FilterCols(cols: seq<string>, present: seq<string>, key: string): (kept: seq<string>)
    ensures forall c :: c in kept <==> c in cols && (c !in present || c == key)
    ensures IsSubsequence(kept, cols)
    ensures Distinct(cols) ==> Distinct(kept)
    decreases |cols|
  {
    if cols == [] then []
    else
      var rest := FilterCols(cols[1..], present, key);
      if cols[0] !in present || cols[0] == key then [cols[0]] + rest else rest
  }

  /** The columns a merge on `key` takes from the right table: all but the key. */
  function Without(cols: seq<string>, key: string): (rest: seq<string>)
    ensures forall c :: c in rest <==> c in cols && c != key
    ensures IsSubsequence(rest, cols)
    ensures Distinct(cols) ==> Distinct(rest)
    decreases |cols|
  {
    if cols == [] then []
    else
      var tail := Without(cols[1..], key);
      if cols[0] != key then
        assert Distinct(cols) ==> cols[0] !in cols[1..];
        assert ([cols[0]] + tail)[1..] == tail;
        [cols[0]] + tail
      else tail
  }

  /** A row cut down to the given columns. */
  function Select(r: Row, cols: seq<string>): Row
  {
    map c | c in r && c in cols :: r[c]
  }

  /** `df_temp[cols_to_use]`: the table cut down to some of its columns.
      Selecting a column the table lacks raises in the source; every caller
      here selects existing columns. */
  function Project(t: Table, cols: seq<string>): (p: Table)
    requires forall c :: c in cols ==> c in t.columns
    ensures WellFormed(t) && Distinct(cols) ==> WellFormed(p)
    ensures p.columns == cols && |p.rows| == |t.rows|
    ensures WellFormed(t) ==> forall i, c :: 0 <= i < |t.rows| && c in cols ==> c in p.rows[i] && c in t.rows[i] && p.rows[i][c] == t.rows[i][c]
  {
    Table(cols, seq(|t.rows|, i requires 0 <= i < |t.rows| => Select(t.rows[i], cols)))
  }

  /** The positions, from `from` on, of the rows whose `key` holds `v`, in
      ascending order: the partners of a left row with key value `v`. */
  function MatchIndices(rows: seq<Row>, key: string, v: Value, from: nat): (ix: seq<nat>)
    requires from <= |rows|
    ensures forall j :: 0 <= j < |ix| ==> from <= ix[j] < |rows| && HasKey(rows[ix[j]], key, v)
    ensures forall k :: from <= k < |rows| && HasKey(rows[k], key, v) ==> k in ix
    ensures forall i, j :: 0 <= i < j < |ix| ==> ix[i] < ix[j]
    decreases |rows| - from
  {
    if from == |rows| then []
    else
      var rest := MatchIndices(rows, key, v, from + 1);
      if HasKey(rows[from], key, v) then [from] + rest else rest
  }

  /** The value of a row in a column, or `Missing` if it has none. */
  function Cell(r: Row, c: string): Value
  {
    if c in r then r[c] else Missing
  }

  /** A left row widened by the added columns, taking their values from the
      partner row `m`; an unmatched row is widened with `m == map[]`, which
      gives `Missing` in every added column. */
  function Extend(l: Row, added: seq<string>, m: Row): Row
  {
    l + map c | c in added :: Cell(m, c)
  }

  /** What the left join emits for one left row: one widened copy per
      matching right row, in right-table order, or a single copy with
      `Missing` in every added column when nothing matches. */
  function Expand(l: Row, right: Table, key: string, added: seq<string>): (copies: seq<Row>)
    requires key in l
    requires forall c :: c in added ==> c !in l
    ensures forall j :: 0 <= j < |copies| ==> copies[j].Keys == l.Keys + ColumnSet(added) && Keeps(copies[j], l)
    ensures var ix := MatchIndices(right.rows, key, l[key], 0);
      && |copies| == (if ix == [] then 1 else |ix|)
      && (ix == [] ==> forall c :: c in added ==> Cell(copies[0], c) == Missing)
      && (forall j, c :: 0 <= j < |ix| && c in added ==> Cell(copies[j], c) == Cell(right.rows[ix[j]], c))
  {
    var ix := MatchIndices(right.rows, key, l[key], 0);
    if ix == [] then [Extend(l, added, map[])]
    else seq(|ix|, j requires 0 <= j < |ix| => Extend(l, added, right.rows[ix[j]]))
  }

  /** The rows of the left join: the expansions of the left rows, in order. */
  function LeftJoinRows(lrows: seq<Row>, right: Table, key: string, cols: seq<string>, added: seq<string>): (out: seq<Row>)
    requires key in cols
    requires RowsFit(lrows, cols)
    requires forall c :: c in added ==> c !in cols
    ensures |out| >= |lrows|
    ensures RowsFit(out, cols + added)
    decreases |lrows|
  {
    if lrows == [] then []
    else
      var first := Expand(lrows[0], right, key, added);
      assert ColumnSet(cols + added) == ColumnSet(cols) + ColumnSet(added);
      first + LeftJoinRows(lrows[1..], right, key, cols, added)
  }

  /** `pd.merge(left, right, on=key, how="left")` where the two tables share
      no column but the key (the column filter guarantees it, so the
      suffixes pandas would give clashing names never arise). The result has
      the left columns in their order, then the right's other columns in theirs. */
  function LeftJoin(left: Table, right: Table, key: string): (joined: Table)
    requires WellFormed(left) && WellFormed(right)
    requires key in left.columns && key in right.columns
    requires forall c :: c in right.columns && c != key ==> c !in left.columns
    ensures WellFormed(joined)
    ensures joined.columns == left.columns + Without(right.columns, key)
    ensures |joined.rows| >= |left.rows|
  {
    var added := Without(right.columns, key);
    var cols := left.columns + added;
    assert Distinct(cols) by {
      forall i, j | 0 <= i < j < |cols| ensures cols[i] != cols[j] {
        if j < |left.columns| {
        } else if i >= |left.columns| {
          assert cols[i] == added[i - |left.columns|] && cols[j] == added[j - |left.columns|];
        } else {
          assert cols[j] in added;
        }
      }
    }
    Table(cols, LeftJoinRows(left.rows, right, key, left.columns, added))
  }

  /** One iteration of the loop at app.py:87-92: filter the extra table's
      columns against the accumulated result, then left-join the two. */
  function JoinExtra(acc: Table, extra: Table, key: string): (out: Table)
    requires WellFormed(acc) && WellFormed(extra)
    requires key in acc.columns && key in extra.columns
    ensures WellFormed(out)
    ensures |acc.columns| <= |out.columns| && out.columns[..|acc.columns|] == acc.columns
    ensures |out.rows| >= |acc.rows|
  {
    var kept := FilterCols(extra.columns, acc.columns, key);
    LeftJoin(acc, Project(extra, kept), key)
  }

  /** The columns a round adds: the extra table's non-key columns that the
      accumulated result does not have. */
  function AddedColumns(acc: Table, extra: Table, key: string): seq<string>
  {
    Without(FilterCols(extra.columns, acc.columns, key), key)
  }

  /** How many rows the left join emits: one per matching right row for each
      left row, and one for a left row that matches nothing. */
  function JoinedCount(lrows: seq<Row>, rrows: seq<Row>, key: string): nat
    requires forall i :: 0 <= i < |lrows| ==> key in lrows[i]
    decreases |lrows|
  {
    if lrows == [] then 0
    else
      var ix := MatchIndices(rrows, key, lrows[0][key], 0);
      (if ix == [] then 1 else |ix|) + JoinedCount(lrows[1..], rrows, key)
  }

  // ---------------------------------------------------------------------
  // Properties of one round
  // ---------------------------------------------------------------------

  /** A slice of fitting rows fits. */
  lemma RowsFitSlice(rows: seq<Row>, cols: seq<string>, lo: nat, hi: nat)
    requires RowsFit(rows, cols) && lo <= hi <= |rows|
    ensures RowsFit(rows[lo..hi], cols)
  {
    forall k | 0 <= k < hi - lo ensures RowFits(rows[lo..hi][k], cols) {
      assert rows[lo..hi][k] == rows[lo + k];
    }
  }

  /** Two sequences of fitting rows fit together. */
  lemma RowsFitConcat(a: seq<Row>, b: seq<Row>, cols: seq<string>)
    requires RowsFit(a, cols) && RowsFit(b, cols)
    ensures RowsFit(a + b, cols)
  {
    forall k | 0 <= k < |a + b| ensures RowFits((a + b)[k], cols) {
      if k >= |a| { assert (a + b)[k] == b[k - |a|]; }
    }
  }

  lemma {:induction false} AddedIsSubsequence(cols: seq<string>, present: seq<string>, key: string)
    ensures IsSubsequence(Without(FilterCols(cols, present, key), key), cols)
    decreases |cols|
  {
    if cols != [] {
      AddedIsSubsequence(cols[1..], present, key);
      var rest := FilterCols(cols[1..], present, key);
      if cols[0] !in present || cols[0] == key {
        assert ([cols[0]] + rest)[1..] == rest;
        assert FilterCols(cols, present, key) == [cols[0]] + rest;
        if cols[0] != key {
          assert Without([cols[0]] + rest, key) == [cols[0]] + Without(rest, key);
        } else {
          assert Without([cols[0]] + rest, key) == Without(rest, key);
        }
      }
    }
  }

  /** The result's columns are the accumulated columns in their order followed
      by exactly the extra table's new non-key columns, in the extra table's
      order, with no name twice. */
  lemma JoinExtraColumns(acc: Table, extra: Table, key: string)
    requires WellFormed(acc) && WellFormed(extra)
    requires key in acc.columns && key in extra.columns
    ensures var out := JoinExtra(acc, extra, key);
      && out.columns == acc.columns + AddedColumns(acc, extra, key)
      && Distinct(out.columns)
      && IsSubsequence(AddedColumns(acc, extra, key), extra.columns)
      && (forall c :: c in AddedColumns(acc, extra, key) <==> c in extra.columns && c !in acc.columns && c != key)
  {
    AddedIsSubsequence(extra.columns, acc.columns, key);
  }

  /** Two row sequences that agree on which rows hold `v` give the same matches. */
  lemma {:induction false} MatchIndicesSame(rows1: seq<Row>, rows2: seq<Row>, key: string, v: Value, from: nat)
    requires |rows1| == |rows2| && from <= |rows1|
    requires forall k :: from <= k < |rows1| ==> HasKey(rows1[k], key, v) == HasKey(rows2[k], key, v)
    ensures MatchIndices(rows1, key, v, from) == MatchIndices(rows2, key, v, from)
    decreases |rows1| - from
  {
    if from < |rows1| {
      MatchIndicesSame(rows1, rows2, key, v, from + 1);
    }
  }

  /** Looking up matches in the projected extra table finds the same rows as
      in the extra table itself, since the projection keeps the key. */
  lemma MatchIndicesProject(t: Table, cols: seq<string>, key: string, v: Value, from: nat)
    requires WellFormed(t) && key in cols && (forall c :: c in cols ==> c in t.columns)
    requires from <= |t.rows|
    ensures MatchIndices(Project(t, cols).rows, key, v, from) == MatchIndices(t.rows, key, v, from)
  {
    var p := Project(t, cols);
    forall k | from <= k < |t.rows| ensures HasKey(p.rows[k], key, v) == HasKey(t.rows[k], key, v) {
      assert key in p.rows[k] && key in t.rows[k] && p.rows[k][key] == t.rows[k][key];
    }
    MatchIndicesSame(p.rows, t.rows, key, v, from);
  }

  /** Past a point where no row holds `v`, nothing matches. */
  lemma {:induction false} NoMatchFrom(rows: seq<Row>, key: string, v: Value, from: nat)
    requires from <= |rows|
    requires forall k :: from <= k < |rows| ==> !HasKey(rows[k], key, v)
    ensures MatchIndices(rows, key, v, from) == []
    decreases |rows| - from
  {
    if from < |rows| {
      NoMatchFrom(rows, key, v, from + 1);
    }
  }

  /** If the right table's keys are unique, no left row has two partners. */
  lemma {:induction false} UniqueKeysMatchFrom(right: Table, key: string, v: Value, from: nat)
    requires UniqueKeys(right, key) && from <= |right.rows|
    ensures |MatchIndices(right.rows, key, v, from)| <= 1
    decreases |right.rows| - from
  {
    if from < |right.rows| {
      UniqueKeysMatchFrom(right, key, v, from + 1);
      if HasKey(right.rows[from], key, v) {
        NoMatchFrom(right.rows, key, v, from + 1);
      }
    }
  }

  lemma UniqueKeysAtMostOneMatch(right: Table, key: string, v: Value)
    requires UniqueKeys(right, key)
    ensures |MatchIndices(right.rows, key, v, 0)| <= 1
  {
    UniqueKeysMatchFrom(right, key, v, 0);
  }

  /** Projecting a table onto columns that include the key keeps its keys unique. */
  lemma ProjectUniqueKeys(t: Table, cols: seq<string>, key: string)
    requires WellFormed(t) && key in cols && (forall c :: c in cols ==> c in t.columns)
    requires UniqueKeys(t, key)
    ensures UniqueKeys(Project(t, cols), key)
  {
    var p := Project(t, cols);
    forall i, j | 0 <= i < |p.rows| && 0 <= j < |p.rows| && i != j && key in p.rows[i] && key in p.rows[j]
      ensures p.rows[i][key] != p.rows[j][key]
    {
      assert p.rows[i][key] == t.rows[i][key] && p.rows[j][key] == t.rows[j][key];
    }
  }

  lemma {:induction false} LeftJoinRowsUnique(lrows: seq<Row>, right: Table, key: string, cols: seq<string>, added: seq<string>)
    requires key in cols
    requires RowsFit(lrows, cols)
    requires forall c :: c in added ==> c !in cols
    requires UniqueKeys(right, key)
    ensures forall i :: 0 <= i < |lrows| ==> key in lrows[i] && forall c :: c in added ==> c !in lrows[i]
    ensures var out := LeftJoinRows(lrows, right, key, cols, added);
      |out| == |lrows| &&
      forall i :: 0 <= i < |lrows| ==> out[i] == Expand(lrows[i], right, key, added)[0]
    decreases |lrows|
  {
    if lrows != [] {
      var rest := lrows[1..];
      RowsFitSlice(lrows, cols, 1, |lrows|);
      LeftJoinRowsUnique(rest, right, key, cols, added);
      UniqueKeysAtMostOneMatch(right, key, lrows[0][key]);
      var first := Expand(lrows[0], right, key, added);
      var tail := LeftJoinRows(rest, right, key, cols, added);
      assert |first| == 1;
      var out := LeftJoinRows(lrows, right, key, cols, added);
      assert out == first + tail;
      forall i | 0 <= i < |lrows| ensures out[i] == Expand(lrows[i], right, key, added)[0] {
        if i > 0 {
          assert out[i] == tail[i - 1];
          assert lrows[i] == rest[i - 1];
        }
      }
    }
  }

  /** The row a uniquely keyed right table gives one left row `l`: `l` with,
      in each added column, the value of the extra row holding the same key,
      or `Missing` if no extra row does. */
  lemma ExpandUnique(l: Row, extra: Table, kept: seq<string>, key: string, added: seq<string>)
    requires WellFormed(extra) && key in kept && (forall c :: c in kept ==> c in extra.columns)
    requires forall c :: c in added ==> c in kept
    requires UniqueKeys(extra, key)
    requires key in l && (forall c :: c in added ==> c !in l)
    ensures var e := Expand(l, Project(extra, kept), key, added)[0];
      && Keeps(e, l)
      && (forall j, c :: 0 <= j < |extra.rows| && c in added && HasKey(extra.rows[j], key, l[key])
            ==> Cell(e, c) == Cell(extra.rows[j], c))
      && (forall c :: c in added && (forall j :: 0 <= j < |extra.rows| ==> !HasKey(extra.rows[j], key, l[key]))
            ==> Cell(e, c) == Missing)
  {
    ExpandProject(l, extra, kept, key, added);
    UniqueKeysAtMostOneMatch(extra, key, l[key]);
    var ix := MatchIndices(extra.rows, key, l[key], 0);
    var copies := Expand(l, Project(extra, kept), key, added);
    forall j, c | 0 <= j < |extra.rows| && c in added && HasKey(extra.rows[j], key, l[key])
      ensures Cell(copies[0], c) == Cell(extra.rows[j], c)
    {
      assert j in ix;
    }
    if ix != [] {
      assert HasKey(extra.rows[ix[0]], key, l[key]);
    }
  }

  /** With unique keys in the extra table, the round keeps the accumulated
      result's row count and order: row i of the result carries row i's
      values in every old column (so also its key), and in each added column
      the value of the extra row with the same key, or `Missing` if none. */
  lemma JoinExtraUniqueKeys(acc: Table, extra: Table, key: string)
    requires WellFormed(acc) && WellFormed(extra)
    requires key in acc.columns && key in extra.columns
    requires UniqueKeys(extra, key)
    ensures var out := JoinExtra(acc, extra, key);
      && out.columns == acc.columns + AddedColumns(acc, extra, key)
      && |out.rows| == |acc.rows|
      && (forall i :: 0 <= i < |acc.rows| ==> Keeps(out.rows[i], acc.rows[i]))
      && (forall i, j, c ::
            0 <= i < |acc.rows| && 0 <= j < |extra.rows| && c in AddedColumns(acc, extra, key) &&
            HasKey(extra.rows[j], key, Cell(acc.rows[i], key))
            ==> Cell(out.rows[i], c) == Cell(extra.rows[j], c))
      && (forall i, c ::
            0 <= i < |acc.rows| && c in AddedColumns(acc, extra, key) &&
            (forall j :: 0 <= j < |extra.rows| ==> !HasKey(extra.rows[j], key, Cell(acc.rows[i], key)))
            ==> Cell(out.rows[i], c) == Missing)
  {
    var kept := FilterCols(extra.columns, acc.columns, key);
    var right := Project(extra, kept);
    var added := AddedColumns(acc, extra, key);
    var out := JoinExtra(acc, extra, key);
    assert out.rows == LeftJoinRows(acc.rows, right, key, acc.columns, added);
    ProjectUniqueKeys(extra, kept, key);
    LeftJoinRowsUnique(acc.rows, right, key, acc.columns, added);
    forall i | 0 <= i < |acc.rows|
      ensures Keeps(out.rows[i], acc.rows[i])
      ensures forall j, c ::
            0 <= j < |extra.rows| && c in added && HasKey(extra.rows[j], key, Cell(acc.rows[i], key))
            ==> Cell(out.rows[i], c) == Cell(extra.rows[j], c)
      ensures forall c ::
            c in added && (forall j :: 0 <= j < |extra.rows| ==> !HasKey(extra.rows[j], key, Cell(acc.rows[i], key)))
            ==> Cell(out.rows[i], c) == Missing
    {
      ExpandUnique(acc.rows[i], extra, kept, key, added);
    }
  }

  /** Splitting the left rows splits the join's rows the same way. */
  lemma {:induction false} LeftJoinRowsAppend(a: seq<Row>, b: seq<Row>, right: Table, key: string, cols: seq<string>, added: seq<string>)
    requires key in cols
    requires RowsFit(a, cols) && RowsFit(b, cols)
    requires forall c :: c in added ==> c !in cols
    ensures RowsFit(a + b, cols)
    ensures LeftJoinRows(a + b, right, key, cols, added)
         == LeftJoinRows(a, right, key, cols, added) + LeftJoinRows(b, right, key, cols, added)
    decreases |a|
  {
    RowsFitConcat(a, b, cols);
    if a != [] {
      var rest := a[1..];
      RowsFitSlice(a, cols, 1, |a|);
      assert (a + b)[1..] == rest + b;
      assert (a + b)[0] == a[0];
      LeftJoinRowsAppend(rest, b, right, key, cols, added);
    } else {
      assert a + b == b;
    }
  }

  lemma {:induction false} LeftJoinRowsCount(lrows: seq<Row>, extra: Table, kept: seq<string>, key: string, cols: seq<string>, added: seq<string>)
    requires WellFormed(extra) && key in kept && (forall c :: c in kept ==> c in extra.columns)
    requires key in cols
    requires RowsFit(lrows, cols)
    requires forall c :: c in added ==> c !in cols
    ensures forall i :: 0 <= i < |lrows| ==> key in lrows[i]
    ensures |LeftJoinRows(lrows, Project(extra, kept), key, cols, added)| == JoinedCount(lrows, extra.rows, key)
    decreases |lrows|
  {
    if lrows != [] {
      var rest := lrows[1..];
      RowsFitSlice(lrows, cols, 1, |lrows|);
      MatchIndicesProject(extra, kept, key, lrows[0][key], 0);
      LeftJoinRowsCount(rest, extra, kept, key, cols, added);
    }
  }

  /** Left row i contributes its expansion between the rows of the left rows
      before it and those after it. */
  lemma LeftJoinRowsBlock(lrows: seq<Row>, right: Table, key: string, cols: seq<string>, added: seq<string>, i: nat)
    requires key in cols
    requires RowsFit(lrows, cols)
    requires forall c :: c in added ==> c !in cols
    requires i < |lrows|
    ensures RowsFit(lrows[..i], cols) && RowsFit(lrows[i + 1..], cols)
    ensures key in lrows[i] && forall c :: c in added ==> c !in lrows[i]
    ensures LeftJoinRows(lrows, right, key, cols, added)
         == LeftJoinRows(lrows[..i], right, key, cols, added)
          + Expand(lrows[i], right, key, added)
          + LeftJoinRows(lrows[i + 1..], right, key, cols, added)
  {
    var l := lrows[i];
    var before, rest := lrows[..i], lrows[i + 1..];
    RowsFitSlice(lrows, cols, 0, i);
    RowsFitSlice(lrows, cols, i + 1, |lrows|);
    assert lrows[0..i] == before && lrows[i + 1..|lrows|] == rest;
    assert RowsFit([l], cols);
    var single: seq<Row> := [l];
    assert lrows == before + (single + rest);
    LeftJoinRowsAppend(single, rest, right, key, cols, added);
    LeftJoinRowsAppend(before, single + rest, right, key, cols, added);
    assert LeftJoinRows(single, right, key, cols, added) == Expand(l, right, key, added) by {
      assert single[1..] == [];
    }
  }

  /** `copies` are what a left join makes of row `l` when `ix` lists the
      rows of `rrows` whose key matches: one copy per match, or a single one
      when there is none; every copy keeps `l`'s values; the j-th copy carries,
      in each added column, the value of the j-th matching row; a lone
      unmatched copy has `Missing` there. */
  predicate CopiesOf(copies: seq<Row>, l: Row, ix: seq<nat>, rrows: seq<Row>, added: seq<string>)
  {
    && (forall j :: 0 <= j < |ix| ==> ix[j] < |rrows|)
    && |copies| == (if ix == [] then 1 else |ix|)
    && (forall k :: 0 <= k < |copies| ==> Keeps(copies[k], l))
    && (ix == [] ==> forall c :: c in added ==> Cell(copies[0], c) == Missing)
    && (forall j, c :: 0 <= j < |ix| && c in added ==> Cell(copies[j], c) == Cell(rrows[ix[j]], c))
  }

  /** `block` occurs in `all` at position `start`. */
  predicate PlacedAt(all: seq<Row>, start: nat, block: seq<Row>)
  {
    start + |block| <= |all| && forall k :: 0 <= k < |block| ==> all[start + k] == block[k]
  }

  /** Rows `start` onwards of `out` are the copies a left join makes of row
      `l`, in the terms of `CopiesOf`. */
  predicate IsBlock(out: seq<Row>, start: nat, l: Row, ix: seq<nat>, rrows: seq<Row>, added: seq<string>)
  {
    && (forall j :: 0 <= j < |ix| ==> ix[j] < |rrows|)
    && start + (if ix == [] then 1 else |ix|) <= |out|
    && (forall k :: start <= k < start + (if ix == [] then 1 else |ix|) ==> Keeps(out[k], l))
    && (ix == [] ==> forall c :: c in added ==> Cell(out[start], c) == Missing)
    && (forall k, c :: start <= k < start + |ix| && c in added ==> Cell(out[k], c) == Cell(rrows[ix[k - start]], c))
  }

  /** The copies the projected extra table gives a left row, told in terms of
      the extra table itself. */
  lemma ExpandProject(l: Row, extra: Table, kept: seq<string>, key: string, added: seq<string>)
    requires WellFormed(extra) && key in kept && (forall c :: c in kept ==> c in extra.columns)
    requires forall c :: c in added ==> c in kept
    requires key in l && (forall c :: c in added ==> c !in l)
    ensures CopiesOf(Expand(l, Project(extra, kept), key, added), l, MatchIndices(extra.rows, key, l[key], 0), extra.rows, added)
  {
    var right := Project(extra, kept);
    MatchIndicesProject(extra, kept, key, l[key], 0);
    var ix := MatchIndices(extra.rows, key, l[key], 0);
    forall j, c | 0 <= j < |ix| && c in added
      ensures Cell(right.rows[ix[j]], c) == Cell(extra.rows[ix[j]], c)
    {
    }
  }

  lemma BlockAt(all: seq<Row>, start: nat, front: seq<Row>, block: seq<Row>, back: seq<Row>)
    requires all == front + block + back && start == |front|
    ensures PlacedAt(all, start, block)
  {
  }

  /** Copies placed at position `start` of `out` form a block of `out` there. */
  lemma BlockFacts(out: seq<Row>, start: nat, copies: seq<Row>, l: Row, ix: seq<nat>, rrows: seq<Row>, added: seq<string>)
    requires PlacedAt(out, start, copies) && CopiesOf(copies, l, ix, rrows, added)
    ensures IsBlock(out, start, l, ix, rrows, added)
  {
    forall k | start <= k < start + |copies| ensures out[k] == copies[k - start] {
      assert out[start + (k - start)] == copies[k - start];
    }
  }

  /** Where left row i's copies sit among the rows of the left join. */
  lemma LeftJoinRowsCopiesAt(lrows: seq<Row>, extra: Table, kept: seq<string>, key: string, cols: seq<string>, added: seq<string>, i: nat)
    requires WellFormed(extra) && key in kept && (forall c :: c in kept ==> c in extra.columns)
    requires key in cols
    requires RowsFit(lrows, cols)
    requires forall c :: c in added ==> c !in cols
    requires i < |lrows|
    ensures forall k :: 0 <= k < |lrows| ==> key in lrows[k] && forall c :: c in added ==> c !in lrows[k]
    ensures |LeftJoinRows(lrows, Project(extra, kept), key, cols, added)| == JoinedCount(lrows, extra.rows, key)
    ensures PlacedAt(LeftJoinRows(lrows, Project(extra, kept), key, cols, added), JoinedCount(lrows[..i], extra.rows, key),
                     Expand(lrows[i], Project(extra, kept), key, added))
  {
    var right := Project(extra, kept);
    LeftJoinRowsBlock(lrows, right, key, cols, added, i);
    LeftJoinRowsCount(lrows, extra, kept, key, cols, added);
    LeftJoinRowsCount(lrows[..i], extra, kept, key, cols, added);
    var front := LeftJoinRows(lrows[..i], right, key, cols, added);
    var back := LeftJoinRows(lrows[i + 1..], right, key, cols, added);
    BlockAt(LeftJoinRows(lrows, right, key, cols, added), JoinedCount(lrows[..i], extra.rows, key),
            front, Expand(lrows[i], right, key, added), back);
  }

  /** The rows of the left join of `lrows` with a projection of `extra`:
      left row i's copies sit right after those of the rows before it. */
  lemma LeftJoinRowsBlockAt(lrows: seq<Row>, extra: Table, kept: seq<string>, key: string, cols: seq<string>, added: seq<string>, i: nat)
    requires WellFormed(extra) && key in kept && (forall c :: c in kept ==> c in extra.columns)
    requires key in cols
    requires RowsFit(lrows, cols)
    requires forall c :: c in added ==> c !in cols && c in kept
    requires i < |lrows|
    ensures forall k :: 0 <= k < |lrows| ==> key in lrows[k]
    ensures |LeftJoinRows(lrows, Project(extra, kept), key, cols, added)| == JoinedCount(lrows, extra.rows, key)
    ensures IsBlock(LeftJoinRows(lrows, Project(extra, kept), key, cols, added), JoinedCount(lrows[..i], extra.rows, key),
                    lrows[i], MatchIndices(extra.rows, key, lrows[i][key], 0), extra.rows, added)
  {
    var l := lrows[i];
    LeftJoinRowsCopiesAt(lrows, extra, kept, key, cols, added, i);
    ExpandProject(l, extra, kept, key, added);
    BlockFacts(LeftJoinRows(lrows, Project(extra, kept), key, cols, added), JoinedCount(lrows[..i], extra.rows, key),
               Expand(l, Project(extra, kept), key, added), l, MatchIndices(extra.rows, key, l[key], 0), extra.rows, added);
  }

  /** The rows of one round are the left join of the accumulated rows with
      the projected extra table. */
  lemma JoinExtraRows(acc: Table, extra: Table, key: string)
    requires WellFormed(acc) && WellFormed(extra)
    requires key in acc.columns && key in extra.columns
    ensures var kept := FilterCols(extra.columns, acc.columns, key);
      && key in kept && (forall c :: c in kept ==> c in extra.columns)
      && RowsFit(acc.rows, acc.columns)
      && (forall c :: c in AddedColumns(acc, extra, key) ==> c !in acc.columns && c in kept)
      && JoinExtra(acc, extra, key).rows
         == LeftJoinRows(acc.rows, Project(extra, kept), key, acc.columns, AddedColumns(acc, extra, key))
  {
  }

  /** The general shape of one round, duplicate keys included. Row i of the
      accumulated result becomes a block of consecutive result rows, right
      after the blocks of the rows before it: one copy per extra row holding
      the same key, in the extra table's order, or a single copy when no
      extra row holds it. Each copy keeps row i's values in every old column;
      the k-th copy carries the k-th matching extra row's values in the added
      columns, and a lone unmatched copy carries `Missing` there. */
  lemma JoinExtraBlock(acc: Table, extra: Table, key: string, i: nat)
    requires WellFormed(acc) && WellFormed(extra)
    requires key in acc.columns && key in extra.columns
    requires i < |acc.rows|
    ensures forall k :: 0 <= k < |acc.rows| ==> key in acc.rows[k]
    ensures |JoinExtra(acc, extra, key).rows| == JoinedCount(acc.rows, extra.rows, key)
    ensures IsBlock(JoinExtra(acc, extra, key).rows, JoinedCount(acc.rows[..i], extra.rows, key),
                    acc.rows[i], MatchIndices(extra.rows, key, acc.rows[i][key], 0), extra.rows, AddedColumns(acc, extra, key))
  {
    JoinExtraRows(acc, extra, key);
    LeftJoinRowsBlockAt(acc.rows, extra, FilterCols(extra.columns, acc.columns, key), key, acc.columns, AddedColumns(acc, extra, key), i);
  }

  /** Every row the left join emits is a copy of some left row. */
  lemma {:induction false} LeftJoinRowsOrigin(lrows: seq<Row>, right: Table, key: string, cols: seq<string>, added: seq<string>)
    requires key in cols
    requires RowsFit(lrows, cols)
    requires forall c :: c in added ==> c !in cols
    ensures var out := LeftJoinRows(lrows, right, key, cols, added);
      forall k :: 0 <= k < |out| ==> CopyOfSome(out[k], lrows)
    decreases |lrows|
  {
    if lrows != [] {
      var rest := lrows[1..];
      RowsFitSlice(lrows, cols, 1, |lrows|);
      LeftJoinRowsOrigin(rest, right, key, cols, added);
      assert forall m :: 0 <= m < |LeftJoinRows(rest, right, key, cols, added)| ==> CopyOfSome(LeftJoinRows(rest, right, key, cols, added)[m], rest);
      var first := Expand(lrows[0], right, key, added);
      var tail := LeftJoinRows(rest, right, key, cols, added);
      var out := LeftJoinRows(lrows, right, key, cols, added);
      assert out == first + tail;
      forall k | 0 <= k < |out| ensures CopyOfSome(out[k], lrows) {
        if k < |first| {
          assert Keeps(out[k], lrows[0]);
        } else {
          var m := k - |first|;
          assert 0 <= m < |tail| && out[k] == tail[m];
          var i :| 0 <= i < |rest| && Keeps(tail[m], rest[i]);
          assert rest[i] == lrows[i + 1];
        }
      }
    }
  }

  /** A round neither invents nor loses rows: every result row is a copy of
      some accumulated row, and every accumulated row has a copy. */
  lemma JoinExtraRowsKept(acc: Table, extra: Table, key: string)
    requires WellFormed(acc) && WellFormed(extra)
    requires key in acc.columns && key in extra.columns
    ensures var out := JoinExtra(acc, extra, key);
      && (forall k :: 0 <= k < |out.rows| ==> CopyOfSome(out.rows[k], acc.rows))
      && (forall i :: 0 <= i < |acc.rows| ==> HasCopy(acc.rows[i], out.rows))
  {
    var out := JoinExtra(acc, extra, key);
    JoinExtraRows(acc, extra, key);
    LeftJoinRowsOrigin(acc.rows, Project(extra, FilterCols(extra.columns, acc.columns, key)), key, acc.columns, AddedColumns(acc, extra, key));
    forall i | 0 <= i < |acc.rows| ensures HasCopy(acc.rows[i], out.rows) {
      JoinExtraBlock(acc, extra, key, i);
      var start := JoinedCount(acc.rows[..i], extra.rows, key);
      assert Keeps(out.rows[start], acc.rows[i]);
    }
  }
}
