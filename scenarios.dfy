/** The scenario the consolidator is built for, worked through the model. */
module Scenarios {
  import opened Tables
  import opened Merge
  import opened Consolidation

  const AnaScore: Row := map["key" := Text("Ana"), "score" := Number(10.0)]
  const BrunoScore: Row := map["key" := Text("Bruno"), "score" := Number(12.0)]
  const AnaExtra: Row := map["key" := Text("Ana"), "extra" := Text("X")]
  const Scores := Table(["key", "score"], [AnaScore, BrunoScore])
  const Extras := Table(["key", "extra"], [AnaExtra])
  const AnaJoined: Row := map["key" := Text("Ana"), "score" := Number(10.0), "extra" := Text("X")]
  const BrunoJoined: Row := map["key" := Text("Bruno"), "score" := Number(12.0), "extra" := Missing]

  // A second extra file that holds Ana twice.
  const AnaOther: Row := map["key" := Text("Ana"), "extra" := Text("Y")]
  const Twice := Table(["key", "extra"], [AnaExtra, AnaOther])
  const AnaJoinedOther: Row := map["key" := Text("Ana"), "score" := Number(10.0), "extra" := Text("Y")]

  lemma ScenarioColumns()
    ensures FilterCols(Extras.columns, Scores.columns, "key") == ["key", "extra"]
    ensures Without(["key", "extra"], "key") == ["extra"]
  {
  }

  lemma ScenarioProject()
    ensures Project(Extras, ["key", "extra"]) == Extras
  {
    assert Select(AnaExtra, ["key", "extra"]) == AnaExtra;
  }

  lemma ScenarioMatches()
    ensures MatchIndices(Extras.rows, "key", Text("Ana"), 0) == [0]
    ensures MatchIndices(Extras.rows, "key", Text("Bruno"), 0) == []
  {
  }

  lemma ScenarioExpand()
    ensures Expand(AnaScore, Extras, "key", ["extra"]) == [AnaJoined]
    ensures Expand(BrunoScore, Extras, "key", ["extra"]) == [BrunoJoined]
  {
    ScenarioMatches();
    ScenarioExtend();
  }

  lemma ScenarioRows()
    ensures LeftJoinRows(Scores.rows, Extras, "key", Scores.columns, ["extra"]) == [AnaJoined, BrunoJoined]
  {
    ScenarioExpand();
    var single: seq<Row> := [BrunoScore];
    assert single[1..] == [];
    assert LeftJoinRows(single, Extras, "key", Scores.columns, ["extra"]) == [BrunoJoined];
    assert Scores.rows[1..] == single;
    assert Scores.rows[0] == AnaScore;
  }

  lemma ScenarioWellFormed()
    ensures WellFormed(Scores) && WellFormed(Extras)
  {
    assert ColumnSet(Scores.columns) == {"key", "score"};
    assert ColumnSet(Extras.columns) == {"key", "extra"};
  }

  lemma ScenarioJoin()
    ensures WellFormed(Scores) && WellFormed(Extras)
    ensures JoinExtra(Scores, Extras, "key") == Table(["key", "score", "extra"], [AnaJoined, BrunoJoined])
  {
    ScenarioWellFormed();
    ScenarioColumns();
    ScenarioProject();
    var right := Project(Extras, FilterCols(Extras.columns, Scores.columns, "key"));
    assert right == Extras;
    assert Without(right.columns, "key") == ["extra"];
    ScenarioRows();
  }

  /** Scores for Ana and Bruno joined with an extra file that only knows Ana:
      both rows stay, Ana's gains the extra value, Bruno's gets `Missing`. */
  lemma ScenarioConsolidation()
    ensures Fold(Scores, [Parsed(Extras)], "key")
         == Success(Table(["key", "score", "extra"], [AnaJoined, BrunoJoined]))
  {
    ScenarioJoin();
    var extras := [Parsed(Extras)];
    assert extras[1..] == [];
  }

  lemma TwiceMatches()
    ensures MatchIndices(Twice.rows, "key", Text("Ana"), 0) == [0, 1]
    ensures MatchIndices(Twice.rows, "key", Text("Bruno"), 0) == []
  {
    assert HasKey(Twice.rows[0], "key", Text("Ana")) && HasKey(Twice.rows[1], "key", Text("Ana"));
    assert !HasKey(Twice.rows[0], "key", Text("Bruno")) && !HasKey(Twice.rows[1], "key", Text("Bruno"));
    assert MatchIndices(Twice.rows, "key", Text("Ana"), 1) == [1];
    assert MatchIndices(Twice.rows, "key", Text("Bruno"), 1) == [];
  }

  /** Widening by a single column sets that one column. */
  lemma ExtendOne(l: Row, c: string, m: Row)
    ensures Extend(l, [c], m) == l[c := Cell(m, c)]
  {
    assert (map c' | c' in [c] :: Cell(m, c')) == map[c := Cell(m, c)];
  }

  lemma ScenarioExtend()
    ensures Extend(AnaScore, ["extra"], AnaExtra) == AnaJoined
    ensures Extend(AnaScore, ["extra"], AnaOther) == AnaJoinedOther
    ensures Extend(BrunoScore, ["extra"], map[]) == BrunoJoined
  {
    ExtendOne(AnaScore, "extra", AnaExtra);
    ExtendOne(AnaScore, "extra", AnaOther);
    ExtendOne(BrunoScore, "extra", map[]);
  }

  lemma TwiceExpand()
    ensures Expand(AnaScore, Twice, "key", ["extra"]) == [AnaJoined, AnaJoinedOther]
    ensures Expand(BrunoScore, Twice, "key", ["extra"]) == [BrunoJoined]
  {
    TwiceMatches();
    ScenarioExtend();
    var copies := Expand(AnaScore, Twice, "key", ["extra"]);
    assert |copies| == 2;
    assert copies[0] == Extend(AnaScore, ["extra"], Twice.rows[0]);
    assert copies[1] == Extend(AnaScore, ["extra"], Twice.rows[1]);
  }

  lemma TwiceRows()
    ensures LeftJoinRows(Scores.rows, Twice, "key", Scores.columns, ["extra"]) == [AnaJoined, AnaJoinedOther, BrunoJoined]
  {
    TwiceExpand();
    var single: seq<Row> := [BrunoScore];
    assert single[1..] == [];
    assert LeftJoinRows(single, Twice, "key", Scores.columns, ["extra"]) == [BrunoJoined];
    assert Scores.rows[1..] == single;
    assert Scores.rows[0] == AnaScore;
  }

  lemma TwiceWellFormed()
    ensures WellFormed(Twice)
  {
    assert ColumnSet(Twice.columns) == {"key", "extra"};
  }

  lemma TwiceProject()
    ensures FilterCols(Twice.columns, Scores.columns, "key") == ["key", "extra"]
    ensures Project(Twice, ["key", "extra"]) == Twice
  {
    assert Select(AnaExtra, ["key", "extra"]) == AnaExtra;
    assert Select(AnaOther, ["key", "extra"]) == AnaOther;
  }

  lemma TwiceJoin()
    ensures WellFormed(Scores) && WellFormed(Twice)
    ensures JoinExtra(Scores, Twice, "key") == Table(["key", "score", "extra"], [AnaJoined, AnaJoinedOther, BrunoJoined])
  {
    ScenarioWellFormed();
    TwiceWellFormed();
    TwiceProject();
    ScenarioColumns();
    TwiceRows();
  }

  /** The same scores joined with an extra file holding Ana twice: Ana's row
      is repeated, once per extra row and in that file's order, rather than
      taking the first match. */
  lemma DuplicateKeyRepeatsRow()
    ensures Fold(Scores, [Parsed(Twice)], "key")
         == Success(Table(["key", "score", "extra"], [AnaJoined, AnaJoinedOther, BrunoJoined]))
  {
    TwiceJoin();
    var extras := [Parsed(Twice)];
    assert extras[1..] == [];
  }

  /** A second extra file without the reference column makes the whole
      operation fail, although the first file could be joined: the user gets
      the error and no table. */
  lemma MissingKeyFails()
    ensures Fold(Scores, [Parsed(Extras), Parsed(Table(["id"], []))], "key") == Failure("key")
  {
    ScenarioWellFormed();
    var extras := [Parsed(Extras), Parsed(Table(["id"], []))];
    assert !Usable(extras[1], "key");
    FoldFailsIff(Scores, extras, "key");
  }
}
