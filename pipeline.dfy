/** The `merge_datasets` pipeline end to end: inning scores from the
    deliveries, merged into the matches; dates parsed and the year extracted;
    venue names normalised; the geographical table joined on (venue, Year);
    identifier and leakage columns dropped; numeric holes filled. */
module Pipeline {
  import opened Tables
  import opened Innings
  import opened Joins
  import opened Venues
  import opened Cleaning
  import opened Frames

  /** The columns of the inning-score table after its rename. */
  const InningColumns: seq<string> := ["match_id", "inning", "inning_score"]

  /** The join keys of the geographical merge. */
  const GeoKeys: seq<string> := ["venue", "Year"]

  /** One row of the inning-score table. */
  function InningRow(k: Key, runs: int): Row {
    map["match_id" := Some(Int(k.0)), "inning" := Some(Int(k.1)), "inning_score" := Some(Int(runs))]
  }

  /** The groupby-sum with its `total_runs` column renamed to `inning_score`:
      one row per aggregated group, in the groups' order. */
  function InningScoreTable(ds: seq<Delivery>): (r: Table)
    ensures WellFormed(r)
    ensures r.columns == InningColumns && r.numeric == ColumnSet(InningColumns)
    ensures |r.rows| == |InningScores(ds)|
    ensures forall i | 0 <= i < |r.rows| :: r.rows[i] == InningRow(ScoreKey(InningScores(ds)[i]), InningScores(ds)[i].runs)
  {
    var ss := InningScores(ds);
    var t := ScoreTable(ss);
    var r := RenameColumn(t, "total_runs", "inning_score");
    InningScoreTableShape(t);
    forall i | 0 <= i < |r.rows| ensures r.rows[i] == InningRow(ScoreKey(ss[i]), ss[i].runs) {
      RenamedScoreRow(ss[i]);
    }
    r
  }

  /** The inning-score table has one row per (match_id, inning) pair that has
      deliveries, in ascending (match_id, inning) order, and each row's
      inning_score is the sum of total_runs over that inning's deliveries. */
  lemma InningScoreTableSpec(ds: seq<Delivery>)
    ensures var r := InningScoreTable(ds);
      && |r.rows| == |PlayedInnings(ds)|
      && Keys(InningScores(ds)) == PlayedInnings(ds)
      && StrictlySorted(InningScores(ds))
      && forall i | 0 <= i < |r.rows| ::
           r.rows[i] == InningRow(ScoreKey(InningScores(ds)[i]), InningRuns(ds, ScoreKey(InningScores(ds)[i])))
  {
    InningScoresSums(ds);
    InningScoresCount(ds);
    InningScoresSorted(ds);
    InningScoresKeys(ds);
  }

  /** Renaming `total_runs` in the aggregated table keeps it well formed. */
  lemma InningScoreTableShape(t: Table)
    requires WellFormed(t) && t.columns == ScoreColumns && t.numeric == ColumnSet(ScoreColumns)
    ensures var r := RenameColumn(t, "total_runs", "inning_score");
      && WellFormed(r) && r.columns == InningColumns && r.numeric == ColumnSet(InningColumns)
  {
    RenameColumnMoves(t, "total_runs", "inning_score");
    var r := RenameColumn(t, "total_runs", "inning_score");
    assert r.columns == InningColumns;
  }

  lemma RenamedScoreRow(s: InningScore)
    ensures RenameKey(ScoreRow(s), "total_runs", "inning_score") == InningRow(ScoreKey(s), s.runs)
  {
  }

  /** `pd.to_datetime` over a column, with the per-cell parse left abstract:
      `toDatetime(c)` is the parsed cell, or None when pandas raises.  The
      column converts as a whole or the first unparseable cell is reported. */
  function ParseDates(cells: seq<Cell>, toDatetime: Cell -> Option<Cell>): (r: Result<seq<Cell>>)
    ensures r.Ok? <==> forall i | 0 <= i < |cells| :: toDatetime(cells[i]).Some?
    ensures r.Ok? ==> |r.value| == |cells| && forall i | 0 <= i < |cells| :: r.value[i] == toDatetime(cells[i]).value
    ensures r.Err? ==> exists i | 0 <= i < |cells| ::
      && r.error == UnparseableDate(cells[i])
      && toDatetime(cells[i]).None?
      && forall j | 0 <= j < i :: toDatetime(cells[j]).Some?
  {
    if cells == [] then Ok([])
    else match toDatetime(cells[0])
      case None => Err(UnparseableDate(cells[0]))
      case Some(d) =>
        var rest := ParseDates(cells[1..], toDatetime);
        if rest.Err? then
          var i :| 0 <= i < |cells[1..]| && rest.error == UnparseableDate(cells[1..][i]) && toDatetime(cells[1..][i]).None?
                   && forall j | 0 <= j < i :: toDatetime(cells[1..][j]).Some?;
          assert cells[i + 1] == cells[1..][i];
          assert forall j | 0 <= j < i + 1 :: toDatetime(cells[j]).Some? by {
            forall j | 0 <= j < i + 1 ensures toDatetime(cells[j]).Some? {
              if j > 0 { assert cells[j] == cells[1..][j - 1]; }
            }
          }
          Err(rest.error)
        else
          assert forall i | 0 <= i < |cells| :: toDatetime(cells[i]).Some? by {
            forall i | 0 <= i < |cells| ensures toDatetime(cells[i]).Some? {
              if i > 0 { assert cells[i] == cells[1..][i - 1]; }
            }
          }
          Ok([d] + rest.value)
  }

  /** `.dt.year` over the parsed column, with the per-cell extraction abstract. */
  function Years(parsed: seq<Cell>, yearOf: Cell -> Cell): (r: seq<Cell>)
    ensures |r| == |parsed| && forall i | 0 <= i < |parsed| :: r[i] == yearOf(parsed[i])
  {
    seq(|parsed|, i requires 0 <= i < |parsed| => yearOf(parsed[i]))
  }

  /** The geographical table's columns once `Stadium` is renamed to `venue`. */
  function GeoColumns(geo: Table): set<string>
    requires "Stadium" in geo.columns ==> "venue" !in geo.columns
  {
    ColumnSet(RenameColumn(geo, "Stadium", "venue").columns)
  }

  /** The inputs for which no column name clashes: pandas would otherwise
      suffix or duplicate the clashing names, which the model leaves out.
      Matches share no column with the inning scores, the rename of
      `Stadium` does not duplicate `venue`, and the table being merged with
      the geographical data shares with it only the two join keys. */
  predicate Compatible(matches: Table, geo: Table) {
    && ColumnSet(matches.columns) !! ColumnSet(InningColumns)
    && ("Stadium" in geo.columns ==> "venue" !in geo.columns)
    && (ColumnSet(matches.columns) + ColumnSet(InningColumns) + {"Year"}) * GeoColumns(geo) <= ColumnSet(GeoKeys)
  }

  /** What step 2 makes of one row: the date replaced by the parsed date, the
      Year of that date added, the venue normalised. */
  function PreparedRow(m: Row, toDatetime: Cell -> Option<Cell>, yearOf: Cell -> Cell): Row
    requires "date" in m && "venue" in m && toDatetime(m["date"]).Some?
  {
    var d := toDatetime(m["date"]).value;
    m["date" := d]["Year" := yearOf(d)]["venue" := NormalizeCell(m["venue"])]
  }

  /** A prepared row holds the parsed date, the year of that date and the
      normalised venue, and every other cell of the original row. */
  lemma PreparedRowCells(m: Row, toDatetime: Cell -> Option<Cell>, yearOf: Cell -> Cell)
    requires "date" in m && "venue" in m && toDatetime(m["date"]).Some?
    ensures var p := PreparedRow(m, toDatetime, yearOf);
      && p.Keys == m.Keys + {"Year"}
      && p["date"] == toDatetime(m["date"]).value
      && p["Year"] == yearOf(p["date"])
      && p["venue"] == NormalizeCell(m["venue"])
      && forall c | c in m && c != "date" && c != "venue" && c != "Year" :: p[c] == m[c]
  {
  }

  /** Step 2 on the merged table: the date column parsed in place, the Year
      column added, and the venue names normalised in place.  When it
      succeeds, each row's date is the parsed date, its Year the year of that
      date, its venue the normalised venue, and every other cell is as it
      was; date loses its numeric dtype, Year gains one, venue keeps its own. */
  function WithYearAndVenue(merged: Table, toDatetime: Cell -> Option<Cell>, yearOf: Cell -> Cell): (r: Result<Table>)
    requires WellFormed(merged)
    ensures r.Ok? ==>
      && WellFormed(r.value)
      && ColumnSet(r.value.columns) == ColumnSet(merged.columns) + {"Year"}
      && |r.value.rows| == |merged.rows|
    ensures r.Ok? ==>
      && "date" in merged.columns && "venue" in merged.columns && DatesParse(merged.rows, toDatetime)
      && r.value.numeric == merged.numeric - {"date"} + {"Year"}
      && forall i | 0 <= i < |merged.rows| :: r.value.rows[i] == PreparedRow(merged.rows[i], toDatetime, yearOf)
  {
    var dates :- ColumnCells(merged, "date");
    var parsed :- ParseDates(dates, toDatetime);
    var dated := WithColumn(merged, "date", parsed, false);
    WithColumnWellFormed(merged, "date", parsed, false);
    ColumnCellsWithColumn(merged, "date", parsed, false);
    var redated := ColumnCells(dated, "date").value;
    var withYear := WithColumn(dated, "Year", Years(redated, yearOf), true);
    WithColumnWellFormed(dated, "Year", Years(redated, yearOf), true);
    var venues :- ColumnCells(withYear, "venue");
    var normalized := WithColumn(withYear, "venue", NormalizeVenues(venues), "venue" in withYear.numeric);
    WithColumnWellFormed(withYear, "venue", NormalizeVenues(venues), "venue" in withYear.numeric);
    PreparedRows(merged, toDatetime, yearOf, parsed, venues, "venue" in withYear.numeric);
    assert "venue" in merged.columns by {
      assert ColumnSet(withYear.columns) == ColumnSet(merged.columns) + {"date", "Year"};
    }
    Ok(normalized)
  }

  /** After step 2 every row's Year is the year of that row's own date, and
      its date is the parse of the date it had before. */
  lemma WithYearAndVenueYears(merged: Table, toDatetime: Cell -> Option<Cell>, yearOf: Cell -> Cell)
    requires WellFormed(merged) && WithYearAndVenue(merged, toDatetime, yearOf).Ok?
    ensures var r := WithYearAndVenue(merged, toDatetime, yearOf).value;
      forall i | 0 <= i < |r.rows| ::
        && "date" in r.rows[i] && "Year" in r.rows[i] && "date" in merged.rows[i]
        && toDatetime(merged.rows[i]["date"]).Some?
        && r.rows[i]["date"] == toDatetime(merged.rows[i]["date"]).value
        && r.rows[i]["Year"] == yearOf(r.rows[i]["date"])
  {
    var r := WithYearAndVenue(merged, toDatetime, yearOf).value;
    forall i | 0 <= i < |r.rows|
      ensures && "date" in r.rows[i] && "Year" in r.rows[i] && "date" in merged.rows[i]
              && toDatetime(merged.rows[i]["date"]).Some?
              && r.rows[i]["date"] == toDatetime(merged.rows[i]["date"]).value
              && r.rows[i]["Year"] == yearOf(r.rows[i]["date"])
    {
      assert "date" in ColumnSet(merged.columns) && "venue" in ColumnSet(merged.columns);
      PreparedRowCells(merged.rows[i], toDatetime, yearOf);
    }
  }

  /** The three assignments of step 2 leave each row as `PreparedRow` says. */
  lemma PreparedRows(merged: Table, toDatetime: Cell -> Option<Cell>, yearOf: Cell -> Cell,
                     parsed: seq<Cell>, venues: seq<Cell>, venueNumeric: bool)
    requires WellFormed(merged) && "date" in merged.columns && "venue" in merged.columns
    requires |parsed| == |venues| == |merged.rows|
    requires forall i | 0 <= i < |merged.rows| ::
      toDatetime(merged.rows[i]["date"]).Some? && parsed[i] == toDatetime(merged.rows[i]["date"]).value
    requires forall i | 0 <= i < |merged.rows| :: venues[i] == merged.rows[i]["venue"]
    ensures var withYear := WithColumn(WithColumn(merged, "date", parsed, false), "Year", Years(parsed, yearOf), true);
      var r := WithColumn(withYear, "venue", NormalizeVenues(venues), venueNumeric);
      forall i | 0 <= i < |merged.rows| :: r.rows[i] == PreparedRow(merged.rows[i], toDatetime, yearOf)
  {
  }

  /** Every date cell of `rows` parses. */
  predicate DatesParse(rows: seq<Row>, toDatetime: Cell -> Option<Cell>) {
    forall i | 0 <= i < |rows| && "date" in rows[i] :: toDatetime(rows[i]["date"]).Some?
  }

  /** Step 2 succeeds exactly when the merged table has a date column whose
      every cell parses and a venue column; otherwise it reports the first of
      these that fails, as pandas raises at the first failing statement. */
  lemma WithYearAndVenueOutcome(merged: Table, toDatetime: Cell -> Option<Cell>, yearOf: Cell -> Cell)
    requires WellFormed(merged)
    ensures var r := WithYearAndVenue(merged, toDatetime, yearOf);
      && (r.Ok? <==> "date" in merged.columns && DatesParse(merged.rows, toDatetime) && "venue" in merged.columns)
      && ("date" !in merged.columns ==> r == Err(MissingColumns(["date"])))
      && ("date" in merged.columns && !DatesParse(merged.rows, toDatetime) ==> r.Err? && r.error.UnparseableDate?)
      && ("date" in merged.columns && DatesParse(merged.rows, toDatetime) && "venue" !in merged.columns ==>
            r == Err(MissingColumns(["venue"])))
  {
    if "date" in merged.columns {
      var dates := ColumnCells(merged, "date").value;
      var p := ParseDates(dates, toDatetime);
      assert p.Ok? <==> DatesParse(merged.rows, toDatetime);
      if p.Ok? {
        var parsed := p.value;
        var dated := WithColumn(merged, "date", parsed, false);
        WithColumnWellFormed(merged, "date", parsed, false);
        var withYear := WithColumn(dated, "Year", Years(parsed, yearOf), true);
        WithColumnWellFormed(dated, "Year", Years(parsed, yearOf), true);
        assert "venue" in withYear.columns <==> "venue" in merged.columns by {
          assert ColumnSet(withYear.columns) == ColumnSet(merged.columns) + {"date", "Year"};
        }
      }
    }
  }

  /** Steps 1 and 2: the inning scores merged into the matches, then the
      date, Year and venue columns prepared. */
  function PreparedMatches(ds: seq<Delivery>, matches: Table,
                           toDatetime: Cell -> Option<Cell>, yearOf: Cell -> Cell): (r: Result<Table>)
    requires WellFormed(matches) && ColumnSet(matches.columns) !! ColumnSet(InningColumns)
    ensures r.Ok? ==>
      && WellFormed(r.value)
      && ColumnSet(r.value.columns) == ColumnSet(matches.columns) + ColumnSet(InningColumns) + {"Year"}
  {
    var merged :- InnerJoin(matches, InningScoreTable(ds), "id", "match_id");
    WithYearAndVenue(merged, toDatetime, yearOf)
  }

  /** The match has at least one delivery, so the inner merge keeps it: its
      id has the key value of some delivery's match id. */
  predicate Scored(m: Row, ds: seq<Delivery>) {
    "id" in m && exists d | d in ds :: KeyValue(m["id"]) == KeyValue(Some(Int(d.matchId)))
  }

  /** Every match that has deliveries has a date that parses. */
  predicate ScoredDatesParse(ms: seq<Row>, ds: seq<Delivery>, toDatetime: Cell -> Option<Cell>) {
    forall i | 0 <= i < |ms| && Scored(ms[i], ds) && "date" in ms[i] :: toDatetime(ms[i]["date"]).Some?
  }

  /** The inning-score table has a row for the match exactly when the match
      has deliveries. */
  lemma ScoredIffScoreRow(m: Row, ds: seq<Delivery>)
    requires "id" in m
    ensures AllHave(InningScoreTable(ds).rows, "match_id")
    ensures Scored(m, ds) <==>
      exists j | 0 <= j < |InningScoreTable(ds).rows| ::
        KeyValue(InningScoreTable(ds).rows[j]["match_id"]) == KeyValue(m["id"])
  {
    ScoreMatchIds(ds);
    var v := KeyValue(m["id"]);
    if v.Some? && v.value.Real? && v.value.r.Floor as real == v.value.r {
      MatchHasScores(ds, v.value.r.Floor);
    }
  }

  /** The match_id cells of the inning-score table, row by row. */
  lemma ScoreMatchIds(ds: seq<Delivery>)
    ensures forall j | 0 <= j < |InningScoreTable(ds).rows| ::
      "match_id" in InningScoreTable(ds).rows[j] &&
      InningScoreTable(ds).rows[j]["match_id"] == Some(Int(InningScores(ds)[j].matchId))
  {
  }

  /** The dates of the merged rows all parse exactly when the dates of the
      matches that have deliveries do: the inner merge keeps precisely those
      matches, and the score rows carry no date. */
  lemma JoinedDatesParse(ms: seq<Row>, ds: seq<Delivery>, toDatetime: Cell -> Option<Cell>)
    requires forall i | 0 <= i < |ms| :: "id" in ms[i] && "date" in ms[i]
    ensures AllHave(ms, "id") && AllHave(InningScoreTable(ds).rows, "match_id")
    ensures DatesParse(InnerJoinRows(ms, InningScoreTable(ds).rows, "id", "match_id"), toDatetime)
        <==> ScoredDatesParse(ms, ds, toDatetime)
  {
    var rs := InningScoreTable(ds).rows;
    ScoreMatchIds(ds);
    if ScoredDatesParse(ms, ds, toDatetime) {
      JoinedDatesParseIf(ms, rs, ds, toDatetime);
    } else {
      var i :| 0 <= i < |ms| && Scored(ms[i], ds) && "date" in ms[i] && toDatetime(ms[i]["date"]).None?;
      JoinedDateOf(ms, rs, ds, i);
    }
  }

  lemma MatchColumnsNotScoreColumns()
    ensures "date" !in ColumnSet(InningColumns) && "venue" !in ColumnSet(InningColumns)
  {
  }

  /** The score rows carry no date. */
  lemma NoDateInScoreRows(ds: seq<Delivery>)
    ensures forall j | 0 <= j < |InningScoreTable(ds).rows| :: "date" !in InningScoreTable(ds).rows[j]
  {
    var rs := InningScoreTable(ds).rows;
    assert "date" !in ColumnSet(InningColumns);
    forall j | 0 <= j < |rs| ensures "date" !in rs[j] {
      assert rs[j].Keys == ColumnSet(InningColumns);
    }
  }

  /** A match with deliveries has its date in some merged row. */
  lemma JoinedDateOf(ms: seq<Row>, rs: seq<Row>, ds: seq<Delivery>, i: nat)
    requires forall i | 0 <= i < |ms| :: "id" in ms[i] && "date" in ms[i]
    requires rs == InningScoreTable(ds).rows && AllHave(rs, "match_id")
    requires i < |ms| && Scored(ms[i], ds)
    ensures AllHave(ms, "id")
    ensures exists k | 0 <= k < |InnerJoinRows(ms, rs, "id", "match_id")| ::
      "date" in InnerJoinRows(ms, rs, "id", "match_id")[k] &&
      InnerJoinRows(ms, rs, "id", "match_id")[k]["date"] == ms[i]["date"]
  {
    ScoredIffScoreRow(ms[i], ds);
    var j :| 0 <= j < |rs| && KeyValue(rs[j]["match_id"]) == KeyValue(ms[i]["id"]);
    NoDateInScoreRows(ds);
    JoinedDateOfPair(ms, rs, i, j);
  }

  /** A matching pair whose right row has no date carries the left row's date
      into the merge. */
  lemma JoinedDateOfPair(ms: seq<Row>, rs: seq<Row>, i: nat, j: nat)
    requires AllHave(ms, "id") && AllHave(rs, "match_id")
    requires i < |ms| && j < |rs| && KeyValue(rs[j]["match_id"]) == KeyValue(ms[i]["id"])
    requires "date" in ms[i] && "date" !in rs[j]
    ensures exists k | 0 <= k < |InnerJoinRows(ms, rs, "id", "match_id")| ::
      "date" in InnerJoinRows(ms, rs, "id", "match_id")[k] &&
      InnerJoinRows(ms, rs, "id", "match_id")[k]["date"] == ms[i]["date"]
  {
    InnerJoinComplete(ms, rs, "id", "match_id", i, j);
    var joined := InnerJoinRows(ms, rs, "id", "match_id");
    var k :| 0 <= k < |joined| && joined[k] == ms[i] + rs[j];
    assert "date" in joined[k] && joined[k]["date"] == ms[i]["date"];
  }

  lemma JoinedDatesParseIf(ms: seq<Row>, rs: seq<Row>, ds: seq<Delivery>, toDatetime: Cell -> Option<Cell>)
    requires forall i | 0 <= i < |ms| :: "id" in ms[i] && "date" in ms[i]
    requires rs == InningScoreTable(ds).rows && AllHave(rs, "match_id")
    requires ScoredDatesParse(ms, ds, toDatetime)
    ensures AllHave(ms, "id")
    ensures DatesParse(InnerJoinRows(ms, rs, "id", "match_id"), toDatetime)
  {
    var joined := InnerJoinRows(ms, rs, "id", "match_id");
    InnerJoinSound(ms, rs, "id", "match_id");
    NoDateInScoreRows(ds);
    forall k | 0 <= k < |joined| && "date" in joined[k] ensures toDatetime(joined[k]["date"]).Some? {
      assert joined[k] in joined;
      var i, j :| 0 <= i < |ms| && 0 <= j < |rs| && KeyValue(ms[i]["id"]) == KeyValue(rs[j]["match_id"]) && joined[k] == ms[i] + rs[j];
      ScoredIffScoreRow(ms[i], ds);
    }
  }

  /** Steps 1 and 2 succeed exactly when the matches have the id, date and
      venue columns and every match with deliveries has a parseable date;
      a missing id or date column is the error reported. */
  lemma PreparedMatchesOutcome(ds: seq<Delivery>, matches: Table, toDatetime: Cell -> Option<Cell>, yearOf: Cell -> Cell)
    requires WellFormed(matches) && ColumnSet(matches.columns) !! ColumnSet(InningColumns)
    ensures var r := PreparedMatches(ds, matches, toDatetime, yearOf);
      && (r.Ok? <==>
            && "id" in matches.columns && "date" in matches.columns && "venue" in matches.columns
            && ScoredDatesParse(matches.rows, ds, toDatetime))
      && ("id" !in matches.columns ==> r == Err(MissingColumns(["id"])))
      && ("id" in matches.columns && "date" !in matches.columns ==> r == Err(MissingColumns(["date"])))
  {
    if "id" in matches.columns {
      var merged := InnerJoin(matches, InningScoreTable(ds), "id", "match_id").value;
      ScoreJoined(ds, matches, toDatetime);
      WithYearAndVenueOutcome(merged, toDatetime, yearOf);
    } else {
      assert "match_id" in InningScoreTable(ds).columns by {
        assert "match_id" == InningColumns[0];
      }
    }
  }

  /** The inner merge of step 1, once the matches have their id: it succeeds,
      has the date and venue columns exactly when the matches do, and every
      merged date parses exactly when every scored match's date does. */
  lemma ScoreJoined(ds: seq<Delivery>, matches: Table, toDatetime: Cell -> Option<Cell>)
    requires WellFormed(matches) && ColumnSet(matches.columns) !! ColumnSet(InningColumns)
    requires "id" in matches.columns
    ensures var j := InnerJoin(matches, InningScoreTable(ds), "id", "match_id");
      && j.Ok? && WellFormed(j.value)
      && ("date" in j.value.columns <==> "date" in matches.columns)
      && ("venue" in j.value.columns <==> "venue" in matches.columns)
      && ("date" in matches.columns ==>
            (DatesParse(j.value.rows, toDatetime) <==> ScoredDatesParse(matches.rows, ds, toDatetime)))
  {
    assert "match_id" in InningScoreTable(ds).columns by {
      assert "match_id" == InningColumns[0];
    }
    var merged := InnerJoin(matches, InningScoreTable(ds), "id", "match_id").value;
    assert merged.columns == matches.columns + InningColumns;
    MatchColumnsNotScoreColumns();
    if "date" in matches.columns {
      JoinedDatesParse(matches.rows, ds, toDatetime);
    }
  }

  /** The rename of `Stadium` does not duplicate `venue`, and the prepared
      table shares no column with the renamed geographical table but the two
      join keys. */
  predicate Joinable(prepared: Table, geo: Table) {
    && ("Stadium" in geo.columns ==> "venue" !in geo.columns)
    && ColumnSet(prepared.columns) * GeoColumns(geo) <= ColumnSet(GeoKeys)
  }

  /** Steps 3 and 4 on the prepared table: the geographical table, its
      `Stadium` column renamed to `venue`, left-merged on (venue, Year); the
      identifier and leakage columns dropped; numeric holes filled. */
  function FinalTable(prepared: Table, geo: Table, mean: seq<Value> -> Value): Result<Table>
    requires WellFormed(prepared) && WellFormed(geo) && Joinable(prepared, geo)
  {
    var geoDf := RenameColumn(geo, "Stadium", "venue");
    RenameColumnMoves(geo, "Stadium", "venue");
    var final :- LeftJoin(prepared, geoDf, GeoKeys);
    var dropped :- DropColumns(final, LeakageColumns);
    Ok(Imputed(dropped, mean))
  }

  /** The geographical table holds one record per (venue, Year). */
  predicate OneRecordPerVenueYear(geo: Table)
    requires "Stadium" in geo.columns ==> "venue" !in geo.columns
  {
    var g := RenameColumn(geo, "Stadium", "venue").rows;
    AllHaveKeys(g, GeoKeys) && UniqueKeys(g, GeoKeys)
  }

  /** Steps 3 and 4 succeed exactly when both tables have the join keys and
      every identifier and leakage column is present in one of them. */
  lemma FinalTableOutcome(prepared: Table, geo: Table, mean: seq<Value> -> Value)
    requires WellFormed(prepared) && WellFormed(geo) && Joinable(prepared, geo)
    ensures FinalTable(prepared, geo, mean).Ok? <==>
      && ColumnSet(GeoKeys) <= ColumnSet(prepared.columns) * GeoColumns(geo)
      && ColumnSet(LeakageColumns) <= ColumnSet(prepared.columns) + GeoColumns(geo)
    ensures !(ColumnSet(GeoKeys) <= ColumnSet(prepared.columns) * GeoColumns(geo)) ==>
      FinalTable(prepared, geo, mean).Err? && FinalTable(prepared, geo, mean).error.MissingColumns?
  {
    var geoDf := RenameColumn(geo, "Stadium", "venue");
    RenameColumnMoves(geo, "Stadium", "venue");
    if LeftJoin(prepared, geoDf, GeoKeys).Ok? {
      LeftJoinColumnSet(prepared, geoDf, GeoKeys);
    }
  }

  /** With both join keys on the prepared side, a geographical table without
      venue fails with a KeyError naming venue, and one with venue but
      without Year fails with a KeyError naming Year. */
  lemma FinalTableKeyErrors(prepared: Table, geo: Table, mean: seq<Value> -> Value)
    requires WellFormed(prepared) && WellFormed(geo) && Joinable(prepared, geo)
    requires "venue" in prepared.columns && "Year" in prepared.columns
    ensures "venue" !in GeoColumns(geo) ==> FinalTable(prepared, geo, mean) == Err(MissingColumns(["venue"]))
    ensures "venue" in GeoColumns(geo) && "Year" !in GeoColumns(geo) ==>
      FinalTable(prepared, geo, mean) == Err(MissingColumns(["Year"]))
  {
    var geoDf := RenameColumn(geo, "Stadium", "venue");
    RenameColumnMoves(geo, "Stadium", "venue");
    var j := LeftJoin(prepared, geoDf, GeoKeys);
    assert GeoKeys[0] == "venue" && GeoKeys[1] == "Year";
    if j.Err? {
      var i :| 0 <= i < |GeoKeys| && j.error == MissingColumns([GeoKeys[i]])
        && (GeoKeys[i] !in geoDf.columns || GeoKeys[i] !in prepared.columns)
        && forall k | 0 <= k < i :: GeoKeys[k] in geoDf.columns && GeoKeys[k] in prepared.columns;
      assert FinalTable(prepared, geo, mean) == Err(j.error);
    } else {
      assert "venue" in geoDf.columns && "Year" in geoDf.columns;
    }
  }

  /** When steps 3 and 4 succeed, the result is well formed, its columns are
      those of both tables minus the identifier and leakage columns, and no
      row holds a dropped column. */
  lemma FinalTableColumns(prepared: Table, geo: Table, mean: seq<Value> -> Value)
    requires WellFormed(prepared) && WellFormed(geo) && Joinable(prepared, geo)
    requires FinalTable(prepared, geo, mean).Ok?
    ensures var r := FinalTable(prepared, geo, mean).value;
      && WellFormed(r)
      && ColumnSet(r.columns) == ColumnSet(prepared.columns) + GeoColumns(geo) - ColumnSet(LeakageColumns)
      && forall i, c | 0 <= i < |r.rows| && c in LeakageColumns :: c !in r.rows[i]
  {
    var geoDf := RenameColumn(geo, "Stadium", "venue");
    RenameColumnMoves(geo, "Stadium", "venue");
    LeftJoinColumnSet(prepared, geoDf, GeoKeys);
  }

  /** When steps 3 and 4 succeed, each numeric column of the result is
      either complete or, having had no value to average, entirely missing. */
  lemma FinalTableFilled(prepared: Table, geo: Table, mean: seq<Value> -> Value)
    requires WellFormed(prepared) && WellFormed(geo) && Joinable(prepared, geo)
    requires FinalTable(prepared, geo, mean).Ok?
    ensures var r := FinalTable(prepared, geo, mean).value;
      && WellFormed(r)
      && forall c | c in r.numeric ::
           || (forall i | 0 <= i < |r.rows| :: r.rows[i][c].Some?)
           || (forall i | 0 <= i < |r.rows| :: r.rows[i][c].None?)
  {
    var geoDf := RenameColumn(geo, "Stadium", "venue");
    RenameColumnMoves(geo, "Stadium", "venue");
    var final := LeftJoin(prepared, geoDf, GeoKeys).value;
    var dropped := DropColumns(final, LeakageColumns).value;
    ImputedColumnsComplete(dropped, mean);
  }

  /** With one geographical record per (venue, Year), steps 3 and 4 keep the
      number of rows: every prepared row matches at most one record. */
  lemma FinalTableRowCount(prepared: Table, geo: Table, mean: seq<Value> -> Value)
    requires WellFormed(prepared) && WellFormed(geo) && Joinable(prepared, geo)
    requires OneRecordPerVenueYear(geo)
    requires FinalTable(prepared, geo, mean).Ok?
    ensures |FinalTable(prepared, geo, mean).value.rows| == |prepared.rows|
  {
    var geoDf := RenameColumn(geo, "Stadium", "venue");
    RenameColumnMoves(geo, "Stadium", "venue");
    var nulls := NullRow(ColumnSet(geoDf.columns) - ColumnSet(GeoKeys));
    LeftJoinUnique(prepared.rows, geoDf.rows, GeoKeys, nulls);
  }

  /** The table the pipeline produces from the deliveries, the matches and
      the geographical data, or the error pandas would raise. */
  function MergedDataset(ds: seq<Delivery>, matches: Table, geo: Table,
                         toDatetime: Cell -> Option<Cell>, yearOf: Cell -> Cell,
                         mean: seq<Value> -> Value): Result<Table>
    requires WellFormed(matches) && WellFormed(geo) && Compatible(matches, geo)
  {
    var prepared :- PreparedMatches(ds, matches, toDatetime, yearOf);
    FinalTable(prepared, geo, mean)
  }

  /** With every cell of the match id column a key of the score table, the
      prepared table after steps 1 and 2 has one row per pair of a match and
      an inning of it. */
  lemma PreparedMatchesRowCount(ds: seq<Delivery>, matches: Table, toDatetime: Cell -> Option<Cell>, yearOf: Cell -> Cell)
    requires WellFormed(matches) && ColumnSet(matches.columns) !! ColumnSet(InningColumns)
    requires PreparedMatches(ds, matches, toDatetime, yearOf).Ok?
    ensures AllHave(matches.rows, "id") && AllHave(InningScoreTable(ds).rows, "match_id")
    ensures |PreparedMatches(ds, matches, toDatetime, yearOf).value.rows|
         == PairCount(matches.rows, InningScoreTable(ds).rows, "id", "match_id")
  {
    PreparedMatchesOutcome(ds, matches, toDatetime, yearOf);
    ScoreMatchIds(ds);
    InnerJoinCount(matches.rows, InningScoreTable(ds).rows, "id", "match_id");
  }

  /** Once steps 1 and 2 have succeeded, the rest of the pipeline is steps 3
      and 4 on their result. */
  lemma MergedDatasetSteps(ds: seq<Delivery>, matches: Table, geo: Table,
                           toDatetime: Cell -> Option<Cell>, yearOf: Cell -> Cell, mean: seq<Value> -> Value)
    requires WellFormed(matches) && WellFormed(geo) && Compatible(matches, geo)
    requires PreparedMatches(ds, matches, toDatetime, yearOf).Ok?
    ensures var prepared := PreparedMatches(ds, matches, toDatetime, yearOf).value;
      && WellFormed(prepared) && Joinable(prepared, geo)
      && ColumnSet(prepared.columns) == ColumnSet(matches.columns) + ColumnSet(InningColumns) + {"Year"}
      && MergedDataset(ds, matches, geo, toDatetime, yearOf, mean) == FinalTable(prepared, geo, mean)
  {
  }

  /** The pipeline succeeds exactly when the matches have the id, date and
      venue columns, every match with deliveries has a parseable date, the
      geographical table has venue (or Stadium) and Year, and every
      identifier and leakage column is present somewhere. */
  lemma MergedDatasetSucceeds(ds: seq<Delivery>, matches: Table, geo: Table,
                              toDatetime: Cell -> Option<Cell>, yearOf: Cell -> Cell, mean: seq<Value> -> Value)
    requires WellFormed(matches) && WellFormed(geo) && Compatible(matches, geo)
    ensures MergedDataset(ds, matches, geo, toDatetime, yearOf, mean).Ok? <==>
      && "id" in matches.columns && "date" in matches.columns && "venue" in matches.columns
      && ScoredDatesParse(matches.rows, ds, toDatetime)
      && ColumnSet(GeoKeys) <= GeoColumns(geo)
      && ColumnSet(LeakageColumns) <= ColumnSet(matches.columns) + ColumnSet(InningColumns) + {"Year"} + GeoColumns(geo)
  {
    PreparedMatchesOutcome(ds, matches, toDatetime, yearOf);
    var p := PreparedMatches(ds, matches, toDatetime, yearOf);
    if p.Ok? {
      MergedDatasetSteps(ds, matches, geo, toDatetime, yearOf, mean);
      FinalTableOutcome(p.value, geo, mean);
      GeoKeysPrepared(matches, p.value);
    }
  }

  /** Both join keys are always on the prepared side: venue comes from the
      matches and Year was added in step 2. */
  lemma GeoKeysPrepared(matches: Table, prepared: Table)
    requires "venue" in matches.columns
    requires ColumnSet(prepared.columns) == ColumnSet(matches.columns) + ColumnSet(InningColumns) + {"Year"}
    ensures ColumnSet(GeoKeys) <= ColumnSet(prepared.columns)
  {
    assert ColumnSet(GeoKeys) == {"venue", "Year"};
    assert "venue" in ColumnSet(matches.columns);
  }

  /** A missing id or date column among the matches is reported by name; once
      steps 1 and 2 succeed, so is the first join key (venue, then Year) the
      geographical table lacks. */
  lemma MergedDatasetErrors(ds: seq<Delivery>, matches: Table, geo: Table,
                            toDatetime: Cell -> Option<Cell>, yearOf: Cell -> Cell, mean: seq<Value> -> Value)
    requires WellFormed(matches) && WellFormed(geo) && Compatible(matches, geo)
    ensures var r := MergedDataset(ds, matches, geo, toDatetime, yearOf, mean);
      && ("id" !in matches.columns ==> r == Err(MissingColumns(["id"])))
      && ("id" in matches.columns && "date" !in matches.columns ==> r == Err(MissingColumns(["date"])))
      && (PreparedMatches(ds, matches, toDatetime, yearOf).Ok? && "venue" !in GeoColumns(geo) ==>
            r == Err(MissingColumns(["venue"])))
      && (PreparedMatches(ds, matches, toDatetime, yearOf).Ok? && "venue" in GeoColumns(geo) && "Year" !in GeoColumns(geo) ==>
            r == Err(MissingColumns(["Year"])))
  {
    PreparedMatchesOutcome(ds, matches, toDatetime, yearOf);
    var p := PreparedMatches(ds, matches, toDatetime, yearOf);
    if p.Ok? {
      MergedDatasetSteps(ds, matches, geo, toDatetime, yearOf, mean);
      GeoKeysPrepared(matches, p.value);
      assert "venue" in ColumnSet(GeoKeys) && "Year" in ColumnSet(GeoKeys);
      FinalTableKeyErrors(p.value, geo, mean);
    }
  }

  /** A successful run yields a well-formed table whose columns are those of
      the matches, the inning scores, Year and the geographical table, minus
      the identifier and leakage columns; no row holds a dropped column; and
      each numeric column is complete or, having had no value to average,
      entirely missing. */
  lemma MergedDatasetShape(ds: seq<Delivery>, matches: Table, geo: Table,
                           toDatetime: Cell -> Option<Cell>, yearOf: Cell -> Cell, mean: seq<Value> -> Value)
    requires WellFormed(matches) && WellFormed(geo) && Compatible(matches, geo)
    requires MergedDataset(ds, matches, geo, toDatetime, yearOf, mean).Ok?
    ensures var r := MergedDataset(ds, matches, geo, toDatetime, yearOf, mean).value;
      && WellFormed(r)
      && ColumnSet(r.columns) ==
           ColumnSet(matches.columns) + ColumnSet(InningColumns) + {"Year"} + GeoColumns(geo) - ColumnSet(LeakageColumns)
      && (forall i, c | 0 <= i < |r.rows| && c in LeakageColumns :: c !in r.rows[i])
      && forall c | c in r.numeric ::
           || (forall i | 0 <= i < |r.rows| :: r.rows[i][c].Some?)
           || (forall i | 0 <= i < |r.rows| :: r.rows[i][c].None?)
  {
    var p := PreparedMatches(ds, matches, toDatetime, yearOf).value;
    MergedDatasetSteps(ds, matches, geo, toDatetime, yearOf, mean);
    FinalTableColumns(p, geo, mean);
    FinalTableFilled(p, geo, mean);
  }

  /** With one geographical record per (venue, Year), a successful run has
      one row per pair of a match and an inning of that match: the inner
      merge multiplies, the left merge neither adds nor loses rows. */
  lemma MergedDatasetRowCount(ds: seq<Delivery>, matches: Table, geo: Table,
                              toDatetime: Cell -> Option<Cell>, yearOf: Cell -> Cell, mean: seq<Value> -> Value)
    requires WellFormed(matches) && WellFormed(geo) && Compatible(matches, geo)
    requires OneRecordPerVenueYear(geo)
    requires MergedDataset(ds, matches, geo, toDatetime, yearOf, mean).Ok?
    ensures AllHave(matches.rows, "id") && AllHave(InningScoreTable(ds).rows, "match_id")
    ensures |MergedDataset(ds, matches, geo, toDatetime, yearOf, mean).value.rows|
         == PairCount(matches.rows, InningScoreTable(ds).rows, "id", "match_id")
  {
    var p := PreparedMatches(ds, matches, toDatetime, yearOf).value;
    MergedDatasetSteps(ds, matches, geo, toDatetime, yearOf, mean);
    PreparedMatchesRowCount(ds, matches, toDatetime, yearOf);
    FinalTableRowCount(p, geo, mean);
  }

  /** Step 2 on the merged frame, in place: the date column is parsed and
      reassigned, the Year column added and the venue column reassigned.  A
      missing column or an unparseable date is reported instead (the frame is
      then discarded by the caller, so its contents are left unstated). */
  method AddYearAndVenue(df: Frame, toDatetime: Cell -> Option<Cell>, yearOf: Cell -> Cell)
    returns (failure: Option<Error>)
    requires WellFormed(df.Snapshot())
    modifies df
    ensures var r := WithYearAndVenue(old(df.Snapshot()), toDatetime, yearOf);
      && (r.Err? ==> failure == Some(r.error))
      && (r.Ok? ==> failure == None && df.Snapshot() == r.value)
  {
    var dates := ColumnCells(df.Snapshot(), "date");
    if dates.Err? {
      return Some(dates.error);
    }
    var parsed := ParseDates(dates.value, toDatetime);
    if parsed.Err? {
      return Some(parsed.error);
    }
    WithColumnWellFormed(df.Snapshot(), "date", parsed.value, false);
    ColumnCellsWithColumn(df.Snapshot(), "date", parsed.value, false);
    df.Assign("date", parsed.value, false);
    var redated := ColumnCells(df.Snapshot(), "date").value;
    WithColumnWellFormed(df.Snapshot(), "Year", Years(redated, yearOf), true);
    df.Assign("Year", Years(redated, yearOf), true);
    var venues := ColumnCells(df.Snapshot(), "venue");
    if venues.Err? {
      return Some(venues.error);
    }
    df.Assign("venue", NormalizeVenues(venues.value), "venue" in df.numeric);
    failure := None;
  }

  /** Steps 1 and 2 on frames: the score column is renamed in place, the
      merged frame prepared in place. */
  method PrepareMatches(ds: seq<Delivery>, matches: Table,
                        toDatetime: Cell -> Option<Cell>, yearOf: Cell -> Cell) returns (r: Result<Table>)
    requires WellFormed(matches) && ColumnSet(matches.columns) !! ColumnSet(InningColumns)
    ensures r == PreparedMatches(ds, matches, toDatetime, yearOf)
  {
    var inningScores := new Frame(ScoreTable(InningScores(ds)));
    inningScores.Rename("total_runs", "inning_score");
    var scores := inningScores.Snapshot();
    assert scores == InningScoreTable(ds);
    var merged :- InnerJoin(matches, scores, "id", "match_id");
    var mergedDf := new Frame(merged);
    var failure := AddYearAndVenue(mergedDf, toDatetime, yearOf);
    if failure.Some? {
      return Err(failure.value);
    }
    r := Ok(mergedDf.Snapshot());
  }

  /** `merge_datasets` on already loaded tables: steps 1 and 2, then the
      in-place rename of `Stadium`, the left merge, the drop and the fill. */
  method MergeDatasets(ds: seq<Delivery>, matches: Table, geo: Table,
                       toDatetime: Cell -> Option<Cell>, yearOf: Cell -> Cell,
                       mean: seq<Value> -> Value) returns (r: Result<Table>)
    requires WellFormed(matches) && WellFormed(geo) && Compatible(matches, geo)
    ensures r == MergedDataset(ds, matches, geo, toDatetime, yearOf, mean)
  {
    var prepared :- PrepareMatches(ds, matches, toDatetime, yearOf);
    var geoDf := new Frame(geo);
    RenameColumnMoves(geo, "Stadium", "venue");
    geoDf.Rename("Stadium", "venue");
    var final :- LeftJoin(prepared, geoDf.Snapshot(), GeoKeys);
    var dropped :- DropColumns(final, LeakageColumns);
    var finalDf := new Frame(dropped);
    finalDf.FillNumericMissing(mean);
    r := Ok(finalDf.Snapshot());
  }
}
