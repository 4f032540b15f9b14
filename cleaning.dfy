/** The last two steps: dropping the identifier and leakage columns, and
    filling the missing cells of numeric columns with a per-column value. */
module Cleaning {
  import opened Tables

  /** The identifier and leakage columns removed before training. */
  const LeakageColumns: seq<string> :=
    ["id", "match_id", "player_of_match", "result", "dl_applied", "umpire1", "umpire2", "umpire3"]

  function DropRow(r: Row, drop: set<string>): Row {
    map c | c in r && c !in drop :: r[c]
  }

  /** `df.drop(columns=names)`: a KeyError listing the names that are not
      columns; otherwise the table without them, in which every other column
      keeps its place in the order, its dtype and all its cells. */
  function DropColumns(t: Table, names: seq<string>): (r: Result<Table>)
    requires WellFormed(t)
    ensures r.Ok? <==> ColumnSet(names) <= ColumnSet(t.columns)
    ensures r.Err? ==> r.error == MissingColumns(Absent(t.columns, names))
    ensures r.Ok? ==>
      && WellFormed(r.value)
      && r.value.columns == Without(t.columns, ColumnSet(names))
      && |r.value.rows| == |t.rows|
      && (forall c | c in names ::
            && c !in r.value.columns && c !in r.value.numeric
            && forall i | 0 <= i < |r.value.rows| :: c !in r.value.rows[i])
      && (forall c | c in t.columns && c !in names ::
            && c in r.value.columns
            && (c in r.value.numeric <==> c in t.numeric)
            && forall i | 0 <= i < |t.rows| :: c in r.value.rows[i] && r.value.rows[i][c] == t.rows[i][c])
  {
    var missing := Absent(t.columns, names);
    if missing != [] then
      assert missing[0] in missing && missing[0] !in ColumnSet(t.columns);
      Err(MissingColumns(missing))
    else
      var drop := ColumnSet(names);
      var r := Table(Without(t.columns, drop), t.numeric - drop,
                     seq(|t.rows|, i requires 0 <= i < |t.rows| => DropRow(t.rows[i], drop)));
      assert forall c | c in t.columns && c !in names :: c in r.columns by {
        forall c | c in t.columns && c !in names ensures c in r.columns {
          assert c in ColumnSet(t.columns) - drop;
          assert c in ColumnSet(r.columns);
        }
      }
      Ok(r)
  }

  // ------------------------------------------------------------ numeric fill

  /** The present values of column `c`, top to bottom: what pandas averages. */
  function PresentValues(rows: seq<Row>, c: string): seq<Value> {
    if rows == [] then []
    else (if c in rows[0] && rows[0][c].Some? then [rows[0][c].value] else []) + PresentValues(rows[1..], c)
  }

  lemma {:induction false} PresentValuesEmpty(rows: seq<Row>, c: string)
    ensures PresentValues(rows, c) == [] <==> forall i | 0 <= i < |rows| && c in rows[i] :: rows[i][c].None?
  {
    if rows != [] {
      PresentValuesEmpty(rows[1..], c);
      if PresentValues(rows, c) == [] {
        forall i | 0 <= i < |rows| && c in rows[i] ensures rows[i][c].None? {
          if i > 0 { assert rows[1..][i - 1] == rows[i]; }
        }
      } else if c !in rows[0] || rows[0][c].None? {
        var i :| 0 <= i < |rows| - 1 && c in rows[1..][i] && rows[1..][i][c].Some?;
        assert rows[i + 1] == rows[1..][i];
      }
    }
  }

  /** The value a column's holes are filled with: `mean` of its present values
      for a numeric column that has any; none otherwise (the mean of an
      all-NaN column is NaN, so filling with it changes nothing). */
  function FillValue(t: Table, c: string, mean: seq<Value> -> Value): Option<Value> {
    var present := PresentValues(t.rows, c);
    if c in t.numeric && present != [] then Some(mean(present)) else None
  }

  function FillCell(cell: Cell, fill: Option<Value>): Cell {
    if cell.None? && fill.Some? then Some(fill.value) else cell
  }

  /** `df[numeric_cols] = df[numeric_cols].fillna(df[numeric_cols].mean())`,
      with the averaging left abstract as `mean`.  Only missing cells of
      numeric columns change: each gets its column's fill value, computed
      from that column's present values alone; the header, the dtypes and
      every present or non-numeric cell stay as they were. */
  function Imputed(t: Table, mean: seq<Value> -> Value): (r: Table)
    ensures r.columns == t.columns && r.numeric == t.numeric && |r.rows| == |t.rows|
    ensures WellFormed(t) ==> WellFormed(r)
    ensures forall i | 0 <= i < |t.rows| :: r.rows[i].Keys == t.rows[i].Keys
    ensures forall i, c | 0 <= i < |t.rows| && c in t.rows[i] && (t.rows[i][c].Some? || c !in t.numeric) ::
      r.rows[i][c] == t.rows[i][c]
    ensures forall i, c | 0 <= i < |t.rows| && c in t.rows[i] && c in t.numeric && t.rows[i][c].None? ::
      r.rows[i][c] == if PresentValues(t.rows, c) == [] then None else Some(mean(PresentValues(t.rows, c)))
  {
    t.(rows := seq(|t.rows|, i requires 0 <= i < |t.rows| =>
      map c | c in t.rows[i] :: FillCell(t.rows[i][c], FillValue(t, c, mean))))
  }

  /** A numeric column with at least one present value has no missing cell
      afterwards; one with none is left entirely missing. */
  lemma ImputedNoMissing(t: Table, mean: seq<Value> -> Value, c: string)
    requires c in t.numeric
    ensures var r := Imputed(t, mean);
      && (PresentValues(t.rows, c) != [] ==> forall i | 0 <= i < |r.rows| && c in r.rows[i] :: r.rows[i][c].Some?)
      && (PresentValues(t.rows, c) == [] ==> forall i | 0 <= i < |r.rows| && c in r.rows[i] :: r.rows[i][c].None?)
  {
    PresentValuesEmpty(t.rows, c);
  }

  /** After the fill, every numeric column is either complete or, having had
      no value to average, entirely missing. */
  lemma ImputedColumnsComplete(t: Table, mean: seq<Value> -> Value)
    requires WellFormed(t)
    ensures var r := Imputed(t, mean);
      forall c | c in r.numeric ::
        || (forall i | 0 <= i < |r.rows| :: r.rows[i][c].Some?)
        || (forall i | 0 <= i < |r.rows| :: r.rows[i][c].None?)
  {
    var r := Imputed(t, mean);
    forall c | c in r.numeric
      ensures || (forall i | 0 <= i < |r.rows| :: r.rows[i][c].Some?)
              || (forall i | 0 <= i < |r.rows| :: r.rows[i][c].None?)
    {
      ImputedNoMissing(t, mean, c);
    }
  }

  /** Filling is idempotent: a second fill finds nothing left to fill. */
  lemma ImputedIdempotent(t: Table, mean: seq<Value> -> Value)
    ensures Imputed(Imputed(t, mean), mean) == Imputed(t, mean)
  {
    var r := Imputed(t, mean);
    var r2 := Imputed(r, mean);
    forall i | 0 <= i < |r.rows| ensures r2.rows[i] == r.rows[i] {
      forall c | c in r.rows[i] ensures r2.rows[i][c] == r.rows[i][c] {
        if r.rows[i][c].None? && c in r.numeric {
          // the cell was missing and not filled, so its column had no present value
          assert PresentValues(t.rows, c) == [];
          ImputedNoMissing(t, mean, c);
          PresentValuesEmpty(r.rows, c);
        }
      }
    }
  }
}
