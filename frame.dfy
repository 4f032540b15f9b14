/** A DataFrame that the pipeline updates in place: renames with
    `inplace=True`, column assignments `df[name] = ...`, and the final fill of
    missing numeric cells. */
module Frames {
  import opened Tables
  import Cleaning

  class Frame {
    var columns: seq<string>
    var numeric: set<string>
    var rows: seq<Row>

    /** The frame's current contents as a table value. */
    function Snapshot(): Table
      reads this
    {
      Table(columns, numeric, rows)
    }

    constructor (t: Table)
      ensures Snapshot() == t
    {
      columns, numeric, rows := t.columns, t.numeric, t.rows;
    }

    /** `df.rename(columns={from: to}, inplace=True)`. */
    method Rename(from: string, to: string)
      requires from in columns && from != to ==> to !in columns
      modifies this
      ensures Snapshot() == RenameColumn(old(Snapshot()), from, to)
    {
      if from in columns && from != to {
        var rs := rows;
        rows := seq(|rs|, i requires 0 <= i < |rs| => if from in rs[i] then RenameKey(rs[i], from, to) else rs[i]);
        numeric := if from in numeric then numeric - {from} + {to} else numeric;
        columns := Renamed(columns, from, to);
      }
    }

    /** `df[name] = cells`, the series aligned row by row. */
    method Assign(name: string, cells: seq<Cell>, isNumeric: bool)
      requires |cells| == |rows|
      modifies this
      ensures Snapshot() == WithColumn(old(Snapshot()), name, cells, isNumeric)
    {
      var rs := rows;
      rows := seq(|rs|, i requires 0 <= i < |rs| => rs[i][name := cells[i]]);
      if name !in columns {
        columns := columns + [name];
      }
      numeric := if isNumeric then numeric + {name} else numeric - {name};
    }

    /** Fills the missing cells of column `c` with `v`, top to bottom. */
    method FillColumn(c: string, v: Value)
      modifies this
      ensures columns == old(columns) && numeric == old(numeric) && |rows| == |old(rows)|
      ensures forall j | 0 <= j < |rows| :: rows[j].Keys == old(rows[j].Keys)
      ensures forall j, d | 0 <= j < |rows| && d in rows[j] ::
        rows[j][d] == if d == c then Cleaning.FillCell(old(rows[j][d]), Some(v)) else old(rows[j][d])
    {
      var i := 0;
      while i < |rows|
        invariant 0 <= i <= |rows| == |old(rows)|
        invariant columns == old(columns) && numeric == old(numeric)
        invariant forall j | 0 <= j < |rows| :: rows[j].Keys == old(rows[j].Keys)
        invariant forall j, d | 0 <= j < |rows| && d in rows[j] ::
          rows[j][d] == if d == c && j < i then Cleaning.FillCell(old(rows[j][d]), Some(v)) else old(rows[j][d])
      {
        if c in rows[i] && rows[i][c].None? {
          rows := rows[i := rows[i][c := Some(v)]];
        }
        i := i + 1;
      }
    }

    /** `df[numeric_cols] = df[numeric_cols].fillna(df[numeric_cols].mean())`:
        the fill values are taken from the frame as it was before the fill,
        then each numeric column's missing cells are filled in column order. */
    method FillNumericMissing(mean: seq<Value> -> Value)
      requires WellFormed(Snapshot())
      modifies this
      ensures Snapshot() == Cleaning.Imputed(old(Snapshot()), mean)
    {
      var t := Snapshot();
      var numericCols := Without(t.columns, ColumnSet(t.columns) - t.numeric);
      ghost var done: set<string> := {};
      var k := 0;
      while k < |numericCols|
        invariant 0 <= k <= |numericCols|
        invariant done == ColumnSet(numericCols[..k])
        invariant columns == t.columns && numeric == t.numeric
        invariant FilledUpTo(rows, t, done, mean)
      {
        var c := numericCols[k];
        assert c in ColumnSet(numericCols);
        assert numericCols[..k + 1] == numericCols[..k] + [c];
        assert c !in done by {
          forall j | 0 <= j < k ensures numericCols[j] != c {}
        }
        var present := Cleaning.PresentValues(t.rows, c);
        ghost var before := rows;
        if present != [] {
          FillColumn(c, mean(present));
        }
        FilledStep(before, rows, t, done, c, mean);
        done := done + {c};
        k := k + 1;
      }
      assert numericCols[..k] == numericCols;
      assert done == t.numeric;
      FilledAll(rows, t, mean);
    }
  }

  /** The rows `rs` are `t`'s rows with the columns in `done` filled. */
  ghost predicate FilledUpTo(rs: seq<Row>, t: Table, done: set<string>, mean: seq<Value> -> Value) {
    && |rs| == |t.rows|
    && (forall i | 0 <= i < |rs| :: rs[i].Keys == t.rows[i].Keys)
    && forall i, c | 0 <= i < |rs| && c in rs[i] ::
         rs[i][c] == if c in done then Cleaning.FillCell(t.rows[i][c], Cleaning.FillValue(t, c, mean)) else t.rows[i][c]
  }

  /** Filling one more numeric column `c` (or leaving it alone when it has no
      fill value) extends the filled set by `c`. */
  lemma FilledStep(before: seq<Row>, after: seq<Row>, t: Table, done: set<string>, c: string, mean: seq<Value> -> Value)
    requires FilledUpTo(before, t, done, mean) && c !in done && c in t.numeric
    requires Cleaning.PresentValues(t.rows, c) == [] ==> after == before
    requires Cleaning.PresentValues(t.rows, c) != [] ==>
      && |after| == |before|
      && (forall j | 0 <= j < |after| :: after[j].Keys == before[j].Keys)
      && forall j, d | 0 <= j < |after| && d in after[j] ::
           after[j][d] == if d == c then Cleaning.FillCell(before[j][d], Cleaning.FillValue(t, c, mean)) else before[j][d]
    ensures FilledUpTo(after, t, done + {c}, mean)
  {
    forall i, d | 0 <= i < |after| && d in after[i]
      ensures after[i][d] == if d in done + {c} then Cleaning.FillCell(t.rows[i][d], Cleaning.FillValue(t, d, mean)) else t.rows[i][d]
    {
      assert d in before[i];
    }
  }

  /** Once every numeric column is filled, the rows are those of the imputed table. */
  lemma FilledAll(rs: seq<Row>, t: Table, mean: seq<Value> -> Value)
    requires WellFormed(t) && FilledUpTo(rs, t, t.numeric, mean)
    ensures rs == Cleaning.Imputed(t, mean).rows
  {
    var r := Cleaning.Imputed(t, mean);
    forall i | 0 <= i < |rs| ensures rs[i] == r.rows[i] {
      forall c | c in rs[i] ensures rs[i][c] == r.rows[i][c] {
      }
    }
  }
}
