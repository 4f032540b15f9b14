/** The data model shared by the pipeline: a pandas DataFrame seen as a
    sequence of rows, each row a map from column name to a nullable cell. */
module Tables {

  datatype Option<+T> = None | Some(value: T)

  /** A cell value as the pipeline meets it: an integer, a float or a string. */
  datatype Value = Int(i: int) | Real(r: real) | Str(s: string)

  /** A nullable cell; None stands for pandas' NaN / NaT. */
  type Cell = Option<Value>

  type Row = map<string, Cell>

  /** A DataFrame: its ordered column names, the columns whose dtype is numeric
      (what `select_dtypes(include=np.number)` selects), and its rows. */
  datatype Table = Table(columns: seq<string>, numeric: set<string>, rows: seq<Row>)

  /** The failures the model tracks once the inputs are loaded: a KeyError
      naming absent columns, or a date that cannot be parsed.  (pandas can
      raise others the model does not reach, such as the ValueError of a merge
      between a string key and a numeric key.) */
  datatype Error = MissingColumns(names: seq<string>) | UnparseableDate(cell: Cell)

  datatype Result<+T> = Ok(value: T) | Err(error: Error) {
    predicate IsFailure() { Err? }

    function PropagateFailure<U>(): Result<U>
      requires Err?
    {
      Err(error)
    }

    function Extract(): T
      requires Ok?
    {
      value
    }
  }

  function ColumnSet(cols: seq<string>): set<string> {
    set c | c in cols
  }

  predicate Distinct(cols: seq<string>) {
    forall i, j | 0 <= i < j < |cols| :: cols[i] != cols[j]
  }

  /** Every row has exactly the table's columns, which are distinct. */
  predicate WellFormed(t: Table) {
    && Distinct(t.columns)
    && t.numeric <= ColumnSet(t.columns)
    && forall i | 0 <= i < |t.rows| :: t.rows[i].Keys == ColumnSet(t.columns)
  }

  /** The names in `wanted` that are not columns of `cols`, in the order asked. */
  function Absent(cols: seq<string>, wanted: seq<string>): (r: seq<string>)
    ensures forall c :: c in r <==> c in wanted && c !in cols
  {
    if wanted == [] then []
    else (if wanted[0] in cols then [] else [wanted[0]]) + Absent(cols, wanted[1..])
  }

  /** `cols` with every name of `drop` taken out, order kept. */
  function Without(cols: seq<string>, drop: set<string>): (r: seq<string>)
    ensures ColumnSet(r) == ColumnSet(cols) - drop
    ensures Distinct(cols) ==> Distinct(r)
  {
    if cols == [] then []
    else
      var rest := Without(cols[1..], drop);
      assert ColumnSet(cols) == {cols[0]} + ColumnSet(cols[1..]);
      DistinctTail(cols);
      if cols[0] in drop then rest
      else
        DistinctCons(cols[0], rest);
        assert ColumnSet([cols[0]] + rest) == {cols[0]} + ColumnSet(rest);
        [cols[0]] + rest
  }

  /** `Without` keeps the order of what remains: it distributes over
      concatenation, so it works column by column (see `WithoutSingle`). */
  lemma {:induction false} WithoutOrder(a: seq<string>, b: seq<string>, drop: set<string>)
    ensures Without(a + b, drop) == Without(a, drop) + Without(b, drop)
  {
    if a == [] {
      assert a + b == b;
    } else {
      var ab := a + b;
      assert ab[0] == a[0] && ab[1..] == a[1..] + b;
      WithoutOrder(a[1..], b, drop);
      var tail := Without(a[1..], drop) + Without(b, drop);
      if a[0] in drop {
        assert Without(ab, drop) == tail;
        assert Without(a, drop) == Without(a[1..], drop);
      } else {
        assert Without(ab, drop) == [a[0]] + tail;
        assert Without(a, drop) == [a[0]] + Without(a[1..], drop);
      }
    }
  }

  /** One column survives exactly when it is not dropped. */
  lemma WithoutSingle(c: string, drop: set<string>)
    ensures Without([c], drop) == if c in drop then [] else [c]
  {
    assert [c][1..] == [];
  }

  /** Dropping names that are not there leaves the columns as they are. */
  lemma {:induction false} WithoutNothing(cols: seq<string>, drop: set<string>)
    requires ColumnSet(cols) !! drop
    ensures Without(cols, drop) == cols
  {
    if cols != [] {
      assert ColumnSet(cols[1..]) <= ColumnSet(cols);
      WithoutNothing(cols[1..], drop);
      assert cols == [cols[0]] + cols[1..];
    }
  }

  lemma DistinctTail(cols: seq<string>)
    requires cols != []
    ensures Distinct(cols) ==> Distinct(cols[1..]) && cols[0] !in cols[1..]
  {
    if Distinct(cols) {
      forall j | 0 <= j < |cols| - 1 ensures cols[1..][j] != cols[0] {
        assert cols[1..][j] == cols[j + 1];
      }
    }
  }

  lemma DistinctCons(c: string, rest: seq<string>)
    ensures c !in rest && Distinct(rest) ==> Distinct([c] + rest)
  {
    if c !in rest && Distinct(rest) {
      var s := [c] + rest;
      forall i, j | 0 <= i < j < |s| ensures s[i] != s[j] {
        assert s[j] == rest[j - 1];
        if i > 0 { assert s[i] == rest[i - 1]; }
      }
    }
  }

  /** `df[name]`: the cells of one column, top to bottom; a KeyError when absent. */
  function ColumnCells(t: Table, name: string): (r: Result<seq<Cell>>)
    requires WellFormed(t)
    ensures r.Ok? <==> name in t.columns
    ensures r.Err? ==> r.error == MissingColumns([name])
    ensures r.Ok? ==> |r.value| == |t.rows| && forall i | 0 <= i < |t.rows| :: r.value[i] == t.rows[i][name]
  {
    if name !in t.columns then Err(MissingColumns([name]))
    else Ok(seq(|t.rows|, i requires 0 <= i < |t.rows| => t.rows[i][name]))
  }

  /** `df[name] = cells`: overwrite the column if it exists, otherwise append it;
      the column's dtype becomes that of the assigned series. */
  function WithColumn(t: Table, name: string, cells: seq<Cell>, isNumeric: bool): (r: Table)
    requires |cells| == |t.rows|
  {
    Table(if name in t.columns then t.columns else t.columns + [name],
          if isNumeric then t.numeric + {name} else t.numeric - {name},
          seq(|t.rows|, i requires 0 <= i < |t.rows| => t.rows[i][name := cells[i]]))
  }

  /** A column assignment keeps the table well formed and adds `name` to the
      column set. */
  lemma WithColumnWellFormed(t: Table, name: string, cells: seq<Cell>, isNumeric: bool)
    requires WellFormed(t) && |cells| == |t.rows|
    ensures var r := WithColumn(t, name, cells, isNumeric);
      && WellFormed(r)
      && ColumnSet(r.columns) == ColumnSet(t.columns) + {name}
  {
    var r := WithColumn(t, name, cells, isNumeric);
    if name !in t.columns {
      forall i, j | 0 <= i < j < |r.columns| ensures r.columns[i] != r.columns[j] {
        if j == |t.columns| {
          assert r.columns[i] == t.columns[i];
        }
      }
      assert ColumnSet(r.columns) == ColumnSet(t.columns) + {name};
    }
  }

  /** A column assignment keeps the table well formed, adds `name` to the columns
      and changes no other cell. */
  lemma WithColumnShape(t: Table, name: string, cells: seq<Cell>, isNumeric: bool)
    requires WellFormed(t) && |cells| == |t.rows|
    ensures var r := WithColumn(t, name, cells, isNumeric);
      && WellFormed(r)
      && ColumnSet(r.columns) == ColumnSet(t.columns) + {name}
      && |r.rows| == |t.rows|
      && (isNumeric <==> name in r.numeric)
      && (forall c | c != name :: c in r.numeric <==> c in t.numeric)
      && forall i, c | 0 <= i < |t.rows| && c in t.rows[i] && c != name :: r.rows[i][c] == t.rows[i][c]
  {
    WithColumnWellFormed(t, name, cells, isNumeric);
  }

  /** Reading back an assigned column gives exactly the assigned cells. */
  lemma ColumnCellsWithColumn(t: Table, name: string, cells: seq<Cell>, isNumeric: bool)
    requires WellFormed(t) && |cells| == |t.rows|
    ensures WellFormed(WithColumn(t, name, cells, isNumeric))
    ensures ColumnCells(WithColumn(t, name, cells, isNumeric), name) == Ok(cells)
  {
    WithColumnShape(t, name, cells, isNumeric);
    var r := WithColumn(t, name, cells, isNumeric);
    assert name in r.columns;
    assert ColumnCells(r, name).value == cells;
  }

  function RenameKey(r: Row, from: string, to: string): Row
    requires from in r
  {
    (r - {from})[to := r[from]]
  }

  function Renamed(cols: seq<string>, from: string, to: string): (r: seq<string>)
    ensures |r| == |cols|
    ensures forall i | 0 <= i < |cols| :: r[i] == if cols[i] == from then to else cols[i]
  {
    seq(|cols|, i requires 0 <= i < |cols| => if cols[i] == from then to else cols[i])
  }

  /** `df.rename(columns={from: to})`: a no-op when `from` is not a column
      (pandas ignores unknown labels); otherwise the column keeps its place,
      its cells and its dtype under the new name.  (A rename onto an existing
      column would give a frame with two equal labels, which rows-as-maps cannot
      hold: the requires leaves that out.) */
  function RenameColumn(t: Table, from: string, to: string): (r: Table)
    requires from in t.columns && from != to ==> to !in t.columns
  {
    if from !in t.columns || from == to then t
    else
      Table(Renamed(t.columns, from, to),
            if from in t.numeric then t.numeric - {from} + {to} else t.numeric,
            seq(|t.rows|, i requires 0 <= i < |t.rows| =>
              if from in t.rows[i] then RenameKey(t.rows[i], from, to) else t.rows[i]))
  }

  /** After a rename the cells once under `from` are found under `to`, every
      other cell is where it was, and the table stays well formed. */
  lemma RenameColumnMoves(t: Table, from: string, to: string)
    requires WellFormed(t)
    requires from in t.columns && from != to ==> to !in t.columns
    ensures var r := RenameColumn(t, from, to);
      && WellFormed(r)
      && |r.rows| == |t.rows|
      && (from in t.columns && from != to ==>
            && ColumnSet(r.columns) == ColumnSet(t.columns) - {from} + {to}
            && (to in r.numeric <==> from in t.numeric)
            && forall i | 0 <= i < |t.rows| :: r.rows[i][to] == t.rows[i][from])
      && forall i, c | 0 <= i < |t.rows| && c in t.rows[i] && c != from && c != to :: c in r.rows[i] && r.rows[i][c] == t.rows[i][c]
  {
    if from in t.columns && from != to {
      var r := RenameColumn(t, from, to);
      var k :| 0 <= k < |t.columns| && t.columns[k] == from;
      forall c ensures c in ColumnSet(r.columns) <==> c in ColumnSet(t.columns) - {from} + {to} {
        if c == to { assert r.columns[k] == to; }
        if c in ColumnSet(t.columns) - {from} + {to} && c != to {
          var j :| 0 <= j < |t.columns| && t.columns[j] == c;
          assert r.columns[j] == c;
        }
      }
      forall i | 0 <= i < |r.rows| ensures r.rows[i].Keys == ColumnSet(r.columns) {
        assert from in t.rows[i];
      }
    }
  }
}
