/** The two merges of the pipeline: the inner join of matches with inning
    scores on `id = match_id`, and the left join with the geographical table
    on `(venue, Year)`.  Rows come out in left-row order, and the right rows
    matching one left row in right-row order.  Keys compare by value: an
    integer key matches the float key of the same number, and two missing
    keys match each other, as pandas matches NaN keys. */
module Joins {
  import opened Tables

  /** The value a merge key is compared by: pandas casts an int64 key column
      to float64 to merge it with a float64 one, so an integer compares as the
      float of the same number; strings and missing keys compare as they are. */
  function KeyValue(c: Cell): Cell {
    match c
    case Some(Int(i)) => Some(Real(i as real))
    case _ => c
  }

  /** Two keys match exactly when they are the same cell or the same number,
      one written as an integer and the other as a float. */
  lemma SameKeyValue(a: Cell, b: Cell)
    ensures KeyValue(a) == KeyValue(b) <==>
      || a == b
      || (a.Some? && b.Some? && a.value.Int? && b.value.Real? && a.value.i as real == b.value.r)
      || (a.Some? && b.Some? && a.value.Real? && b.value.Int? && a.value.r == b.value.i as real)
  {
    if a.Some? && b.Some? && a.value.Int? && b.value.Int? && KeyValue(a) == KeyValue(b) {
      assert a.value.i as real == b.value.i as real;
    }
  }

  predicate AllHave(rs: seq<Row>, c: string) {
    forall j | 0 <= j < |rs| :: c in rs[j]
  }

  /** The key values of column `c` of `rs`, top to bottom. */
  function KeyCells(rs: seq<Row>, c: string): (r: seq<Cell>)
    requires AllHave(rs, c)
    ensures |r| == |rs| && forall j | 0 <= j < |rs| :: r[j] == KeyValue(rs[j][c])
  {
    seq(|rs|, j requires 0 <= j < |rs| => KeyValue(rs[j][c]))
  }

  // ---------------------------------------------------------------- inner join

  /** The right rows whose `rk` key matches `l[lk]`, each merged with `l`. */
  function InnerMatches(l: Row, rs: seq<Row>, lk: string, rk: string): seq<Row>
    requires lk in l && AllHave(rs, rk)
  {
    if rs == [] then []
    else (if KeyValue(rs[0][rk]) == KeyValue(l[lk]) then [l + rs[0]] else []) + InnerMatches(l, rs[1..], lk, rk)
  }

  function InnerJoinRows(ls: seq<Row>, rs: seq<Row>, lk: string, rk: string): seq<Row>
    requires AllHave(ls, lk) && AllHave(rs, rk)
  {
    if ls == [] then [] else InnerMatches(ls[0], rs, lk, rk) + InnerJoinRows(ls[1..], rs, lk, rk)
  }

  /** The number of (left, right) pairs whose keys agree: for each left row,
      how often its key occurs among the right rows' keys. */
  function PairCount(ls: seq<Row>, rs: seq<Row>, lk: string, rk: string): nat
    requires AllHave(ls, lk) && AllHave(rs, rk)
  {
    if ls == [] then 0 else multiset(KeyCells(rs, rk))[KeyValue(ls[0][lk])] + PairCount(ls[1..], rs, lk, rk)
  }

  lemma {:induction false} InnerMatchesCount(l: Row, rs: seq<Row>, lk: string, rk: string)
    requires lk in l && AllHave(rs, rk)
    ensures |InnerMatches(l, rs, lk, rk)| == multiset(KeyCells(rs, rk))[KeyValue(l[lk])]
  {
    if rs != [] {
      InnerMatchesCount(l, rs[1..], lk, rk);
      var k := KeyValue(l[lk]);
      assert KeyCells(rs, rk) == [KeyValue(rs[0][rk])] + KeyCells(rs[1..], rk);
      assert multiset(KeyCells(rs, rk))[k] == multiset([KeyValue(rs[0][rk])])[k] + multiset(KeyCells(rs[1..], rk))[k];
    }
  }

  /** The join has exactly one row per pair of a match and a score row with
      `id == match_id`. */
  lemma {:induction false} InnerJoinCount(ls: seq<Row>, rs: seq<Row>, lk: string, rk: string)
    requires AllHave(ls, lk) && AllHave(rs, rk)
    ensures |InnerJoinRows(ls, rs, lk, rk)| == PairCount(ls, rs, lk, rk)
  {
    if ls != [] {
      InnerMatchesCount(ls[0], rs, lk, rk);
      InnerJoinCount(ls[1..], rs, lk, rk);
    }
  }

  lemma {:induction false} InnerMatchesSound(l: Row, rs: seq<Row>, lk: string, rk: string)
    requires lk in l && AllHave(rs, rk)
    ensures forall e | e in InnerMatches(l, rs, lk, rk) :: exists j :: 0 <= j < |rs| && KeyValue(rs[j][rk]) == KeyValue(l[lk]) && e == l + rs[j]
  {
    if rs != [] {
      InnerMatchesSound(l, rs[1..], lk, rk);
      forall e | e in InnerMatches(l, rs, lk, rk)
        ensures exists j :: 0 <= j < |rs| && KeyValue(rs[j][rk]) == KeyValue(l[lk]) && e == l + rs[j]
      {
        if e in InnerMatches(l, rs[1..], lk, rk) {
          var j :| 0 <= j < |rs| - 1 && KeyValue(rs[1..][j][rk]) == KeyValue(l[lk]) && e == l + rs[1..][j];
          assert rs[j + 1] == rs[1..][j];
        } else {
          assert e == l + rs[0] && KeyValue(rs[0][rk]) == KeyValue(l[lk]);
        }
      }
    }
  }

  /** Every joined row is a match merged with a score row of the same id. */
  lemma {:induction false} InnerJoinSound(ls: seq<Row>, rs: seq<Row>, lk: string, rk: string)
    requires AllHave(ls, lk) && AllHave(rs, rk)
    ensures forall e | e in InnerJoinRows(ls, rs, lk, rk) ::
      exists i, j :: 0 <= i < |ls| && 0 <= j < |rs| && KeyValue(ls[i][lk]) == KeyValue(rs[j][rk]) && e == ls[i] + rs[j]
  {
    if ls != [] {
      InnerMatchesSound(ls[0], rs, lk, rk);
      InnerJoinSound(ls[1..], rs, lk, rk);
      forall e | e in InnerJoinRows(ls, rs, lk, rk)
        ensures exists i, j :: 0 <= i < |ls| && 0 <= j < |rs| && KeyValue(ls[i][lk]) == KeyValue(rs[j][rk]) && e == ls[i] + rs[j]
      {
        if e in InnerMatches(ls[0], rs, lk, rk) {
          var j :| 0 <= j < |rs| && KeyValue(rs[j][rk]) == KeyValue(ls[0][lk]) && e == ls[0] + rs[j];
        } else {
          assert e in InnerJoinRows(ls[1..], rs, lk, rk);
          var i, j :| 0 <= i < |ls[1..]| && 0 <= j < |rs| && KeyValue(ls[1..][i][lk]) == KeyValue(rs[j][rk]) && e == ls[1..][i] + rs[j];
          assert ls[i + 1] == ls[1..][i];
        }
      }
    }
  }

  lemma {:induction false} InnerMatchesComplete(l: Row, rs: seq<Row>, lk: string, rk: string, j: nat)
    requires lk in l && AllHave(rs, rk) && j < |rs| && KeyValue(rs[j][rk]) == KeyValue(l[lk])
    ensures l + rs[j] in InnerMatches(l, rs, lk, rk)
  {
    if j > 0 {
      InnerMatchesComplete(l, rs[1..], lk, rk, j - 1);
      assert rs[1..][j - 1] == rs[j];
    }
  }

  /** Every pair of a match and a score row with the same id is in the join. */
  lemma {:induction false} InnerJoinComplete(ls: seq<Row>, rs: seq<Row>, lk: string, rk: string, i: nat, j: nat)
    requires AllHave(ls, lk) && AllHave(rs, rk)
    requires i < |ls| && j < |rs| && KeyValue(ls[i][lk]) == KeyValue(rs[j][rk])
    ensures ls[i] + rs[j] in InnerJoinRows(ls, rs, lk, rk)
  {
    if i == 0 {
      InnerMatchesComplete(ls[0], rs, lk, rk, j);
    } else {
      InnerJoinComplete(ls[1..], rs, lk, rk, i - 1, j);
      assert ls[1..][i - 1] == ls[i];
    }
  }

  lemma {:induction false} InnerJoinAppend(a: seq<Row>, b: seq<Row>, rs: seq<Row>, lk: string, rk: string)
    requires AllHave(a, lk) && AllHave(b, lk) && AllHave(rs, rk)
    ensures AllHave(a + b, lk)
    ensures InnerJoinRows(a + b, rs, lk, rk) == InnerJoinRows(a, rs, lk, rk) + InnerJoinRows(b, rs, lk, rk)
  {
    if a != [] {
      assert (a + b)[1..] == a[1..] + b;
      InnerJoinAppend(a[1..], b, rs, lk, rk);
    } else {
      assert a + b == b;
    }
  }

  lemma {:induction false} InnerMatchesNone(l: Row, rs: seq<Row>, lk: string, rk: string)
    requires lk in l && AllHave(rs, rk)
    requires forall j | 0 <= j < |rs| :: KeyValue(rs[j][rk]) != KeyValue(l[lk])
    ensures InnerMatches(l, rs, lk, rk) == []
  {
    if rs != [] {
      InnerMatchesNone(l, rs[1..], lk, rk);
    }
  }

  /** A match with no score rows contributes nothing: taking it out of the
      match table leaves the join unchanged. */
  lemma InnerJoinUnmatched(a: seq<Row>, l: Row, b: seq<Row>, rs: seq<Row>, lk: string, rk: string)
    requires AllHave(a, lk) && lk in l && AllHave(b, lk) && AllHave(rs, rk)
    requires forall j | 0 <= j < |rs| :: KeyValue(rs[j][rk]) != KeyValue(l[lk])
    ensures AllHave(a + [l] + b, lk) && AllHave(a + b, lk)
    ensures InnerJoinRows(a + [l] + b, rs, lk, rk) == InnerJoinRows(a + b, rs, lk, rk)
  {
    InnerJoinAppend(a, [l], rs, lk, rk);
    InnerJoinAppend(a + [l], b, rs, lk, rk);
    InnerJoinAppend(a, b, rs, lk, rk);
    InnerMatchesNone(l, rs, lk, rk);
    assert InnerJoinRows([l], rs, lk, rk) == InnerMatches(l, rs, lk, rk) + InnerJoinRows([], rs, lk, rk);
  }

  /** `pd.merge(left, right, left_on=lk, right_on=rk, how='inner')`: both key
      columns are kept, left columns first.  pandas looks the right key up
      before the left one, so a KeyError names `rk` when the right table
      lacks it, and `lk` otherwise. */
  function InnerJoin(left: Table, right: Table, lk: string, rk: string): (r: Result<Table>)
    requires WellFormed(left) && WellFormed(right)
    requires ColumnSet(left.columns) !! ColumnSet(right.columns)
    ensures r.Ok? <==> lk in left.columns && rk in right.columns
    ensures rk !in right.columns ==> r == Err(MissingColumns([rk]))
    ensures rk in right.columns && lk !in left.columns ==> r == Err(MissingColumns([lk]))
    ensures r.Ok? ==>
      && WellFormed(r.value)
      && r.value.columns == left.columns + right.columns
      && r.value.numeric == left.numeric + right.numeric
      && AllHave(left.rows, lk) && AllHave(right.rows, rk)
      && r.value.rows == InnerJoinRows(left.rows, right.rows, lk, rk)
  {
    if rk !in right.columns then Err(MissingColumns([rk]))
    else if lk !in left.columns then Err(MissingColumns([lk]))
    else
      var rows := InnerJoinRows(left.rows, right.rows, lk, rk);
      var t := Table(left.columns + right.columns, left.numeric + right.numeric, rows);
      InnerJoinRowKeys(left.rows, right.rows, lk, rk, ColumnSet(left.columns), ColumnSet(right.columns));
      DisjointConcat(left.columns, right.columns);
      Ok(t)
  }

  /** Every merged row has the columns of both sides. */
  lemma InnerJoinRowKeys(ls: seq<Row>, rs: seq<Row>, lk: string, rk: string, lcols: set<string>, rcols: set<string>)
    requires AllHave(ls, lk) && AllHave(rs, rk)
    requires forall i | 0 <= i < |ls| :: ls[i].Keys == lcols
    requires forall j | 0 <= j < |rs| :: rs[j].Keys == rcols
    ensures forall k | 0 <= k < |InnerJoinRows(ls, rs, lk, rk)| :: InnerJoinRows(ls, rs, lk, rk)[k].Keys == lcols + rcols
  {
    var rows := InnerJoinRows(ls, rs, lk, rk);
    InnerJoinSound(ls, rs, lk, rk);
    forall k | 0 <= k < |rows| ensures rows[k].Keys == lcols + rcols {
      assert rows[k] in rows;
    }
  }

  lemma DisjointConcat(a: seq<string>, b: seq<string>)
    requires Distinct(a) && Distinct(b) && ColumnSet(a) !! ColumnSet(b)
    ensures Distinct(a + b) && ColumnSet(a + b) == ColumnSet(a) + ColumnSet(b)
  {
    var s := a + b;
    forall i, j | 0 <= i < j < |s| ensures s[i] != s[j] {
      if j >= |a| && i < |a| {
        assert s[i] in ColumnSet(a) && s[j] == b[j - |a|] && s[j] in ColumnSet(b);
      } else if i >= |a| {
        assert s[i] == b[i - |a|] && s[j] == b[j - |a|];
      }
    }
  }

  // ----------------------------------------------------------------- left join

  predicate AllHaveKeys(rs: seq<Row>, keys: seq<string>) {
    forall j | 0 <= j < |rs| :: ColumnSet(keys) <= rs[j].Keys
  }

  /** The key values of a row under the join keys, in key order. */
  function KeyOf(r: Row, keys: seq<string>): seq<Cell>
    requires ColumnSet(keys) <= r.Keys
  {
    seq(|keys|, i requires 0 <= i < |keys| => KeyValue(r[keys[i]]))
  }

  function KeyTuples(rs: seq<Row>, keys: seq<string>): (r: seq<seq<Cell>>)
    requires AllHaveKeys(rs, keys)
    ensures |r| == |rs| && forall j | 0 <= j < |rs| :: r[j] == KeyOf(rs[j], keys)
  {
    seq(|rs|, j requires 0 <= j < |rs| => KeyOf(rs[j], keys))
  }

  /** No two right rows share a key: one geographical record per (venue, Year). */
  predicate UniqueKeys(rs: seq<Row>, keys: seq<string>)
    requires AllHaveKeys(rs, keys)
  {
    forall i, j | 0 <= i < |rs| && 0 <= j < |rs| && i != j :: KeyOf(rs[i], keys) != KeyOf(rs[j], keys)
  }

  predicate NoMatch(l: Row, rs: seq<Row>, keys: seq<string>)
    requires ColumnSet(keys) <= l.Keys && AllHaveKeys(rs, keys)
  {
    forall j | 0 <= j < |rs| :: KeyOf(rs[j], keys) != KeyOf(l, keys)
  }

  /** A row of nulls over the given columns. */
  function NullRow(cols: set<string>): (r: Row)
    ensures r.Keys == cols && forall c | c in r :: r[c] == None
  {
    map c | c in cols :: None
  }

  /** Padding an unmatched left row with nulls keeps every cell of the row and
      adds exactly the padded columns, all missing. */
  lemma NullPadding(l: Row, cols: set<string>)
    requires l.Keys !! cols
    ensures var e := l + NullRow(cols);
      && e.Keys == l.Keys + cols
      && (forall c | c in l :: e[c] == l[c])
      && forall c | c in cols :: e[c] == None
  {
  }

  function LeftMatches(l: Row, rs: seq<Row>, keys: seq<string>): seq<Row>
    requires ColumnSet(keys) <= l.Keys && AllHaveKeys(rs, keys)
  {
    if rs == [] then []
    else (if KeyOf(rs[0], keys) == KeyOf(l, keys) then [rs[0] + l] else []) + LeftMatches(l, rs[1..], keys)
  }

  /** What one left row becomes: its matches, or itself padded with nulls. */
  function LeftRowsFor(l: Row, rs: seq<Row>, keys: seq<string>, nulls: Row): seq<Row>
    requires ColumnSet(keys) <= l.Keys && AllHaveKeys(rs, keys)
  {
    var m := LeftMatches(l, rs, keys);
    if m == [] then [l + nulls] else m
  }

  function LeftJoinRows(ls: seq<Row>, rs: seq<Row>, keys: seq<string>, nulls: Row): seq<Row>
    requires AllHaveKeys(ls, keys) && AllHaveKeys(rs, keys)
  {
    if ls == [] then [] else LeftRowsFor(ls[0], rs, keys, nulls) + LeftJoinRows(ls[1..], rs, keys, nulls)
  }

  /** For each left row, its number of matches, but at least one. */
  function KeptCount(ls: seq<Row>, rs: seq<Row>, keys: seq<string>): nat
    requires AllHaveKeys(ls, keys) && AllHaveKeys(rs, keys)
  {
    if ls == [] then 0
    else
      var m := multiset(KeyTuples(rs, keys))[KeyOf(ls[0], keys)];
      (if m == 0 then 1 else m) + KeptCount(ls[1..], rs, keys)
  }

  lemma {:induction false} LeftMatchesCount(l: Row, rs: seq<Row>, keys: seq<string>)
    requires ColumnSet(keys) <= l.Keys && AllHaveKeys(rs, keys)
    ensures |LeftMatches(l, rs, keys)| == multiset(KeyTuples(rs, keys))[KeyOf(l, keys)]
  {
    if rs != [] {
      LeftMatchesCount(l, rs[1..], keys);
      var k := KeyOf(l, keys);
      var tuples := KeyTuples(rs[1..], keys);
      assert KeyTuples(rs, keys) == [KeyOf(rs[0], keys)] + tuples;
      assert multiset(KeyTuples(rs, keys)) == multiset([KeyOf(rs[0], keys)]) + multiset(tuples);
      assert |LeftMatches(l, rs, keys)| == (if KeyOf(rs[0], keys) == k then 1 else 0) + |LeftMatches(l, rs[1..], keys)|;
    }
  }

  /** Multiplicity made explicit: a left row yields one output row per
      matching right row, and a single row when nothing matches. */
  lemma {:induction false} LeftJoinCount(ls: seq<Row>, rs: seq<Row>, keys: seq<string>, nulls: Row)
    requires AllHaveKeys(ls, keys) && AllHaveKeys(rs, keys)
    ensures |LeftJoinRows(ls, rs, keys, nulls)| == KeptCount(ls, rs, keys)
  {
    if ls != [] {
      LeftMatchesCount(ls[0], rs, keys);
      LeftJoinCount(ls[1..], rs, keys, nulls);
    }
  }

  lemma {:induction false} LeftMatchesSound(l: Row, rs: seq<Row>, keys: seq<string>)
    requires ColumnSet(keys) <= l.Keys && AllHaveKeys(rs, keys)
    ensures forall e | e in LeftMatches(l, rs, keys) ::
      exists j :: 0 <= j < |rs| && KeyOf(rs[j], keys) == KeyOf(l, keys) && e == rs[j] + l
  {
    if rs != [] {
      LeftMatchesSound(l, rs[1..], keys);
      forall e | e in LeftMatches(l, rs, keys)
        ensures exists j :: 0 <= j < |rs| && KeyOf(rs[j], keys) == KeyOf(l, keys) && e == rs[j] + l
      {
        if e in LeftMatches(l, rs[1..], keys) {
          var j :| 0 <= j < |rs| - 1 && KeyOf(rs[1..][j], keys) == KeyOf(l, keys) && e == rs[1..][j] + l;
          assert rs[j + 1] == rs[1..][j];
        } else {
          assert e == rs[0] + l;
        }
      }
    }
  }

  lemma {:induction false} LeftMatchesNone(l: Row, rs: seq<Row>, keys: seq<string>)
    requires ColumnSet(keys) <= l.Keys && AllHaveKeys(rs, keys)
    ensures LeftMatches(l, rs, keys) == [] <==> NoMatch(l, rs, keys)
  {
    if rs != [] {
      LeftMatchesNone(l, rs[1..], keys);
      if NoMatch(l, rs, keys) {
        assert NoMatch(l, rs[1..], keys) by {
          forall j | 0 <= j < |rs| - 1 ensures KeyOf(rs[1..][j], keys) != KeyOf(l, keys) {
            assert rs[1..][j] == rs[j + 1];
          }
        }
      } else {
        var j :| 0 <= j < |rs| && KeyOf(rs[j], keys) == KeyOf(l, keys);
        if j > 0 {
          assert rs[1..][j - 1] == rs[j];
        }
      }
    }
  }

  /** Under unique right keys a left row matches at most one right row. */
  lemma {:induction false} LeftMatchesUnique(l: Row, rs: seq<Row>, keys: seq<string>)
    requires ColumnSet(keys) <= l.Keys && AllHaveKeys(rs, keys) && UniqueKeys(rs, keys)
    ensures forall j | 0 <= j < |rs| && KeyOf(rs[j], keys) == KeyOf(l, keys) :: LeftMatches(l, rs, keys) == [rs[j] + l]
  {
    if rs != [] {
      var tail := rs[1..];
      assert AllHaveKeys(tail, keys) && UniqueKeys(tail, keys) by {
        forall a, b | 0 <= a < |tail| && 0 <= b < |tail| && a != b ensures KeyOf(tail[a], keys) != KeyOf(tail[b], keys) {
          assert tail[a] == rs[a + 1] && tail[b] == rs[b + 1];
        }
      }
      LeftMatchesUnique(l, tail, keys);
      forall j | 0 <= j < |rs| && KeyOf(rs[j], keys) == KeyOf(l, keys) ensures LeftMatches(l, rs, keys) == [rs[j] + l] {
        if j == 0 {
          forall b | 0 <= b < |tail| ensures KeyOf(tail[b], keys) != KeyOf(l, keys) {
            assert tail[b] == rs[b + 1];
          }
          LeftMatchesNone(l, tail, keys);
        } else {
          assert tail[j - 1] == rs[j];
        }
      }
    }
  }

  /** Left join semantics for one row under unique right keys: the row merged
      with its one matching record, or padded with nulls when there is none. */
  lemma LeftRowsForUnique(l: Row, rs: seq<Row>, keys: seq<string>, nulls: Row)
    requires ColumnSet(keys) <= l.Keys && AllHaveKeys(rs, keys) && UniqueKeys(rs, keys)
    ensures NoMatch(l, rs, keys) ==> LeftRowsFor(l, rs, keys, nulls) == [l + nulls]
    ensures forall j | 0 <= j < |rs| && KeyOf(rs[j], keys) == KeyOf(l, keys) :: LeftRowsFor(l, rs, keys, nulls) == [rs[j] + l]
  {
    LeftMatchesNone(l, rs, keys);
    LeftMatchesUnique(l, rs, keys);
  }

  /** Under unique right keys the left join keeps the left table's length and
      row order: output row i comes from left row i. */
  lemma {:induction false} LeftJoinUnique(ls: seq<Row>, rs: seq<Row>, keys: seq<string>, nulls: Row)
    requires AllHaveKeys(ls, keys) && AllHaveKeys(rs, keys) && UniqueKeys(rs, keys)
    ensures |LeftJoinRows(ls, rs, keys, nulls)| == |ls|
    ensures forall i | 0 <= i < |ls| :: LeftRowsFor(ls[i], rs, keys, nulls) == [LeftJoinRows(ls, rs, keys, nulls)[i]]
  {
    if ls != [] {
      LeftJoinUnique(ls[1..], rs, keys, nulls);
      var head := LeftRowsFor(ls[0], rs, keys, nulls);
      var tail := LeftJoinRows(ls[1..], rs, keys, nulls);
      LeftRowsForOne(ls[0], rs, keys, nulls);
      var out := LeftJoinRows(ls, rs, keys, nulls);
      assert out == head + tail;
      forall i | 0 <= i < |ls| ensures LeftRowsFor(ls[i], rs, keys, nulls) == [out[i]] {
        if i > 0 {
          assert ls[1..][i - 1] == ls[i];
          assert out[i] == tail[i - 1];
        }
      }
    }
  }

  /** Under unique right keys a left row yields exactly one row. */
  lemma LeftRowsForOne(l: Row, rs: seq<Row>, keys: seq<string>, nulls: Row)
    requires ColumnSet(keys) <= l.Keys && AllHaveKeys(rs, keys) && UniqueKeys(rs, keys)
    ensures |LeftRowsFor(l, rs, keys, nulls)| == 1
  {
    LeftRowsForUnique(l, rs, keys, nulls);
    if !NoMatch(l, rs, keys) {
      var j :| 0 <= j < |rs| && KeyOf(rs[j], keys) == KeyOf(l, keys);
    }
  }

  /** The rows a left row turns into keep all of its own cells (its key cells
      included: a matched record contributes only the columns the row lacks),
      provided the null padding covers none of its columns. */
  lemma LeftRowsForKeepLeft(l: Row, rs: seq<Row>, keys: seq<string>, nulls: Row)
    requires ColumnSet(keys) <= l.Keys && AllHaveKeys(rs, keys)
    requires l.Keys !! nulls.Keys
    ensures forall e, c | e in LeftRowsFor(l, rs, keys, nulls) && c in l :: c in e && e[c] == l[c]
  {
    LeftMatchesSound(l, rs, keys);
  }

  /** The rows a left row turns into all have the left columns together with
      the right columns. */
  lemma LeftRowsForColumns(l: Row, rs: seq<Row>, keys: seq<string>, nulls: Row, cols: set<string>)
    requires ColumnSet(keys) <= l.Keys && AllHaveKeys(rs, keys)
    requires forall j | 0 <= j < |rs| :: rs[j].Keys == cols
    requires nulls.Keys == cols - ColumnSet(keys)
    ensures forall e | e in LeftRowsFor(l, rs, keys, nulls) :: e.Keys == l.Keys + (cols - ColumnSet(keys))
  {
    LeftMatchesSound(l, rs, keys);
  }

  lemma {:induction false} LeftJoinRowsColumns(ls: seq<Row>, rs: seq<Row>, keys: seq<string>, nulls: Row, lcols: set<string>, rcols: set<string>)
    requires AllHaveKeys(ls, keys) && AllHaveKeys(rs, keys)
    requires forall i | 0 <= i < |ls| :: ls[i].Keys == lcols
    requires forall j | 0 <= j < |rs| :: rs[j].Keys == rcols
    requires nulls.Keys == rcols - ColumnSet(keys)
    ensures forall e | e in LeftJoinRows(ls, rs, keys, nulls) :: e.Keys == lcols + (rcols - ColumnSet(keys))
  {
    if ls != [] {
      LeftRowsForColumns(ls[0], rs, keys, nulls, rcols);
      LeftJoinRowsColumns(ls[1..], rs, keys, nulls, lcols, rcols);
    }
  }

  /** `e` holds every cell of `l` unchanged. */
  predicate Carries(e: Row, l: Row) {
    forall c | c in l :: c in e && e[c] == l[c]
  }

  /** Some row of `out` carries every cell of `l`. */
  predicate Appears(l: Row, out: seq<Row>) {
    exists k :: 0 <= k < |out| && Carries(out[k], l)
  }

  /** Every input row appears in the output: some output row carries all of
      its cells. */
  lemma {:induction false} LeftJoinKeepsEveryRow(ls: seq<Row>, rs: seq<Row>, keys: seq<string>, nulls: Row, i: nat)
    requires AllHaveKeys(ls, keys) && AllHaveKeys(rs, keys)
    requires forall a | 0 <= a < |ls| :: ls[a].Keys !! nulls.Keys
    requires i < |ls|
    ensures Appears(ls[i], LeftJoinRows(ls, rs, keys, nulls))
  {
    var out := LeftJoinRows(ls, rs, keys, nulls);
    var head := LeftRowsFor(ls[0], rs, keys, nulls);
    var tail := LeftJoinRows(ls[1..], rs, keys, nulls);
    assert out == head + tail;
    if i == 0 {
      LeftRowsForKeepLeft(ls[0], rs, keys, nulls);
      assert |head| > 0;
      assert head[0] in head && out[0] == head[0];
      assert Carries(out[0], ls[i]);
    } else {
      assert ls[1..][i - 1] == ls[i];
      assert forall a | 0 <= a < |ls[1..]| :: ls[1..][a].Keys !! nulls.Keys;
      LeftJoinKeepsEveryRow(ls[1..], rs, keys, nulls, i - 1);
      var k :| 0 <= k < |tail| && Carries(tail[k], ls[i]);
      assert out[|head| + k] == tail[k];
    }
  }

  /** A successful left join has the columns of both tables. */
  lemma LeftJoinColumnSet(left: Table, right: Table, keys: seq<string>)
    requires WellFormed(left) && WellFormed(right)
    requires ColumnSet(left.columns) * ColumnSet(right.columns) <= ColumnSet(keys)
    requires LeftJoin(left, right, keys).Ok?
    ensures ColumnSet(LeftJoin(left, right, keys).value.columns) == ColumnSet(left.columns) + ColumnSet(right.columns)
  {
    var extra := Without(right.columns, ColumnSet(keys));
    assert ColumnSet(left.columns + extra) == ColumnSet(left.columns) + ColumnSet(extra);
  }

  /** The position of the first key that one of the two tables lacks. */
  function FirstMissingKey(keys: seq<string>, lcols: seq<string>, rcols: seq<string>): (r: Option<nat>)
    ensures r.None? <==> forall i | 0 <= i < |keys| :: keys[i] in lcols && keys[i] in rcols
    ensures r.Some? ==>
      && r.value < |keys| && (keys[r.value] !in rcols || keys[r.value] !in lcols)
      && forall j | 0 <= j < r.value :: keys[j] in lcols && keys[j] in rcols
  {
    if keys == [] then None
    else if keys[0] !in rcols || keys[0] !in lcols then Some(0)
    else match FirstMissingKey(keys[1..], lcols, rcols)
      case None =>
        assert forall i | 0 <= i < |keys| :: keys[i] in lcols && keys[i] in rcols by {
          forall i | 0 <= i < |keys| ensures keys[i] in lcols && keys[i] in rcols {
            if i > 0 { assert keys[i] == keys[1..][i - 1]; }
          }
        }
        None
      case Some(i) =>
        assert keys[i + 1] == keys[1..][i];
        assert forall j | 0 <= j < i + 1 :: keys[j] in lcols && keys[j] in rcols by {
          forall j | 0 <= j < i + 1 ensures keys[j] in lcols && keys[j] in rcols {
            if j > 0 { assert keys[j] == keys[1..][j - 1]; }
          }
        }
        Some(i + 1)
  }

  /** `pd.merge(left, right, on=keys, how='left')`: the key columns appear once,
      with the left rows' key cells; the right table's other columns follow the
      left ones.  pandas looks the keys up in order, each in the right table
      before the left one, so the KeyError names the first key either lacks. */
  function LeftJoin(left: Table, right: Table, keys: seq<string>): (r: Result<Table>)
    requires WellFormed(left) && WellFormed(right)
    requires ColumnSet(left.columns) * ColumnSet(right.columns) <= ColumnSet(keys)
    ensures r.Ok? <==> ColumnSet(keys) <= ColumnSet(left.columns) && ColumnSet(keys) <= ColumnSet(right.columns)
    ensures r.Err? ==> exists i | 0 <= i < |keys| ::
      && r.error == MissingColumns([keys[i]])
      && (keys[i] !in right.columns || keys[i] !in left.columns)
      && forall j | 0 <= j < i :: keys[j] in right.columns && keys[j] in left.columns
    ensures r.Ok? ==>
      && WellFormed(r.value)
      && r.value.columns == left.columns + Without(right.columns, ColumnSet(keys))
      && r.value.numeric == left.numeric + (right.numeric - ColumnSet(keys))
      && AllHaveKeys(left.rows, keys) && AllHaveKeys(right.rows, keys)
      && r.value.rows == LeftJoinRows(left.rows, right.rows, keys, NullRow(ColumnSet(right.columns) - ColumnSet(keys)))
  {
    match FirstMissingKey(keys, left.columns, right.columns)
    case Some(i) =>
      assert keys[i] in ColumnSet(keys);
      Err(MissingColumns([keys[i]]))
    case None =>
      var extra := Without(right.columns, ColumnSet(keys));
      var nulls := NullRow(ColumnSet(right.columns) - ColumnSet(keys));
      var rows := LeftJoinRows(left.rows, right.rows, keys, nulls);
      var t := Table(left.columns + extra, left.numeric + (right.numeric - ColumnSet(keys)), rows);
      DisjointConcat(left.columns, extra);
      LeftJoinRowsColumns(left.rows, right.rows, keys, nulls, ColumnSet(left.columns), ColumnSet(right.columns));
      assert forall k | 0 <= k < |rows| :: rows[k].Keys == ColumnSet(t.columns) by {
        forall k | 0 <= k < |rows| ensures rows[k].Keys == ColumnSet(t.columns) {
          assert rows[k] in rows;
        }
      }
      Ok(t)
  }
}
