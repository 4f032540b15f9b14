/** Inning aggregation: the delivery table grouped by (match_id, inning) with
    total_runs summed per group, one row per group in groupby's sorted order. */
module Innings {
  import opened Tables

  /** The three delivery columns the aggregation reads; the others are unused. */
  datatype Delivery = Delivery(matchId: int, inning: int, totalRuns: int)

  /** One row of the aggregated table. */
  datatype InningScore = InningScore(matchId: int, inning: int, runs: int)

  type Key = (int, int)

  function DeliveryKey(d: Delivery): Key { (d.matchId, d.inning) }

  function ScoreKey(s: InningScore): Key { (s.matchId, s.inning) }

  /** The order groupby emits its groups in: by match, then by inning. */
  predicate Precedes(a: Key, b: Key) {
    a.0 < b.0 || (a.0 == b.0 && a.1 < b.1)
  }

  predicate StrictlySorted(ss: seq<InningScore>) {
    forall i, j | 0 <= i < j < |ss| :: Precedes(ScoreKey(ss[i]), ScoreKey(ss[j]))
  }

  /** The (match, inning) pairs that have at least one delivery. */
  function PlayedInnings(ds: seq<Delivery>): set<Key> {
    set d | d in ds :: DeliveryKey(d)
  }

  function Keys(ss: seq<InningScore>): set<Key> {
    set s | s in ss :: ScoreKey(s)
  }

  /** The reference sum: total_runs added up over the deliveries of one inning. */
  function InningRuns(ds: seq<Delivery>, k: Key): int {
    if ds == [] then 0
    else (if DeliveryKey(ds[0]) == k then ds[0].totalRuns else 0) + InningRuns(ds[1..], k)
  }

  /** The runs recorded under key `k` in an aggregated table (summed over all
      rows with that key, so the definition does not presuppose uniqueness). */
  function Recorded(ss: seq<InningScore>, k: Key): int {
    if ss == [] then 0
    else (if ScoreKey(ss[0]) == k then ss[0].runs else 0) + Recorded(ss[1..], k)
  }

  /** Adds one delivery to a group table kept in groupby order: bumps the
      group's total, or opens the group at its sorted place. */
  function AddDelivery(acc: seq<InningScore>, d: Delivery): seq<InningScore> {
    if acc == [] then [InningScore(d.matchId, d.inning, d.totalRuns)]
    else if ScoreKey(acc[0]) == DeliveryKey(d) then [acc[0].(runs := acc[0].runs + d.totalRuns)] + acc[1..]
    else if Precedes(DeliveryKey(d), ScoreKey(acc[0])) then [InningScore(d.matchId, d.inning, d.totalRuns)] + acc
    else [acc[0]] + AddDelivery(acc[1..], d)
  }

  /** `deliveries_df.groupby(['match_id', 'inning'])['total_runs'].sum()`. */
  function InningScores(ds: seq<Delivery>): seq<InningScore> {
    if ds == [] then [] else AddDelivery(InningScores(ds[1..]), ds[0])
  }

  lemma {:induction false} AddDeliveryKeys(acc: seq<InningScore>, d: Delivery)
    ensures Keys(AddDelivery(acc, d)) == Keys(acc) + {DeliveryKey(d)}
  {
    if acc == [] {
      var r := AddDelivery(acc, d);
      assert r[0] in r;
    } else if ScoreKey(acc[0]) == DeliveryKey(d) {
      assert acc == [acc[0]] + acc[1..];
      assert Keys(acc) == {ScoreKey(acc[0])} + Keys(acc[1..]);
      var r := AddDelivery(acc, d);
      assert Keys(r) == {ScoreKey(r[0])} + Keys(acc[1..]);
    } else if Precedes(DeliveryKey(d), ScoreKey(acc[0])) {
      var r := AddDelivery(acc, d);
      assert Keys(r) == {ScoreKey(r[0])} + Keys(acc);
    } else {
      AddDeliveryKeys(acc[1..], d);
      assert acc == [acc[0]] + acc[1..];
      assert Keys(acc) == {ScoreKey(acc[0])} + Keys(acc[1..]);
      var r := AddDelivery(acc, d);
      assert Keys(r) == {ScoreKey(acc[0])} + Keys(AddDelivery(acc[1..], d));
    }
  }

  lemma {:induction false} AddDeliverySorted(acc: seq<InningScore>, d: Delivery)
    requires StrictlySorted(acc)
    ensures StrictlySorted(AddDelivery(acc, d))
  {
    if acc == [] {
    } else if ScoreKey(acc[0]) == DeliveryKey(d) {
      var r := AddDelivery(acc, d);
      forall i, j | 0 <= i < j < |r| ensures Precedes(ScoreKey(r[i]), ScoreKey(r[j])) {
        assert ScoreKey(r[i]) == ScoreKey(acc[i]) && r[j] == acc[j];
      }
    } else if Precedes(DeliveryKey(d), ScoreKey(acc[0])) {
      var r := AddDelivery(acc, d);
      forall i, j | 0 <= i < j < |r| ensures Precedes(ScoreKey(r[i]), ScoreKey(r[j])) {
        assert r[j] == acc[j - 1];
        if i > 0 { assert r[i] == acc[i - 1]; }
        else { assert i == 0 && (j == 1 || Precedes(ScoreKey(acc[0]), ScoreKey(acc[j - 1]))); }
      }
    } else {
      var tail := acc[1..];
      assert StrictlySorted(tail) by {
        forall i, j | 0 <= i < j < |tail| ensures Precedes(ScoreKey(tail[i]), ScoreKey(tail[j])) {
          assert tail[i] == acc[i + 1] && tail[j] == acc[j + 1];
        }
      }
      AddDeliverySorted(tail, d);
      AddDeliveryKeys(tail, d);
      var rest := AddDelivery(tail, d);
      forall s | s in rest ensures Precedes(ScoreKey(acc[0]), ScoreKey(s)) {
        assert ScoreKey(s) in Keys(rest);
        if ScoreKey(s) != DeliveryKey(d) {
          var t :| t in tail && ScoreKey(t) == ScoreKey(s);
          var k :| 0 <= k < |tail| && tail[k] == t;
          assert acc[k + 1] == t;
        }
      }
      var r := AddDelivery(acc, d);
      assert r == [acc[0]] + rest;
      forall i, j | 0 <= i < j < |r| ensures Precedes(ScoreKey(r[i]), ScoreKey(r[j])) {
        assert r[j] == rest[j - 1] && r[j] in rest;
        if i > 0 { assert r[i] == rest[i - 1]; }
      }
    }
  }

  lemma {:induction false} AddDeliveryRecorded(acc: seq<InningScore>, d: Delivery, k: Key)
    ensures Recorded(AddDelivery(acc, d), k) == Recorded(acc, k) + (if DeliveryKey(d) == k then d.totalRuns else 0)
  {
    if acc == [] {
    } else if ScoreKey(acc[0]) == DeliveryKey(d) {
      var r := AddDelivery(acc, d);
      assert r[1..] == acc[1..];
    } else if Precedes(DeliveryKey(d), ScoreKey(acc[0])) {
      var r := AddDelivery(acc, d);
      assert r[1..] == acc;
    } else {
      AddDeliveryRecorded(acc[1..], d, k);
      var r := AddDelivery(acc, d);
      assert r[1..] == AddDelivery(acc[1..], d);
    }
  }

  /** Groupby emits its groups strictly sorted by (match_id, inning). */
  lemma {:induction false} InningScoresSorted(ds: seq<Delivery>)
    ensures StrictlySorted(InningScores(ds))
  {
    if ds != [] {
      InningScoresSorted(ds[1..]);
      AddDeliverySorted(InningScores(ds[1..]), ds[0]);
    }
  }

  /** No (match_id, inning) key occurs twice in the aggregated table. */
  lemma InningScoresUniqueKeys(ds: seq<Delivery>)
    ensures forall i, j | 0 <= i < |InningScores(ds)| && 0 <= j < |InningScores(ds)| && i != j ::
      ScoreKey(InningScores(ds)[i]) != ScoreKey(InningScores(ds)[j])
  {
    InningScoresSorted(ds);
  }

  /** A (match, inning) pair has a row exactly when it has a delivery: an
      inning with no deliveries gets no row (rather than a zero). */
  lemma {:induction false} InningScoresKeys(ds: seq<Delivery>)
    ensures Keys(InningScores(ds)) == PlayedInnings(ds)
  {
    if ds != [] {
      InningScoresKeys(ds[1..]);
      AddDeliveryKeys(InningScores(ds[1..]), ds[0]);
      assert ds == [ds[0]] + ds[1..];
      assert PlayedInnings(ds) == {DeliveryKey(ds[0])} + PlayedInnings(ds[1..]);
    }
  }

  /** A match has rows in the aggregated table exactly when it has deliveries. */
  lemma MatchHasScores(ds: seq<Delivery>, id: int)
    ensures (exists d | d in ds :: d.matchId == id) <==>
            (exists j | 0 <= j < |InningScores(ds)| :: InningScores(ds)[j].matchId == id)
  {
    var ss := InningScores(ds);
    InningScoresKeys(ds);
    if d :| d in ds && d.matchId == id {
      assert DeliveryKey(d) in Keys(ss);
      var s :| s in ss && ScoreKey(s) == DeliveryKey(d);
      var j :| 0 <= j < |ss| && ss[j] == s;
      assert ss[j].matchId == id;
    }
    if j :| 0 <= j < |ss| && ss[j].matchId == id {
      assert ScoreKey(ss[j]) in Keys(ss);
      var d :| d in ds && DeliveryKey(d) == ScoreKey(ss[j]);
      assert d.matchId == id;
    }
  }

  lemma {:induction false} InningScoresRecorded(ds: seq<Delivery>, k: Key)
    ensures Recorded(InningScores(ds), k) == InningRuns(ds, k)
  {
    if ds != [] {
      InningScoresRecorded(ds[1..], k);
      AddDeliveryRecorded(InningScores(ds[1..]), ds[0], k);
    }
  }

  /** In a table with unique keys, the runs recorded under a row's key are that row's. */
  lemma {:induction false} RecordedUnique(ss: seq<InningScore>, j: nat)
    requires StrictlySorted(ss) && j < |ss|
    ensures Recorded(ss, ScoreKey(ss[j])) == ss[j].runs
  {
    var tail := ss[1..];
    assert StrictlySorted(tail) by {
      forall a, b | 0 <= a < b < |tail| ensures Precedes(ScoreKey(tail[a]), ScoreKey(tail[b])) {
        assert tail[a] == ss[a + 1] && tail[b] == ss[b + 1];
      }
    }
    if j == 0 {
      RecordedAbsent(tail, ScoreKey(ss[0]));
    } else {
      RecordedUnique(tail, j - 1);
      assert tail[j - 1] == ss[j];
    }
  }

  /** Nothing is recorded under a key strictly before every row's key. */
  lemma {:induction false} RecordedAbsent(ss: seq<InningScore>, k: Key)
    requires forall i | 0 <= i < |ss| :: Precedes(k, ScoreKey(ss[i]))
    ensures Recorded(ss, k) == 0
  {
    if ss != [] {
      RecordedAbsent(ss[1..], k);
    }
  }

  /** Sum preservation: every group's inning_score is exactly the sum of
      total_runs over that group's deliveries. */
  lemma InningScoresSums(ds: seq<Delivery>)
    ensures forall j | 0 <= j < |InningScores(ds)| ::
      InningScores(ds)[j].runs == InningRuns(ds, ScoreKey(InningScores(ds)[j]))
  {
    var ss := InningScores(ds);
    InningScoresSorted(ds);
    forall j | 0 <= j < |ss| ensures ss[j].runs == InningRuns(ds, ScoreKey(ss[j])) {
      RecordedUnique(ss, j);
      InningScoresRecorded(ds, ScoreKey(ss[j]));
    }
  }

  /** A strictly sorted sequence's tail is strictly sorted and does not
      hold its head's key. */
  lemma SortedTail(ss: seq<InningScore>)
    requires StrictlySorted(ss) && ss != []
    ensures StrictlySorted(ss[1..])
    ensures Keys(ss) == {ScoreKey(ss[0])} + Keys(ss[1..])
    ensures ScoreKey(ss[0]) !in Keys(ss[1..])
  {
    var tail := ss[1..];
    forall a, b | 0 <= a < b < |tail| ensures Precedes(ScoreKey(tail[a]), ScoreKey(tail[b])) {
      assert tail[a] == ss[a + 1] && tail[b] == ss[b + 1];
    }
    assert ss == [ss[0]] + tail;
    forall t | t in tail ensures ScoreKey(t) != ScoreKey(ss[0]) {
      var b :| 0 <= b < |tail| && tail[b] == t;
      assert ss[b + 1] == t;
    }
  }

  lemma {:induction false} SortedKeysCount(ss: seq<InningScore>)
    requires StrictlySorted(ss)
    ensures |Keys(ss)| == |ss|
  {
    if ss != [] {
      SortedTail(ss);
      SortedKeysCount(ss[1..]);
    }
  }

  /** One row per distinct (match_id, inning) pair of the deliveries. */
  lemma InningScoresCount(ds: seq<Delivery>)
    ensures |InningScores(ds)| == |PlayedInnings(ds)|
  {
    InningScoresSorted(ds);
    SortedKeysCount(InningScores(ds));
    InningScoresKeys(ds);
  }

  function ScoreRow(s: InningScore): Row {
    map["match_id" := Some(Int(s.matchId)), "inning" := Some(Int(s.inning)), "total_runs" := Some(Int(s.runs))]
  }

  const ScoreColumns: seq<string> := ["match_id", "inning", "total_runs"]

  /** `.reset_index()`: the groups as a table with the two key columns and the
      summed total_runs column, all three of integer dtype. */
  function ScoreTable(ss: seq<InningScore>): (t: Table)
    ensures WellFormed(t)
    ensures t.columns == ScoreColumns && t.numeric == ColumnSet(ScoreColumns) && |t.rows| == |ss|
    ensures forall i | 0 <= i < |ss| ::
      t.rows[i]["match_id"] == Some(Int(ss[i].matchId)) &&
      t.rows[i]["inning"] == Some(Int(ss[i].inning)) &&
      t.rows[i]["total_runs"] == Some(Int(ss[i].runs))
  {
    assert ColumnSet(ScoreColumns) == {"match_id", "inning", "total_runs"};
    Table(ScoreColumns, ColumnSet(ScoreColumns), seq(|ss|, i requires 0 <= i < |ss| => ScoreRow(ss[i])))
  }
}
