/** The sessionizing query of sessionize.py:46 and the session count of sessionize.py:50.

    The query numbers records with `dense_rank() over (order by <session key>)` and lists
    them ordered by (clientip, timestamp). `DenseRanked` states that numbering the way SQL
    defines it: a record's number is how many distinct keys are at most its own key.
    `Sessionize` computes it in two phases, sorting the distinct keys and then looking each
    record's key up, and is proved to produce exactly those rows. */
module Sessionizer {

  import opened LexOrder
  import opened WebLog

  /** A record annotated with its `sessionID`. */
  datatype SessionRow = SessionRow(id: nat, rec: WebLogRecord)

  predicate AllSessionizable(recs: seq<WebLogRecord>)
  {
    forall r :: r in recs ==> Sessionizable(r)
  }

  /** The distinct values of the window's ORDER BY columns. */
  function DistinctKeys(recs: seq<WebLogRecord>): set<SessionKey>
    requires AllSessionizable(recs)
  {
    ElementSet(KeysOf(recs))
  }

  /** SQL's `dense_rank`: the number of distinct keys at or below `k`. */
  function DenseRank(k: SessionKey, keys: set<SessionKey>): nat
  {
    |set x | x in keys && KeyLe(x, k)|
  }

  /** Every input record, in input order, with its dense rank as `sessionID`. */
  function DenseRanked(recs: seq<WebLogRecord>): seq<SessionRow>
    requires AllSessionizable(recs)
  {
    seq(|recs|, i requires 0 <= i < |recs| =>
      SessionRow(DenseRank(KeyOf(recs[i]), DistinctKeys(recs)), recs[i]))
  }

  // ---------------------------------------------------------------------------------
  // Phase one: the distinct keys in ascending order.

  function ElementSet(ks: seq<SessionKey>): set<SessionKey>
  {
    set x | x in ks
  }

  /** Strictly ascending, hence free of duplicates. */
  predicate Increasing(ks: seq<SessionKey>)
  {
    forall i, j :: 0 <= i < j < |ks| ==> KeyLess(ks[i], ks[j])
  }

  lemma BelowFirstIsBelowAll(k: SessionKey, ks: seq<SessionKey>)
    requires Increasing(ks) && |ks| > 0 && KeyLess(k, ks[0])
    ensures forall x :: x in ks ==> KeyLess(k, x)
  {
    forall x | x in ks
      ensures KeyLess(k, x)
    {
      var j :| 0 <= j < |ks| && ks[j] == x;
      if j > 0 {
        KeyLessTransitive(k, ks[0], x);
      }
    }
  }

  /** Adds `k` to an ascending list unless it is already there. */
  function InsertKey(k: SessionKey, ks: seq<SessionKey>): (r: seq<SessionKey>)
    requires Increasing(ks)
    ensures Increasing(r)
    ensures forall x :: x in r <==> x == k || x in ks
    decreases |ks|
  {
    if |ks| == 0 then
      [k]
    else if k == ks[0] then
      ks
    else if KeyLess(k, ks[0]) then
      BelowFirstIsBelowAll(k, ks);
      [k] + ks
    else
      KeyLessTotal(k, ks[0]);
      var r := InsertKey(k, ks[1..]);
      assert ks == [ks[0]] + ks[1..];
      assert forall x :: x in r ==> KeyLess(ks[0], x);
      [ks[0]] + r
  }

  /** The ORDER BY values of every record, in input order. */
  function KeysOf(recs: seq<WebLogRecord>): (ks: seq<SessionKey>)
    requires AllSessionizable(recs)
    ensures |ks| == |recs| && forall i :: 0 <= i < |recs| ==> ks[i] == KeyOf(recs[i])
  {
    seq(|recs|, i requires 0 <= i < |recs| => KeyOf(recs[i]))
  }

  /** The distinct keys in ascending order. */
  function SortedKeys(keys: seq<SessionKey>): (r: seq<SessionKey>)
    ensures Increasing(r)
    ensures forall k :: k in r <==> k in keys
    decreases |keys|
  {
    if |keys| == 0 then
      []
    else
      var n := |keys| - 1;
      assert keys == keys[..n] + [keys[n]];
      InsertKey(keys[n], SortedKeys(keys[..n]))
  }

  // ---------------------------------------------------------------------------------
  // Phase two: a key's rank is its position in the ascending list, counted from one.

  function IndexOf(k: SessionKey, ks: seq<SessionKey>): (i: nat)
    requires k in ks
    ensures i < |ks| && ks[i] == k
    decreases |ks|
  {
    if ks[0] == k then 0 else 1 + IndexOf(k, ks[1..])
  }

  /** Each record with the position of its key in `ks`, counted from one. */
  function Label(recs: seq<WebLogRecord>, ks: seq<SessionKey>): (rows: seq<SessionRow>)
    requires AllSessionizable(recs)
    requires forall r :: r in recs ==> KeyOf(r) in ks
  {
    seq(|recs|, i requires 0 <= i < |recs| => SessionRow(IndexOf(KeyOf(recs[i]), ks) + 1, recs[i]))
  }

  lemma {:induction false} IncreasingCard(ks: seq<SessionKey>)
    requires Increasing(ks)
    ensures |ElementSet(ks)| == |ks|
    decreases |ks|
  {
    if |ks| > 0 {
      var tail := ks[1..];
      IncreasingCard(tail);
      assert ElementSet(ks) == {ks[0]} + ElementSet(tail);
      forall j | 0 <= j < |tail|
        ensures tail[j] != ks[0]
      {
        KeyLessIrreflexive(ks[0]);
      }
    }
  }

  /** In an ascending list of distinct keys the i-th key has dense rank i + 1. */
  lemma RankIsDenseRank(ks: seq<SessionKey>, i: nat)
    requires Increasing(ks) && i < |ks|
    ensures DenseRank(ks[i], ElementSet(ks)) == i + 1
  {
    var below := set x | x in ElementSet(ks) && KeyLe(x, ks[i]);
    forall j | i < j < |ks|
      ensures !KeyLe(ks[j], ks[i])
    {
      KeyLessAsymmetric(ks[i], ks[j]);
      KeyLessIrreflexive(ks[i]);
    }
    assert below == ElementSet(ks[..i + 1]);
    IncreasingCard(ks[..i + 1]);
  }

  /** The keys an ascending list of the records' keys holds are the distinct keys. */
  lemma KeySetsAgree(recs: seq<WebLogRecord>, ks: seq<SessionKey>)
    requires AllSessionizable(recs)
    requires forall k :: k in ks <==> k in KeysOf(recs)
    ensures forall r :: r in recs ==> KeyOf(r) in ks
    ensures ElementSet(ks) == DistinctKeys(recs)
  {
    var keys := KeysOf(recs);
    forall r | r in recs
      ensures KeyOf(r) in ks
    {
      var i :| 0 <= i < |recs| && recs[i] == r;
      assert keys[i] == KeyOf(r);
    }
    forall k | k in ks
      ensures k in DistinctKeys(recs)
    {
      var i :| 0 <= i < |keys| && keys[i] == k;
      assert recs[i] in recs;
    }
  }

  /** Phase two applied to the phase-one list gives the SQL numbering. */
  lemma LabelIsDenseRank(recs: seq<WebLogRecord>, ks: seq<SessionKey>)
    requires AllSessionizable(recs)
    requires Increasing(ks) && forall k :: k in ks <==> k in KeysOf(recs)
    ensures forall r :: r in recs ==> KeyOf(r) in ks
    ensures ElementSet(ks) == DistinctKeys(recs)
    ensures Label(recs, ks) == DenseRanked(recs)
  {
    KeySetsAgree(recs, ks);
    forall i | 0 <= i < |recs|
      ensures Label(recs, ks)[i] == DenseRanked(recs)[i]
    {
      RankIsDenseRank(ks, IndexOf(KeyOf(recs[i]), ks));
    }
  }

  // ---------------------------------------------------------------------------------
  // Output order: `order by clientip, timestamp`.

  predicate RowLe(a: SessionRow, b: SessionRow)
  {
    || StrLess(a.rec.clientAddr, b.rec.clientAddr)
    || (a.rec.clientAddr == b.rec.clientAddr && StrLe(a.rec.timestamp, b.rec.timestamp))
  }

  lemma RowLeTotal(a: SessionRow, b: SessionRow)
    ensures RowLe(a, b) || RowLe(b, a)
  {
    StrLessTotal(a.rec.clientAddr, b.rec.clientAddr);
    StrLessTotal(a.rec.timestamp, b.rec.timestamp);
  }

  /** Each row is at or below its successor. */
  predicate RowsOrdered(rows: seq<SessionRow>)
  {
    forall i :: 0 < i < |rows| ==> RowLe(rows[i - 1], rows[i])
  }

  function InsertRow(x: SessionRow, rows: seq<SessionRow>): (r: seq<SessionRow>)
    requires RowsOrdered(rows)
    ensures RowsOrdered(r)
    ensures multiset(r) == multiset(rows) + multiset{x}
    ensures |r| == |rows| + 1 && (r[0] == x || (|rows| > 0 && r[0] == rows[0]))
    decreases |rows|
  {
    if |rows| == 0 then
      [x]
    else if RowLe(x, rows[0]) then
      [x] + rows
    else
      RowLeTotal(x, rows[0]);
      assert rows == [rows[0]] + rows[1..];
      [rows[0]] + InsertRow(x, rows[1..])
  }

  /** Insertion sort by (clientip, timestamp). */
  function SortRows(rows: seq<SessionRow>): (r: seq<SessionRow>)
    ensures RowsOrdered(r)
    ensures multiset(r) == multiset(rows)
    decreases |rows|
  {
    if |rows| == 0 then
      []
    else
      assert rows == [rows[0]] + rows[1..];
      InsertRow(rows[0], SortRows(rows[1..]))
  }

  // ---------------------------------------------------------------------------------
  // The query.

  /** `select dense_rank() over (order by <key>) as sessionID, * from weblogdata
      order by clientip, timestamp`: exactly the SQL-numbered rows, in output order. */
  function Sessionize(recs: seq<WebLogRecord>): (out: seq<SessionRow>)
    requires AllSessionizable(recs)
    ensures multiset(out) == multiset(DenseRanked(recs))
    ensures RowsOrdered(out)
  {
    var ks := SortedKeys(KeysOf(recs));
    LabelIsDenseRank(recs, ks);
    SortRows(Label(recs, ks))
  }

  /** The `sessionID` values present. */
  function Ids(rows: seq<SessionRow>): set<nat>
  {
    set row | row in rows :: row.id
  }

  /** `select count(distinct sessionID)` */
  function TotalSessions(rows: seq<SessionRow>): nat
  {
    |Ids(rows)|
  }

  // ---------------------------------------------------------------------------------
  // What the numbering guarantees.

  /** The phase-one list enumerates the distinct keys in ascending order. */
  lemma PhaseOne(recs: seq<WebLogRecord>) returns (ks: seq<SessionKey>)
    requires AllSessionizable(recs)
    ensures Increasing(ks) && ElementSet(ks) == DistinctKeys(recs)
    ensures |ks| == |DistinctKeys(recs)|
  {
    ks := SortedKeys(KeysOf(recs));
    LabelIsDenseRank(recs, ks);
    IncreasingCard(ks);
  }

  /** Dense ranks over an ascending enumeration: equal exactly for equal keys, and
      ordered as the keys are. */
  lemma RankOrder(ks: seq<SessionKey>, k1: SessionKey, k2: SessionKey)
    requires Increasing(ks) && k1 in ks && k2 in ks
    ensures DenseRank(k1, ElementSet(ks)) == DenseRank(k2, ElementSet(ks)) <==> k1 == k2
    ensures KeyLess(k1, k2) ==> DenseRank(k1, ElementSet(ks)) < DenseRank(k2, ElementSet(ks))
  {
    var i, j := IndexOf(k1, ks), IndexOf(k2, ks);
    RankIsDenseRank(ks, i);
    RankIsDenseRank(ks, j);
    if KeyLess(k1, k2) {
      KeyLessAsymmetric(k1, k2);
      KeyLessIrreflexive(k1);
    }
  }

  /** Every output row is an input record carrying its dense rank. */
  lemma RowsOfSessionize(recs: seq<WebLogRecord>)
    requires AllSessionizable(recs)
    ensures forall row :: row in Sessionize(recs) ==>
              row.rec in recs && row.id == DenseRank(KeyOf(row.rec), DistinctKeys(recs))
  {
    var out, ranked := Sessionize(recs), DenseRanked(recs);
    forall row | row in out
      ensures row.rec in recs && row.id == DenseRank(KeyOf(row.rec), DistinctKeys(recs))
    {
      assert row in multiset(ranked);
      var i :| 0 <= i < |ranked| && ranked[i] == row;
    }
  }

  /** Each input record appears in the output as often as in the input, each time with
      its dense rank. */
  lemma EveryRecordOnce(recs: seq<WebLogRecord>)
    requires AllSessionizable(recs)
    ensures |Sessionize(recs)| == |recs|
    ensures forall r :: r in recs ==>
              SessionRow(DenseRank(KeyOf(r), DistinctKeys(recs)), r) in Sessionize(recs)
  {
    var out, ranked := Sessionize(recs), DenseRanked(recs);
    assert |out| == |multiset(out)| == |multiset(ranked)| == |ranked|;
    forall r | r in recs
      ensures SessionRow(DenseRank(KeyOf(r), DistinctKeys(recs)), r) in out
    {
      var i :| 0 <= i < |recs| && recs[i] == r;
      assert ranked[i] in multiset(ranked);
    }
  }

  /** What the later queries rely on in the session table: readable records, IDs that are
      exactly 1..count, and one session key per ID. */
  predicate Sessionized(rows: seq<SessionRow>, count: nat)
  {
    && (forall row :: row in rows ==> Sessionizable(row.rec) && 1 <= row.id <= count)
    && (forall id: nat :: 1 <= id <= count ==> id in Ids(rows))
    && (forall a, b :: a in rows && b in rows && a.id == b.id ==> KeyOf(a.rec) == KeyOf(b.rec))
  }

  lemma SessionIdsInRange(recs: seq<WebLogRecord>)
    requires AllSessionizable(recs)
    ensures forall row :: row in Sessionize(recs) ==>
              row.rec in recs && 1 <= row.id <= |DistinctKeys(recs)|
  {
    var ks := PhaseOne(recs);
    RowsOfSessionize(recs);
    forall row | row in Sessionize(recs)
      ensures 1 <= row.id <= |ks|
    {
      var k := KeyOf(row.rec);
      assert k in DistinctKeys(recs);
      assert k in ElementSet(ks);
      RankIsDenseRank(ks, IndexOf(k, ks));
    }
  }

  /** A record carrying a given distinct key. */
  lemma RecordOfKey(recs: seq<WebLogRecord>, k: SessionKey) returns (r: WebLogRecord)
    requires AllSessionizable(recs) && k in DistinctKeys(recs)
    ensures r in recs && KeyOf(r) == k
  {
    var i :| 0 <= i < |recs| && KeysOf(recs)[i] == k;
    r := recs[i];
  }

  /** Every record's key is one of the distinct keys. */
  lemma KeyInDistinct(recs: seq<WebLogRecord>, r: WebLogRecord)
    requires AllSessionizable(recs) && r in recs
    ensures KeyOf(r) in DistinctKeys(recs)
  {
    var i :| 0 <= i < |recs| && recs[i] == r;
    assert KeysOf(recs)[i] == KeyOf(r);
  }

  /** Inputs holding the same records have the same distinct keys. */
  lemma SameRecordsSameKeys(recs1: seq<WebLogRecord>, recs2: seq<WebLogRecord>)
    requires AllSessionizable(recs1) && AllSessionizable(recs2)
    requires forall r :: r in recs1 <==> r in recs2
    ensures DistinctKeys(recs1) == DistinctKeys(recs2)
  {
    forall k | k in DistinctKeys(recs1)
      ensures k in DistinctKeys(recs2)
    {
      var r := RecordOfKey(recs1, k);
      KeyInDistinct(recs2, r);
    }
    forall k | k in DistinctKeys(recs2)
      ensures k in DistinctKeys(recs1)
    {
      var r := RecordOfKey(recs2, k);
      KeyInDistinct(recs1, r);
    }
  }

  /** Some key has each rank from 1 to the number of distinct keys. */
  lemma KeyOfRank(recs: seq<WebLogRecord>, id: nat) returns (k: SessionKey)
    requires AllSessionizable(recs) && 1 <= id <= |DistinctKeys(recs)|
    ensures k in DistinctKeys(recs) && DenseRank(k, DistinctKeys(recs)) == id
  {
    var ks := PhaseOne(recs);
    RankIsDenseRank(ks, id - 1);
    k := ks[id - 1];
    assert k in ElementSet(ks);
  }

  /** Some record has the `id`-th smallest key. */
  lemma RecordOfRank(recs: seq<WebLogRecord>, id: nat) returns (r: WebLogRecord)
    requires AllSessionizable(recs) && 1 <= id <= |DistinctKeys(recs)|
    ensures r in recs && DenseRank(KeyOf(r), DistinctKeys(recs)) == id
  {
    var k := KeyOfRank(recs, id);
    r := RecordOfKey(recs, k);
  }

  /** The record of the `id`-th smallest key is labelled `id`. */
  lemma SessionIdCovered(recs: seq<WebLogRecord>, id: nat)
    requires AllSessionizable(recs) && 1 <= id <= |DistinctKeys(recs)|
    ensures id in Ids(Sessionize(recs))
  {
    var r := RecordOfRank(recs, id);
    EveryRecordOnce(recs);
    assert SessionRow(id, r) in Sessionize(recs);
  }

  lemma SessionIdsCovered(recs: seq<WebLogRecord>)
    requires AllSessionizable(recs)
    ensures forall id: nat :: 1 <= id <= |DistinctKeys(recs)| ==> id in Ids(Sessionize(recs))
  {
    forall id: nat | 1 <= id <= |DistinctKeys(recs)|
      ensures id in Ids(Sessionize(recs))
    {
      SessionIdCovered(recs, id);
    }
  }

  /** Two output rows share an ID exactly when their records share a key, and a smaller
      key gets a smaller ID. */
  lemma SessionIdsFollowKeys(recs: seq<WebLogRecord>)
    requires AllSessionizable(recs)
    ensures forall row :: row in Sessionize(recs) ==> row.rec in recs
    ensures forall a, b :: a in Sessionize(recs) && b in Sessionize(recs) ==>
              (a.id == b.id <==> KeyOf(a.rec) == KeyOf(b.rec))
    ensures forall a, b :: a in Sessionize(recs) && b in Sessionize(recs) ==>
              (KeyLess(KeyOf(a.rec), KeyOf(b.rec)) ==> a.id < b.id)
  {
    var out := Sessionize(recs);
    var ks := PhaseOne(recs);
    RowsOfSessionize(recs);
    forall a, b | a in out && b in out
      ensures a.id == b.id <==> KeyOf(a.rec) == KeyOf(b.rec)
      ensures KeyLess(KeyOf(a.rec), KeyOf(b.rec)) ==> a.id < b.id
    {
      var ka, kb := KeyOf(a.rec), KeyOf(b.rec);
      assert ka in DistinctKeys(recs) && kb in DistinctKeys(recs);
      assert ka in ElementSet(ks) && kb in ElementSet(ks);
      RankOrder(ks, ka, kb);
    }
  }

  /** The session IDs are exactly 1..K for K distinct keys, and records with one ID share
      one key. */
  lemma SessionizeIsSessionized(recs: seq<WebLogRecord>)
    requires AllSessionizable(recs)
    ensures Sessionized(Sessionize(recs), |DistinctKeys(recs)|)
  {
    SessionIdsInRange(recs);
    SessionIdsCovered(recs);
    SessionIdsFollowKeys(recs);
  }

  /** The numbers 1..n. */
  function UpTo(n: nat): (r: set<nat>)
    ensures forall i: nat :: i in r <==> 1 <= i <= n
    ensures |r| == n
  {
    if n == 0 then {} else UpTo(n - 1) + {n}
  }

  /** In a session table with IDs 1..count, the distinct-ID count is count. */
  lemma TotalSessionsOfTable(rows: seq<SessionRow>, count: nat)
    requires Sessionized(rows, count)
    ensures TotalSessions(rows) == count
  {
    assert Ids(rows) == UpTo(count);
  }

  /** `count(distinct sessionID)` is the number of distinct session keys. */
  lemma TotalSessionsCountsKeys(recs: seq<WebLogRecord>)
    requires AllSessionizable(recs)
    ensures TotalSessions(Sessionize(recs)) == |DistinctKeys(recs)|
  {
    SessionizeIsSessionized(recs);
    TotalSessionsOfTable(Sessionize(recs), |DistinctKeys(recs)|);
  }

  /** Reordering the input does not change any record's session ID. */
  lemma SessionIdsIgnoreInputOrder(recs1: seq<WebLogRecord>, recs2: seq<WebLogRecord>)
    requires AllSessionizable(recs1) && multiset(recs1) == multiset(recs2)
    ensures AllSessionizable(recs2)
    ensures forall a, b :: a in Sessionize(recs1) && b in Sessionize(recs2) && a.rec == b.rec
              ==> a.id == b.id
  {
    assert forall r :: r in recs1 <==> r in recs2 by {
      forall r
        ensures r in recs1 <==> r in recs2
      {
        assert r in recs1 <==> r in multiset(recs1);
        assert r in recs2 <==> r in multiset(recs2);
      }
    }
    SameRecordsSameKeys(recs1, recs2);
    RowsOfSessionize(recs1);
    RowsOfSessionize(recs2);
  }
}
