/** The execution-time table (`number, temperature, try, time`) and its
    update in `main`, the same in all three provider scripts: when rows with
    the case's key exist their `time` is set, otherwise one row is appended. */
module Timing {
  datatype Key = Key(number: int, temperature: string, trial: nat)
  datatype Row = Row(key: Key, time: real)

  predicate HasKey(rows: seq<Row>, k: Key)
  {
    exists i :: 0 <= i < |rows| && rows[i].key == k
  }

  /** At most one row per key. */
  predicate UniqueKeys(rows: seq<Row>)
  {
    forall i, j :: 0 <= i < j < |rows| ==> rows[i].key != rows[j].key
  }

  function Keys(rows: seq<Row>): set<Key>
  {
    set i | 0 <= i < |rows| :: rows[i].key
  }

  /** The `.loc[mask, 'time'] = t` / `pd.concat` update. */
  function Upsert(rows: seq<Row>, k: Key, t: real): seq<Row>
  {
    if HasKey(rows, k)
    then seq(|rows|, i requires 0 <= i < |rows| => if rows[i].key == k then Row(k, t) else rows[i])
    else rows + [Row(k, t)]
  }

  /** The table grows by one row exactly when the key was absent; every row
      with the key then carries the new time, every other row and the order
      stay as they were. */
  lemma UpsertSpec(rows: seq<Row>, k: Key, t: real)
    ensures var r := Upsert(rows, k, t);
            |r| == (if HasKey(rows, k) then |rows| else |rows| + 1)
            && HasKey(r, k)
            && (forall i :: 0 <= i < |r| && r[i].key == k ==> r[i].time == t)
            && (forall i :: 0 <= i < |rows| ==> r[i].key == rows[i].key)
            && (forall i :: 0 <= i < |rows| && rows[i].key != k ==> r[i] == rows[i])
            && Keys(r) == Keys(rows) + {k}
  {
    var r := Upsert(rows, k, t);
    if HasKey(rows, k) {
      var j :| 0 <= j < |rows| && rows[j].key == k;
      assert r[j].key == k;
      forall x | x in Keys(rows) + {k}
        ensures x in Keys(r)
      {
        if x != k {
          var i :| 0 <= i < |rows| && rows[i].key == x;
          assert r[i].key == x;
        }
      }
    } else {
      assert r[|rows|].key == k;
      forall x | x in Keys(rows) + {k}
        ensures x in Keys(r)
      {
        if x != k {
          var i :| 0 <= i < |rows| && rows[i].key == x;
          assert r[i].key == x;
        }
      }
    }
  }

  /** A table with one row per key keeps one row per key. */
  lemma UpsertKeepsKeysUnique(rows: seq<Row>, k: Key, t: real)
    requires UniqueKeys(rows)
    ensures UniqueKeys(Upsert(rows, k, t))
  {
    var r := Upsert(rows, k, t);
    UpsertSpec(rows, k, t);
    if !HasKey(rows, k) {
      forall i, j | 0 <= i < j < |r|
        ensures r[i].key != r[j].key
      {
        if j == |rows| {
          assert rows[i].key != k;
        }
      }
    }
  }

  /** Updating twice is updating with the later time. */
  lemma UpsertOverwrites(rows: seq<Row>, k: Key, t1: real, t2: real)
    ensures Upsert(Upsert(rows, k, t1), k, t2) == Upsert(rows, k, t2)
  {
    UpsertSpec(rows, k, t1);
    var once := Upsert(rows, k, t1);
    assert |once| == |Upsert(rows, k, t2)|;
    if !HasKey(rows, k) {
      assert once[|rows|].key == k;
    }
  }
}
