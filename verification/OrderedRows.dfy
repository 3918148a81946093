/** A child table of one transaction: rows keyed by an INTEGER column, written
    with ON CONFLICT DO NOTHING and read back with ORDER BY. */
module OrderedRows {

  const INDEX_LIMIT := 0x8000_0000

  // A non-negative PostgreSQL INTEGER.
  type Index = n: nat | n < INDEX_LIMIT

  ghost predicate Submap<K, V>(a: map<K, V>, b: map<K, V>) {
    forall k :: k in a ==> k in b && a[k] == b[k]
  }

  // The rows of one parent; a parent without rows has none.
  function RowsOf<K, V>(table: map<K, map<Index, V>>, key: K): map<Index, V> {
    if key in table then table[key] else map[]
  }

  // INSERT ... ON CONFLICT (key) DO NOTHING.
  function InsertIgnore<V>(rows: map<Index, V>, key: Index, value: V): map<Index, V> {
    if key in rows then rows else rows[key := value]
  }

  function InsertAll<V>(rows: map<Index, V>, pairs: seq<(Index, V)>): map<Index, V> {
    if pairs == [] then rows
    else
      var last := pairs[|pairs| - 1];
      InsertIgnore(InsertAll(rows, pairs[..|pairs| - 1]), last.0, last.1)
  }

  // SELECT ... ORDER BY key, restricted to keys below `bound`.
  function Scan<V>(rows: map<Index, V>, bound: nat): seq<(Index, V)>
    requires bound <= INDEX_LIMIT
  {
    if bound == 0 then []
    else
      Scan(rows, bound - 1) +
      (if bound - 1 in rows then [(bound - 1, rows[bound - 1])] else [])
  }

  function Select<V>(rows: map<Index, V>): seq<(Index, V)> {
    Scan(rows, INDEX_LIMIT)
  }

  ghost predicate Increasing<V>(pairs: seq<(Index, V)>) {
    forall i, j :: 0 <= i < j < |pairs| ==> pairs[i].0 < pairs[j].0
  }

  // The table that holds exactly `pairs`, the first of equal keys winning.
  function FromPairs<V>(pairs: seq<(Index, V)>): map<Index, V> {
    InsertAll(map[], pairs)
  }

  lemma {:induction false} InsertAllMerges<V>(rows: map<Index, V>, pairs: seq<(Index, V)>)
    ensures InsertAll(rows, pairs) == FromPairs(pairs) + rows
  {
    if pairs != [] {
      InsertAllMerges(rows, pairs[..|pairs| - 1]);
    }
  }

  lemma {:induction false} FromPairsHolds<V>(pairs: seq<(Index, V)>)
    requires Increasing(pairs)
    ensures forall i :: 0 <= i < |pairs| ==>
              pairs[i].0 in FromPairs(pairs) && FromPairs(pairs)[pairs[i].0] == pairs[i].1
    ensures forall k :: k in FromPairs(pairs) ==> exists i :: 0 <= i < |pairs| && pairs[i].0 == k
  {
    if pairs != [] {
      var init, last := pairs[..|pairs| - 1], pairs[|pairs| - 1];
      FromPairsHolds(init);
      assert last.0 !in FromPairs(init);
      forall k | k in FromPairs(pairs)
        ensures exists i :: 0 <= i < |pairs| && pairs[i].0 == k
      {
        if k != last.0 {
          var i :| 0 <= i < |init| && init[i].0 == k;
          assert pairs[i].0 == k;
        } else {
          assert pairs[|pairs| - 1].0 == k;
        }
      }
    }
  }

  lemma {:induction false} ScanSound<V>(rows: map<Index, V>, bound: nat)
    requires bound <= INDEX_LIMIT
    ensures Increasing(Scan(rows, bound))
    ensures forall i :: 0 <= i < |Scan(rows, bound)| ==>
              var p := Scan(rows, bound)[i]; p.0 < bound && p.0 in rows && rows[p.0] == p.1
    ensures forall k :: k in rows && k < bound ==> (k, rows[k]) in Scan(rows, bound)
  {
    if bound > 0 {
      ScanSound(rows, bound - 1);
    }
  }

  lemma {:induction false} ScanStops<V>(rows: map<Index, V>, low: nat, high: nat)
    requires low <= high <= INDEX_LIMIT
    requires forall k :: k in rows ==> k < low
    ensures Scan(rows, high) == Scan(rows, low)
    decreases high
  {
    if low < high {
      ScanStops(rows, low, high - 1);
    }
  }

  lemma {:induction false} ScanFrame<V>(a: map<Index, V>, b: map<Index, V>, bound: nat)
    requires bound <= INDEX_LIMIT
    requires forall k: Index :: k < bound ==> (k in a <==> k in b) && (k in a ==> a[k] == b[k])
    ensures Scan(a, bound) == Scan(b, bound)
  {
    if bound > 0 {
      ScanFrame(a, b, bound - 1);
    }
  }

  // Reading back a table that holds an increasing list returns that list.
  lemma {:induction false} SelectFromPairs<V>(pairs: seq<(Index, V)>)
    requires Increasing(pairs)
    ensures Select(FromPairs(pairs)) == pairs
  {
    if pairs == [] {
      ScanStops(FromPairs(pairs), 0, INDEX_LIMIT);
    } else {
      var init, last := pairs[..|pairs| - 1], pairs[|pairs| - 1];
      FromPairsHolds(init);
      FromPairsHolds(pairs);
      SelectFromPairs(init);
      var before, after := FromPairs(init), FromPairs(pairs);
      assert last.0 !in before;
      ScanStops(before, last.0, INDEX_LIMIT);
      ScanFrame(before, after, last.0);
      ScanStops(after, last.0 as nat + 1, INDEX_LIMIT);
      assert pairs == init + [last];
    }
  }

  lemma SelectDetermines<V>(rows: map<Index, V>, pairs: seq<(Index, V)>)
    requires Select(rows) == pairs
    ensures Increasing(pairs) && rows == FromPairs(pairs)
  {
    ScanSound(rows, INDEX_LIMIT);
    FromPairsHolds(pairs);
    forall k | k in rows
      ensures k in FromPairs(pairs) && FromPairs(pairs)[k] == rows[k]
    {
      assert (k, rows[k]) in pairs;
      var i :| 0 <= i < |pairs| && pairs[i] == (k, rows[k]);
      assert pairs[i].0 == k;
    }
  }

  /** The source inserts `pairs` ignoring conflicts and then compares what it
      reads back. The comparison succeeds exactly when `pairs` is strictly
      increasing and every row stored before is among them; the table then
      holds exactly `pairs`. In particular a longer list is accepted. */
  lemma ReadBackAccepts<V>(rows: map<Index, V>, pairs: seq<(Index, V)>)
    ensures Select(InsertAll(rows, pairs)) == pairs
            <==> Increasing(pairs) && Submap(rows, FromPairs(pairs))
    ensures Select(InsertAll(rows, pairs)) == pairs ==> InsertAll(rows, pairs) == FromPairs(pairs)
  {
    InsertAllMerges(rows, pairs);
    var merged := InsertAll(rows, pairs);
    if Select(merged) == pairs {
      SelectDetermines(merged, pairs);
      assert forall k :: k in rows ==> k in merged && merged[k] == rows[k];
    } else if Increasing(pairs) && Submap(rows, FromPairs(pairs)) {
      assert merged == FromPairs(pairs);
      SelectFromPairs(pairs);
    }
  }
}
