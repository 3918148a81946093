/** Cursor pages over rows in descending key order, for blocks and transactions
    (src/api.rs:290-313, 393-424), and the cursor bytes (src/api.rs:1847-1889). */
module Paging {
  import opened Wrappers
  import opened Schema
  import opened CanonicalChain
  import opened StoredFacts
  import opened History
  import opened Protocol
  import opened Universes
  import opened GenuineRuns

  // Height and position; a block has position 0.
  type Key = (nat, nat)

  predicate Less(a: Key, b: Key) {
    a.0 < b.0 || (a.0 == b.0 && a.1 < b.1)
  }

  const DEFAULT_PAGE_SIZE := 20
  const MAX_PAGE_SIZE := 100

  function BoundedLimit(limit: Option<nat>): (r: nat)
    ensures 1 <= r <= MAX_PAGE_SIZE
    ensures limit.None? ==> r == 20
    ensures limit.Some? && 1 <= limit.value <= 100 ==> r == limit.value
    ensures limit == Some(0) ==> r == 1
    ensures limit.Some? && limit.value > 100 ==> r == 100
  {
    var asked := if limit.Some? then limit.value else DEFAULT_PAGE_SIZE;
    if asked < 1 then 1 else if asked > MAX_PAGE_SIZE then MAX_PAGE_SIZE else asked
  }

  // ---- one page ----

  ghost predicate Ascending<T>(rows: seq<T>, key: T -> Key) {
    forall i, j :: 0 <= i < j < |rows| ==> Less(key(rows[i]), key(rows[j]))
  }

  predicate Admitted<T>(row: T, key: T -> Key, cursor: Option<Key>) {
    cursor.None? || Less(key(row), cursor.value)
  }

  // WHERE key < cursor ORDER BY key DESC LIMIT count, over rows in ascending order.
  function Fetch<T>(rows: seq<T>, key: T -> Key, cursor: Option<Key>, count: nat): seq<T> {
    if rows == [] || count == 0 then []
    else
      var last := rows[|rows| - 1];
      if Admitted(last, key, cursor) then [last] + Fetch(rows[..|rows| - 1], key, cursor, count - 1)
      else Fetch(rows[..|rows| - 1], key, cursor, count)
  }

  datatype Page<T> = Page(data: seq<T>, next: Option<Key>)

  // The handlers: one row more than the limit tells whether there is a next page.
  function PageOf<T>(rows: seq<T>, key: T -> Key, cursor: Option<Key>, limit: nat): Page<T>
    requires limit >= 1
  {
    var fetched := Fetch(rows, key, cursor, limit + 1);
    if |fetched| > limit then Page(fetched[..limit], Some(key(fetched[limit - 1])))
    else Page(fetched, None)
  }

  ghost function Descending<T>(rows: seq<T>): (r: seq<T>)
    ensures |r| == |rows|
    ensures forall i :: 0 <= i < |r| ==> r[i] == rows[|rows| - 1 - i]
  {
    seq(|rows|, i requires 0 <= i < |rows| => rows[|rows| - 1 - i])
  }

  lemma DescendingFirst<T>(rows: seq<T>)
    requires rows != []
    ensures Descending(rows) == [rows[|rows| - 1]] + Descending(rows[..|rows| - 1])
  {
  }

  lemma DescendingSplits<T>(rows: seq<T>, n: nat)
    requires n <= |rows|
    ensures Descending(rows) == Descending(rows)[..|rows| - n] + Descending(rows[..n])
  {
  }

  // The rows below the cursor come first, this many of them.
  ghost function Below<T>(rows: seq<T>, key: T -> Key, cursor: Option<Key>): (n: nat)
    ensures n <= |rows|
  {
    if rows == [] then 0
    else if Admitted(rows[|rows| - 1], key, cursor) then |rows|
    else Below(rows[..|rows| - 1], key, cursor)
  }

  lemma {:induction false} FetchIsSlice<T>(rows: seq<T>, key: T -> Key, cursor: Option<Key>, count: nat)
    requires Ascending(rows, key)
    ensures var n := Below(rows, key, cursor);
            Fetch(rows, key, cursor, count) == Descending(rows[..n])[..if count < n then count else n]
    decreases |rows|
  {
    if rows != [] && count > 0 {
      var m := |rows| - 1;
      var init := rows[..m];
      if Admitted(rows[m], key, cursor) {
        FetchIsSlice(init, key, cursor, count - 1);
        AllBelow(init, key, cursor, rows[m]);
        DescendingFirst(rows);
        assert init[..m] == init && rows[..|rows|] == rows;
      } else {
        FetchIsSlice(init, key, cursor, count);
        assert init[..Below(init, key, cursor)] == rows[..Below(init, key, cursor)];
      }
    }
  }

  // What precedes an admitted row is admitted.
  lemma AllBelow<T>(init: seq<T>, key: T -> Key, cursor: Option<Key>, last: T)
    requires Admitted(last, key, cursor)
    requires forall i :: 0 <= i < |init| ==> Less(key(init[i]), key(last))
    ensures Below(init, key, cursor) == |init|
  {
    if init != [] {
      assert Less(key(init[|init| - 1]), key(last));
    }
  }

  lemma {:induction false} BelowRow<T>(rows: seq<T>, key: T -> Key, i: nat)
    requires Ascending(rows, key) && i < |rows|
    ensures Below(rows, key, Some(key(rows[i]))) == i
    decreases |rows|
  {
    var m := |rows| - 1;
    if i < m {
      assert Less(key(rows[i]), key(rows[m]));
      BelowRow(rows[..m], key, i);
    } else if m > 0 {
      assert Less(key(rows[m - 1]), key(rows[m]));
    }
  }

  /** One page: the greatest `limit` rows below the cursor in descending order,
      and a next cursor exactly when more rows remain, naming the last one shown. */
  lemma PageExact<T>(rows: seq<T>, key: T -> Key, cursor: Option<Key>, limit: nat)
    requires Ascending(rows, key) && limit >= 1
    ensures var n, page := Below(rows, key, cursor), PageOf(rows, key, cursor, limit);
            && page.data == Descending(rows[..n])[..if limit < n then limit else n]
            && (page.next.Some? <==> n > limit)
            && (n > limit ==> page.next == Some(key(rows[n - limit])))
  {
    FetchIsSlice(rows, key, cursor, limit + 1);
  }

  // ---- following the cursor ----

  // The table as each request finds it: rows are only ever appended.
  ghost predicate Growing<T(!new)>(snapshots: nat -> seq<T>, key: T -> Key) {
    && (forall i: nat :: Ascending(snapshots(i), key))
    && (forall i: nat :: snapshots(i) <= snapshots(i + 1))
  }

  lemma NextBelow<T(!new)>(snapshots: nat -> seq<T>, key: T -> Key, i: nat, cursor: Option<Key>,
                           limit: nat)
    requires Growing(snapshots, key) && limit >= 1
    requires PageOf(snapshots(i), key, cursor, limit).next.Some?
    ensures var next, n := PageOf(snapshots(i), key, cursor, limit).next, Below(snapshots(i), key, cursor);
            && Below(snapshots(i + 1), key, next) == n - limit
            && snapshots(i + 1)[..n - limit] == snapshots(i)[..n - limit]
  {
    PageExact(snapshots(i), key, cursor, limit);
    var n := Below(snapshots(i), key, cursor);
    var rows := snapshots(i + 1);
    assert snapshots(i) <= rows && rows[n - limit] == snapshots(i)[n - limit];
    assert Ascending(rows, key);
    BelowRow(rows, key, n - limit);
  }

  // The rows of all pages from request `i` on, until there is no next cursor.
  ghost function Walk<T(!new)>(snapshots: nat -> seq<T>, key: T -> Key, limits: nat -> Option<nat>,
                               i: nat, cursor: Option<Key>): seq<T>
    requires Growing(snapshots, key)
    decreases Below(snapshots(i), key, cursor)
  {
    var limit := BoundedLimit(limits(i));
    var page := PageOf(snapshots(i), key, cursor, limit);
    if page.next.None? then page.data
    else
      NextBelow(snapshots, key, i, cursor, limit);
      PageExact(snapshots(i), key, cursor, limit);
      page.data + Walk(snapshots, key, limits, i + 1, page.next)
  }

  // The step of the walk that has a next page.
  lemma WalkNext<T(!new)>(snapshots: nat -> seq<T>, key: T -> Key, i: nat, cursor: Option<Key>,
                          limit: nat, next: Option<Key>)
    requires Growing(snapshots, key) && limit >= 1
    requires PageOf(snapshots(i), key, cursor, limit).next == next && next.Some?
    ensures var rest := snapshots(i + 1)[..Below(snapshots(i + 1), key, next)];
            Descending(snapshots(i)[..Below(snapshots(i), key, cursor)]) ==
            PageOf(snapshots(i), key, cursor, limit).data + Descending(rest)
  {
    var rows := snapshots(i);
    var n := Below(rows, key, cursor);
    PageExact(rows, key, cursor, limit);
    NextBelow(snapshots, key, i, cursor, limit);
    DescendingSplits(rows[..n], n - limit);
    assert rows[..n][..n - limit] == rows[..n - limit];
  }

  /** Following the cursor ends, whatever the limits, and lists exactly the rows
      below the first cursor, each once and in descending order, however many
      rows are appended between requests. */
  lemma {:induction false} WalkListsAll<T(!new)>(snapshots: nat -> seq<T>, key: T -> Key,
                                                 limits: nat -> Option<nat>, i: nat,
                                                 cursor: Option<Key>)
    requires Growing(snapshots, key)
    ensures Walk(snapshots, key, limits, i, cursor) ==
            Descending(snapshots(i)[..Below(snapshots(i), key, cursor)])
    decreases Below(snapshots(i), key, cursor)
  {
    var limit := BoundedLimit(limits(i));
    var page := PageOf(snapshots(i), key, cursor, limit);
    PageExact(snapshots(i), key, cursor, limit);
    if page.next.Some? {
      NextBelow(snapshots, key, i, cursor, limit);
      WalkNext(snapshots, key, i, cursor, limit, page.next);
      WalkListsAll(snapshots, key, limits, i + 1, page.next);
    }
  }

  lemma WalkFromStart<T(!new)>(snapshots: nat -> seq<T>, key: T -> Key, limits: nat -> Option<nat>)
    requires Growing(snapshots, key)
    ensures Walk(snapshots, key, limits, 0, None) == Descending(snapshots(0))
  {
    WalkListsAll(snapshots, key, limits, 0, None);
    assert Below(snapshots(0), key, None) == |snapshots(0)|;
    assert snapshots(0)[..|snapshots(0)|] == snapshots(0);
  }

  // ---- the two endpoints ----

  // The selected heights in order.
  ghost function SelectedRows(c: map<nat, WitnessKey>, n: nat): (r: seq<(nat, WitnessKey)>)
    requires forall h: nat :: h < n ==> h in c
    ensures |r| == n
  {
    seq(n, h requires 0 <= h < n => (h, c[h]))
  }

  ghost function BlockRows(s: Store): seq<(nat, WitnessKey)> {
    if s.chainState.indexedHeight.Some?
       && (forall h: nat :: h <= s.chainState.indexedHeight.value ==> h in s.canonical) then
      SelectedRows(s.canonical, s.chainState.indexedHeight.value + 1)
    else []
  }

  ghost function BlockKey(row: (nat, WitnessKey)): Key {
    (row.0, 0)
  }

  lemma BlockRowsExact(s: Store)
    requires ChainValid(s)
    ensures Ascending(BlockRows(s), BlockKey)
    ensures forall h: nat, k :: (h, k) in BlockRows(s) <==> h in s.canonical && s.canonical[h] == k
  {
    if s.chainState.indexedHeight.Some? {
      forall h: nat | h in s.canonical
        ensures (h, s.canonical[h]) in BlockRows(s)
      {
        assert BlockRows(s)[h] == (h, s.canonical[h]);
      }
    }
  }

  /** The block pages list every selected block once, from the tip of the first
      request down to genesis. */
  lemma BlockPages(stores: nat -> Store, limits: nat -> Option<nat>)
    requires forall i: nat :: ChainValid(stores(i)) && KeepsSelection(stores(i), stores(i + 1))
    ensures Growing(i => BlockRows(stores(i)), BlockKey)
    ensures Walk(i => BlockRows(stores(i)), BlockKey, limits, 0, None) == Descending(BlockRows(stores(0)))
  {
    var snapshots := (i: nat) => BlockRows(stores(i));
    forall i: nat
      ensures Ascending(snapshots(i), BlockKey) && snapshots(i) <= snapshots(i + 1)
    {
      BlockRowsExact(stores(i));
      BlocksKept(stores(i), stores(i + 1));
    }
    WalkFromStart(snapshots, BlockKey, limits);
  }

  lemma BlocksKept(s: Store, t: Store)
    requires ChainValid(s) && ChainValid(t) && KeepsSelection(s, t)
    ensures BlockRows(s) <= BlockRows(t)
  {
    if s.chainState.indexedHeight.Some? {
      var tip := s.chainState.indexedHeight.value;
      assert tip in t.canonical;
      assert forall h: nat :: h <= tip ==> BlockRows(s)[h] == BlockRows(t)[h];
    }
  }

  ghost function EventKey(e: Event): Key {
    (e.height, e.position)
  }

  /** The transaction pages list every canonical transaction once, by descending
      height and position. */
  lemma TransactionPages(stores: nat -> Store, limits: nat -> Option<nat>)
    requires forall i: nat :: ChainValid(stores(i)) && FactsValid(stores(i))
    requires forall i: nat :: HistoryOf(stores(i)) <= HistoryOf(stores(i + 1))
    ensures Growing(i => HistoryOf(stores(i)), EventKey)
    ensures Walk(i => HistoryOf(stores(i)), EventKey, limits, 0, None) == Descending(HistoryOf(stores(0)))
  {
    var snapshots := (i: nat) => HistoryOf(stores(i));
    forall i: nat
      ensures Ascending(snapshots(i), EventKey) && snapshots(i) <= snapshots(i + 1)
    {
      HistoryOfValid(stores(i));
      OrderedAscends(HistoryOf(stores(i)));
    }
    WalkFromStart(snapshots, EventKey, limits);
  }

  /** Snapshots of one genuine run, each some transactions after the one before. */
  ghost predicate RunOf(net: Universe, stores: nat -> Store, steps: nat -> seq<Action>) {
    && WellFormed(net) && Valid(stores(0)) && Coherent(stores(0), net)
    && (forall i: nat :: Execute(stores(i), steps(i)) == Some(stores(i + 1)))
    && (forall i: nat :: GenuineLog(net, steps(i)) && AppendOnly(steps(i)))
  }

  lemma {:induction false} RunHolds(net: Universe, stores: nat -> Store, steps: nat -> seq<Action>,
                                    i: nat)
    requires RunOf(net, stores, steps)
    ensures Valid(stores(i)) && Coherent(stores(i), net)
  {
    if i > 0 {
      RunHolds(net, stores, steps, i - 1);
      RunKeepsValid(stores(i - 1), steps(i - 1), stores(i));
      GenuineRun(net, stores(i - 1), steps(i - 1), stores(i));
    }
  }

  lemma RunAppends(net: Universe, stores: nat -> Store, steps: nat -> seq<Action>, i: nat)
    requires RunOf(net, stores, steps)
    ensures KeepsSelection(stores(i), stores(i + 1))
    ensures HistoryOf(stores(i)) <= HistoryOf(stores(i + 1))
  {
    RunHolds(net, stores, steps, i);
    RunHolds(net, stores, steps, i + 1);
    RunKeepsValid(stores(i), steps(i), stores(i + 1));
    AppendOnlyKeepsSelection(stores(i), steps(i), stores(i + 1));
    ExtensionAppends(stores(i), stores(i + 1), net);
  }

  /** While the indexer only appends between requests, the block pages and the
      transaction pages list every block and every transaction of the first
      request's chain exactly once, in descending order. */
  lemma PagesOfRun(net: Universe, stores: nat -> Store, steps: nat -> seq<Action>,
                   limits: nat -> Option<nat>)
    requires RunOf(net, stores, steps)
    ensures Growing(i => BlockRows(stores(i)), BlockKey)
    ensures Walk(i => BlockRows(stores(i)), BlockKey, limits, 0, None) == Descending(BlockRows(stores(0)))
    ensures Growing(i => HistoryOf(stores(i)), EventKey)
    ensures Walk(i => HistoryOf(stores(i)), EventKey, limits, 0, None) == Descending(HistoryOf(stores(0)))
  {
    hide Universes.Coherent, Execute;
    forall i: nat
      ensures ChainValid(stores(i)) && FactsValid(stores(i))
      ensures KeepsSelection(stores(i), stores(i + 1))
      ensures HistoryOf(stores(i)) <= HistoryOf(stores(i + 1))
    {
      RunHolds(net, stores, steps, i);
      RunAppends(net, stores, steps, i);
    }
    BlockPages(stores, limits);
    TransactionPages(stores, limits);
  }

  lemma OrderedAscends(h: seq<Event>)
    requires Ordered(h)
    ensures Ascending(h, EventKey)
  {
    forall i, j | 0 <= i < j < |h|
      ensures Less(EventKey(h[i]), EventKey(h[j]))
    {
      assert Before(h[i], h[j]);
    }
  }
}
