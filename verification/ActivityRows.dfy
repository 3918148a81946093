/** The address activity, its order condition, the statistics by height and the
    totals in terms of the output and input rows of the history alone. */
module ActivityRows {
  import opened Wrappers
  import opened History
  import opened Sums
  import opened AddressViews
  import opened RunningBalance
  import opened AddressStats
  import opened OutputRows

  // What output row `j` of event `k` takes from its address in the events from
  // `low` to before `high`: its value once for each input row that names it.
  ghost function Drawn(h: seq<Event>, k: nat, j: nat, low: nat, high: nat): int {
    ValueAt(h, k, j) * |NamingRow(h, k, j, low, high)|
  }

  // The value of the rows that pay `a`, drawn in the events from `low` to before `high`.
  ghost function DrawnBy(h: seq<Event>, a: string, low: nat, high: nat): int {
    OverOutputs(h, |h|, (k: nat, j: nat) => if Pays(h, k, j, a) then Drawn(h, k, j, low, high) else 0)
  }

  ghost function PaidBelow(h: seq<Event>, a: string, n: nat): int {
    Paid(h, a, (k: nat, j: nat) => k < n)
  }

  lemma ReceivedIsPaid(h: seq<Event>, a: string, n: nat)
    ensures ReceivedAt(h, a, n) == Paid(h, a, (k: nat, j: nat) => k == n)
  {
    var at := (c: Coin) => c.event == n;
    SumSame(Coins(h), (c: Coin) => if Owned(a, c) && c.event == n then c.value else 0,
            (c: Coin) => if Owned(a, c) && at(c) then c.value else 0);
    TotalIsPaid(h, a, at, (k: nat, j: nat) => k == n);
  }

  lemma DrawnIsUses(h: seq<Event>, k: nat, j: nat, n: nat)
    requires n <= |h| && k < |h| && j < |h[k].outputs|
    ensures Drawn(h, k, j, 0, n) == CoinAt(h, k, j).value * UsesBelow(h, CoinAt(h, k, j), n)
    ensures n < |h| ==> Drawn(h, k, j, n, n + 1) == JoinedAt(h, CoinAt(h, k, j), n)
  {
    var c := CoinAt(h, k, j);
    UsesBelowAreRows(h, c, n);
    if n < |h| {
      UsesAtAreRows(h, c, n);
      JoinedIsProduct(h, c, n);
    }
  }

  lemma SpentIsDrawn(h: seq<Event>, a: string, n: nat)
    requires n < |h|
    ensures SpentAt(h, a, n) == DrawnBy(h, a, n, n + 1)
  {
    assert h[..|h|] == h;
    var f := (c: Coin) => if Owned(a, c) then JoinedAt(h, c, n) else 0;
    var g := (k: nat, j: nat) => if Pays(h, k, j, a) then Drawn(h, k, j, n, n + 1) else 0;
    forall k: nat, j: nat | k < |h| && j < |h[k].outputs|
      ensures g(k, j) == f(CoinAt(h, k, j))
    {
      DrawnIsUses(h, k, j, n);
    }
    SumOfCoins(h, |h|, f, g);
  }

  lemma PaidIsSum(h: seq<Event>, a: string, n: nat)
    ensures PaidBelow(h, a, n) == Sum(Coins(h), (c: Coin) => if Owned(a, c) && c.event < n then c.value else 0)
  {
    var below := (c: Coin) => c.event < n;
    SumSame(Coins(h), (c: Coin) => if Owned(a, c) && c.event < n then c.value else 0,
            (c: Coin) => if Owned(a, c) && below(c) then c.value else 0);
    TotalIsPaid(h, a, below, (k: nat, j: nat) => k < n);
  }

  lemma DrawnIsSum(h: seq<Event>, a: string, n: nat)
    requires n <= |h|
    ensures DrawnBy(h, a, 0, n) ==
            Sum(Coins(h), (c: Coin) => if Owned(a, c) then c.value * UsesBelow(h, c, n) else 0)
  {
    assert h[..|h|] == h;
    var f := (c: Coin) => if Owned(a, c) then c.value * UsesBelow(h, c, n) else 0;
    var g := (k: nat, j: nat) => if Pays(h, k, j, a) then Drawn(h, k, j, 0, n) else 0;
    forall k: nat, j: nat | k < |h| && j < |h[k].outputs|
      ensures g(k, j) == f(CoinAt(h, k, j))
    {
      DrawnIsUses(h, k, j, n);
    }
    SumOfCoins(h, |h|, f, g);
  }

  lemma RunningIsPaid(h: seq<Event>, a: string, n: nat)
    requires n <= |h|
    ensures Running(h, a, n) == PaidBelow(h, a, n) - DrawnBy(h, a, 0, n)
  {
    RunningIsFlow(h, a, n);
    PaidIsSum(h, a, n);
    DrawnIsSum(h, a, n);
    SumPlus(Coins(h), c => Flow(h, a, c, n),
            (c: Coin) => if Owned(a, c) then c.value * UsesBelow(h, c, n) else 0,
            (c: Coin) => if Owned(a, c) && c.event < n then c.value else 0);
  }

  lemma OneMorePaid(h: seq<Event>, a: string, n: nat)
    ensures PaidBelow(h, a, n + 1) == PaidBelow(h, a, n) + ReceivedAt(h, a, n)
  {
    hide PaidBelow, Coins;
    PaidIsSum(h, a, n);
    PaidIsSum(h, a, n + 1);
    SumPlus(Coins(h), (c: Coin) => if Owned(a, c) && c.event < n then c.value else 0,
            (c: Coin) => if Owned(a, c) && c.event == n then c.value else 0,
            (c: Coin) => if Owned(a, c) && c.event < n + 1 then c.value else 0);
  }

  lemma OneMoreDrawn(h: seq<Event>, a: string, n: nat)
    requires n < |h|
    ensures DrawnBy(h, a, 0, n + 1) == DrawnBy(h, a, 0, n) + SpentAt(h, a, n)
  {
    hide DrawnBy, Coins, JoinedAt, UsesBelow;
    DrawnIsSum(h, a, n);
    DrawnIsSum(h, a, n + 1);
    var before := (c: Coin) => if Owned(a, c) then c.value * UsesBelow(h, c, n) else 0;
    var spent := (c: Coin) => if Owned(a, c) then JoinedAt(h, c, n) else 0;
    var after := (c: Coin) => if Owned(a, c) then c.value * UsesBelow(h, c, n + 1) else 0;
    forall c: Coin
      ensures after(c) == before(c) + spent(c)
    {
      UsesStep(h, c, n);
    }
    SumPlus(Coins(h), before, spent, after);
  }

  // ---- the rows of the activity ----

  /** Event `k` pays the address or has an input row that names one of its outputs. */
  ghost predicate TouchesRow(h: seq<Event>, a: string, k: nat) {
    || (exists j: nat :: Pays(h, k, j, a))
    || (exists i: nat, j: nat :: Pays(h, i, j, a) && NamingRow(h, i, j, k, k + 1) != {})
  }

  lemma InvolvesRow(h: seq<Event>, a: string, i: nat, j: nat, k: nat)
    requires i < |h| && j < |h[i].outputs|
    ensures Involves(h, a, CoinAt(h, i, j), k) <==>
            Pays(h, i, j, a) && (i == k || NamingRow(h, i, j, k, k + 1) != {})
  {
    var c := CoinAt(h, i, j);
    var p := Spend(k, c.txid, c.index);
    SpendsExact(h, p);
    NamedOnce(h, c.txid, c.index, k);
    if exists q :: q in Spends(h) && q.event == k && Matches(c, q) {
      var q :| q in Spends(h) && q.event == k && Matches(c, q);
      assert q == p;
    }
    if p in Spends(h) {
      assert Matches(c, p);
    }
  }

  lemma TouchedIsRow(h: seq<Event>, a: string, k: nat)
    ensures Touched(h, a, k) <==> TouchesRow(h, a, k)
  {
    if Touched(h, a, k) {
      var c :| c in Coins(h) && Involves(h, a, c, k);
      CoinsExact(h, c);
      var j: nat :| IsCoinOf(c, h, c.event, j);
      assert c == CoinAt(h, c.event, j);
      InvolvesRow(h, a, c.event, j, k);
      assert Pays(h, c.event, j, a);
    }
    if TouchesRow(h, a, k) {
      var i: nat, j: nat :| Pays(h, i, j, a) && (i == k || NamingRow(h, i, j, k, k + 1) != {});
      assert Pays(h, i, j, a);
      InvolvesRow(h, a, i, j, k);
      RowIsCoin(h, i, j);
    }
  }

  lemma {:induction false} ActivityColumns(h: seq<Event>, a: string, n: nat)
    ensures forall row :: row in Activity(h, a, n) ==>
              row.received == ReceivedAt(h, a, row.event) && row.spent == SpentAt(h, a, row.event)
  {
    if n > 0 {
      ActivityColumns(h, a, n - 1);
    }
  }

  lemma RowOfEvent(h: seq<Event>, a: string, row: ActivityRow)
    requires row in Activity(h, a, |h|)
    ensures row.event < |h| && Touched(h, a, row.event)
    ensures row.received == ReceivedAt(h, a, row.event) && row.spent == SpentAt(h, a, row.event)
    ensures row.balanceAfter == Running(h, a, row.event + 1)
  {
    hide Activity, Touched, Running;
    ActivityIsRunning(h, a, |h|);
    ActivityColumns(h, a, |h|);
    assert ShowsRunning(h, a, row);
  }

  /** A row of the activity: the value that the output rows of its event pay, the
      value that its input rows draw, and what all events up to it have paid less
      what they have drawn. */
  lemma ActivityOverRows(h: seq<Event>, a: string, row: ActivityRow)
    requires row in Activity(h, a, |h|)
    ensures row.received == Paid(h, a, (i: nat, j: nat) => i == row.event)
    ensures row.spent == DrawnBy(h, a, row.event, row.event + 1)
    ensures row.balanceAfter == PaidBelow(h, a, row.event + 1) - DrawnBy(h, a, 0, row.event + 1)
  {
    hide Activity, Touched, Running, Paid, DrawnBy, PaidBelow, ReceivedAt, SpentAt;
    var k := row.event;
    RowOfEvent(h, a, row);
    ReceivedIsPaid(h, a, k);
    SpentIsDrawn(h, a, k);
    RunningIsPaid(h, a, k + 1);
  }

  /** There is a row for exactly the events that touch the address. */
  lemma ActivityEvents(h: seq<Event>, a: string, k: nat)
    ensures (exists row :: row in Activity(h, a, |h|) && row.event == k) <==> k < |h| && TouchesRow(h, a, k)
  {
    hide Activity, Touched, TouchesRow;
    TouchedIsRow(h, a, k);
    if exists row :: row in Activity(h, a, |h|) && row.event == k {
      var row :| row in Activity(h, a, |h|) && row.event == k;
      RowOfEvent(h, a, row);
    }
    if k < |h| && Touched(h, a, k) {
      ActivityCovers(h, a, |h|, k);
    }
  }

  lemma {:induction false} ColumnsBelow(h: seq<Event>, a: string, n: nat)
    requires n <= |h|
    ensures Sum(Activity(h, a, n), (row: ActivityRow) => row.received) == PaidBelow(h, a, n)
    ensures Sum(Activity(h, a, n), (row: ActivityRow) => row.spent) == DrawnBy(h, a, 0, n)
  {
    hide Touched, PaidBelow, DrawnBy, ReceivedAt, SpentAt, Coins;
    if n == 0 {
      NothingBelow(h, a);
    } else {
      ColumnsBelow(h, a, n - 1);
      OneMorePaid(h, a, n - 1);
      OneMoreDrawn(h, a, n - 1);
      if !Touched(h, a, n - 1) {
        UntouchedIsZero(h, a, n - 1);
      }
    }
  }

  lemma NothingBelow(h: seq<Event>, a: string)
    ensures PaidBelow(h, a, 0) == 0 && DrawnBy(h, a, 0, 0) == 0
  {
    var none := (c: Coin) => 0;
    SumZero(Coins(h), none);
    PaidIsSum(h, a, 0);
    SumSame(Coins(h), (c: Coin) => if Owned(a, c) && c.event < 0 then c.value else 0, none);
    DrawnIsSum(h, a, 0);
    forall c: Coin
      ensures c.value * UsesBelow(h, c, 0) == 0
    {
      NoUsesAtStart(h, c);
    }
    SumSame(Coins(h), (c: Coin) => if Owned(a, c) then c.value * UsesBelow(h, c, 0) else 0, none);
  }

  /** The received column adds up to what the page reports as received, the spent
      column to the value of its outputs once for each input that names them. */
  lemma ColumnTotals(h: seq<Event>, a: string)
    ensures Sum(Activity(h, a, |h|), (row: ActivityRow) => row.received) == Received(h, a)
    ensures Sum(Activity(h, a, |h|), (row: ActivityRow) => row.spent) == DrawnBy(h, a, 0, |h|)
  {
    ColumnsBelow(h, a, |h|);
    PaidIsSum(h, a, |h|);
    var all := (c: Coin) => true;
    SumSame(Coins(h), (c: Coin) => if Owned(a, c) && c.event < |h| then c.value else 0,
            (c: Coin) => if Owned(a, c) && all(c) then c.value else 0);
  }

  // ---- the order condition ----

  /** No output row of value is named twice, nor by an input row of an earlier event. */
  ghost predicate RowsOrderly(h: seq<Event>, a: string) {
    forall k: nat, j: nat :: Pays(h, k, j, a) && ValueAt(h, k, j) > 0 ==>
      |NamingRow(h, k, j, 0, |h|)| <= 1 && NamingRow(h, k, j, 0, k) == {}
  }

  lemma RowOrder(h: seq<Event>, k: nat, j: nat)
    requires k < |h| && j < |h[k].outputs|
    ensures CoinAt(h, k, j) in Coins(h)
    ensures Uses(h, CoinAt(h, k, j)) == |NamingRow(h, k, j, 0, |h|)|
    ensures UsesBelow(h, CoinAt(h, k, j), k) == |NamingRow(h, k, j, 0, k)|
  {
    RowIsCoin(h, k, j);
    UsesBelowAreRows(h, CoinAt(h, k, j), k);
  }

  lemma OrderlyIsRows(h: seq<Event>, a: string)
    ensures Orderly(h, a) <==> RowsOrderly(h, a)
  {
    if Orderly(h, a) {
      forall k: nat, j: nat | Pays(h, k, j, a) && ValueAt(h, k, j) > 0
        ensures |NamingRow(h, k, j, 0, |h|)| <= 1 && NamingRow(h, k, j, 0, k) == {}
      {
        RowOrder(h, k, j);
      }
    }
    if RowsOrderly(h, a) {
      forall c | c in Coins(h) && Owned(a, c) && c.value > 0
        ensures Uses(h, c) <= 1 && UsesBelow(h, c, c.event) == 0
      {
        CoinsExact(h, c);
        var j: nat :| IsCoinOf(c, h, c.event, j);
        assert c == CoinAt(h, c.event, j) && Pays(h, c.event, j, a);
        RowOrder(h, c.event, j);
      }
    }
  }

  // ---- statistics by height ----

  ghost predicate TouchesAt(h: seq<Event>, a: string, height: nat) {
    exists k: nat :: k < |h| && h[k].height == height && TouchesRow(h, a, k)
  }

  lemma PairsAreRows(h: seq<Event>, a: string, height: nat)
    ensures (a, height) in EventPairs(h) <==> TouchesAt(h, a, height)
  {
    if (a, height) in EventPairs(h) {
      var c, k: nat :| c in Coins(h) && k < |h| && c.address.Some? && Involves(h, c.address.value, c, k)
                       && (a, height) == (c.address.value, h[k].height);
      TouchedIsRow(h, a, k);
    }
    if TouchesAt(h, a, height) {
      var k: nat :| k < |h| && h[k].height == height && TouchesRow(h, a, k);
      TouchedIsRow(h, a, k);
      var c :| c in Coins(h) && Involves(h, a, c, k);
      assert (c.address.value, h[k].height) in EventPairs(h);
    }
  }

  /** An address is active at a height exactly when an event there touches it, new
      exactly when none does below, seen up to a height exactly when one does up to
      it, and seen at all exactly when some output pays it. */
  lemma StatisticsOverRows(h: seq<Event>, a: string, height: nat)
    ensures a in ActiveAt(EventPairs(h), height) <==> TouchesAt(h, a, height)
    ensures a in NewAt(EventPairs(h), height) <==>
            TouchesAt(h, a, height) && forall low: nat :: low < height ==> !TouchesAt(h, a, low)
    ensures a in SeenBelow(EventPairs(h), height) <==>
            exists low: nat :: low <= height && TouchesAt(h, a, low)
    ensures a in Seen(h) <==> exists k: nat, j: nat :: Pays(h, k, j, a)
  {
    var events := EventPairs(h);
    forall low: nat
      ensures (a, low) in events <==> TouchesAt(h, a, low)
    {
      PairsAreRows(h, a, low);
    }
    SeenIsPaid(h, a);
  }

  lemma SeenIsPaid(h: seq<Event>, a: string)
    ensures a in Seen(h) <==> exists k: nat, j: nat :: Pays(h, k, j, a)
  {
    if a in Seen(h) {
      var c :| c in Coins(h) && c.address == Some(a);
      CoinsExact(h, c);
      var j: nat :| IsCoinOf(c, h, c.event, j);
      assert Pays(h, c.event, j, a);
    }
    if exists k: nat, j: nat :: Pays(h, k, j, a) {
      var k: nat, j: nat :| Pays(h, k, j, a);
      RowIsCoin(h, k, j);
    }
  }

  // Output row `j` of event `k` has an address.
  ghost predicate Addressed(h: seq<Event>, k: nat, j: nat) {
    k < |h| && j < |h[k].outputs| && h[k].outputs[j].1.address.Some?
  }

  /** The flat total of the statistics: the unspent output rows that have an address. */
  lemma TotalOverRows(h: seq<Event>)
    ensures AddressedTotal(h) ==
            OverOutputs(h, |h|, (k: nat, j: nat) =>
              if Addressed(h, k, j) && Free(h, k, j) then ValueAt(h, k, j) else 0)
  {
    hide Coins, Unspent, Free;
    assert h[..|h|] == h;
    var f := (c: Coin) => if Counted(h, c) then c.value else 0;
    var g := (k: nat, j: nat) => if Addressed(h, k, j) && Free(h, k, j) then ValueAt(h, k, j) else 0;
    forall k: nat, j: nat | k < |h| && j < |h[k].outputs|
      ensures g(k, j) == f(CoinAt(h, k, j))
    {
      RowFree(h, k, j);
    }
    SumOfCoins(h, |h|, f, g);
  }

  lemma RowFree(h: seq<Event>, k: nat, j: nat)
    requires k < |h| && j < |h[k].outputs|
    ensures Free(h, k, j) <==> Unspent(h, CoinAt(h, k, j))
  {
    RowIsCoin(h, k, j);
  }
}
