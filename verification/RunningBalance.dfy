/** The balance column of the address activity: a running sum over grouped
    deltas, compared with the page's balance of the truncated history
    (src/api.rs:2767-2837). */
module RunningBalance {
  import opened History
  import opened Sums
  import opened AddressViews

  // ---- the query ----

  // The two halves of `deltas`, summed by event.
  ghost function ReceivedAt(h: seq<Event>, a: string, k: nat): int {
    Sum(Coins(h), (c: Coin) => if Owned(a, c) && c.event == k then c.value else 0)
  }

  ghost function SpentAt(h: seq<Event>, a: string, k: nat): int {
    Sum(Coins(h), (c: Coin) => if Owned(a, c) then JoinedAt(h, c, k) else 0)
  }

  // The rows that join `c` with the inputs of event `k`.
  ghost function JoinedAt(h: seq<Event>, c: Coin, k: nat): int {
    Sum(Spends(h), (p: Spend) => if p.event == k && Matches(c, p) then c.value else 0)
  }

  datatype ActivityRow = ActivityRow(event: nat, received: int, spent: int, balanceAfter: int)

  // The window over the events below `n` that have a delta, in chain order.
  ghost function Activity(h: seq<Event>, a: string, n: nat): seq<ActivityRow> {
    if n == 0 then []
    else
      var rows := Activity(h, a, n - 1);
      if Touched(h, a, n - 1) then
        var before := if rows == [] then 0 else rows[|rows| - 1].balanceAfter;
        var received, spent := ReceivedAt(h, a, n - 1), SpentAt(h, a, n - 1);
        rows + [ActivityRow(n - 1, received, spent, before + (received - spent))]
      else rows
  }

  // ---- per event and per coin ----

  ghost function Running(h: seq<Event>, a: string, n: nat): int {
    if n == 0 then 0 else Running(h, a, n - 1) + (ReceivedAt(h, a, n - 1) - SpentAt(h, a, n - 1))
  }

  // Inputs below event `n` that name the coin.
  ghost function UsesBelow(h: seq<Event>, c: Coin, n: nat): int {
    Sum(Spends(h), (p: Spend) => if p.event < n && Matches(c, p) then 1 else 0)
  }

  lemma UntouchedIsZero(h: seq<Event>, a: string, k: nat)
    requires !Touched(h, a, k)
    ensures ReceivedAt(h, a, k) == 0 && SpentAt(h, a, k) == 0
  {
    forall c | c in Coins(h) && Owned(a, c)
      ensures c.event != k && JoinedAt(h, c, k) == 0
    {
      assert !Involves(h, a, c, k);
      SumZero(Spends(h), (p: Spend) => if p.event == k && Matches(c, p) then 0 else 0);
      SumSame(Spends(h), (p: Spend) => if p.event == k && Matches(c, p) then c.value else 0,
              (p: Spend) => if p.event == k && Matches(c, p) then 0 else 0);
    }
    SumZero(Coins(h), (c: Coin) => if Owned(a, c) && c.event == k then 0 else 0);
    SumSame(Coins(h), (c: Coin) => if Owned(a, c) && c.event == k then c.value else 0,
            (c: Coin) => if Owned(a, c) && c.event == k then 0 else 0);
    SumSame(Coins(h), (c: Coin) => if Owned(a, c) then JoinedAt(h, c, k) else 0,
            (c: Coin) => if Owned(a, c) && c.event == k then 0 else 0);
  }

  // The window of the events below `n` ends with the running sum.
  ghost function LastBalance(rows: seq<ActivityRow>): int {
    if rows == [] then 0 else rows[|rows| - 1].balanceAfter
  }

  lemma {:induction false} ActivityEndsRunning(h: seq<Event>, a: string, n: nat)
    ensures LastBalance(Activity(h, a, n)) == Running(h, a, n)
  {
    if n > 0 {
      ActivityEndsRunning(h, a, n - 1);
      if !Touched(h, a, n - 1) {
        UntouchedIsZero(h, a, n - 1);
      }
    }
  }

  ghost predicate ShowsRunning(h: seq<Event>, a: string, row: ActivityRow) {
    Touched(h, a, row.event) && row.balanceAfter == Running(h, a, row.event + 1)
  }

  /** The window adds the deltas of all events up to its own. */
  lemma {:induction false} ActivityIsRunning(h: seq<Event>, a: string, n: nat)
    ensures forall row :: row in Activity(h, a, n) ==> row.event < n && ShowsRunning(h, a, row)
  {
    if n > 0 {
      ActivityIsRunning(h, a, n - 1);
      ActivityEndsRunning(h, a, n - 1);
    }
  }

  /** Every event of the address has its row. */
  lemma {:induction false} ActivityCovers(h: seq<Event>, a: string, n: nat, k: nat)
    requires k < n && Touched(h, a, k)
    ensures exists row :: row in Activity(h, a, n) && row.event == k
  {
    var rows := Activity(h, a, n);
    if k == n - 1 {
      assert rows[|rows| - 1].event == k && rows[|rows| - 1] in rows;
    } else {
      ActivityCovers(h, a, n - 1, k);
      var row :| row in Activity(h, a, n - 1) && row.event == k;
      assert row in rows;
    }
  }

  ghost function UsesAt(h: seq<Event>, c: Coin, n: nat): int {
    Sum(Spends(h), (p: Spend) => if p.event == n && Matches(c, p) then 1 else 0)
  }

  lemma UsesAddUp(h: seq<Event>, c: Coin, n: nat)
    ensures UsesBelow(h, c, n + 1) == UsesBelow(h, c, n) + UsesAt(h, c, n)
  {
    SumPlus(Spends(h), (p: Spend) => if p.event < n && Matches(c, p) then 1 else 0,
            (p: Spend) => if p.event == n && Matches(c, p) then 1 else 0,
            (p: Spend) => if p.event < n + 1 && Matches(c, p) then 1 else 0);
  }

  lemma JoinedIsProduct(h: seq<Event>, c: Coin, n: nat)
    ensures JoinedAt(h, c, n) == c.value * UsesAt(h, c, n)
  {
    SumScaled(Spends(h), (p: Spend) => if p.event == n && Matches(c, p) then 1 else 0, c.value,
              (p: Spend) => if p.event == n && Matches(c, p) then c.value else 0);
  }

  lemma Distributes(v: int, x: int, y: int)
    ensures v * (x + y) == v * x + v * y
  {
  }

  lemma UsesStep(h: seq<Event>, c: Coin, n: nat)
    ensures c.value * UsesBelow(h, c, n + 1) == c.value * UsesBelow(h, c, n) + JoinedAt(h, c, n)
  {
    UsesAddUp(h, c, n);
    JoinedIsProduct(h, c, n);
    Distributes(c.value, UsesBelow(h, c, n), UsesAt(h, c, n));
  }

  // What one coin has added to the running sum below event `n`.
  ghost function Flow(h: seq<Event>, a: string, c: Coin, n: nat): int {
    if Owned(a, c) then (if c.event < n then c.value else 0) - c.value * UsesBelow(h, c, n) else 0
  }

  lemma NoUsesAtStart(h: seq<Event>, c: Coin)
    ensures UsesBelow(h, c, 0) == 0
  {
    SumZero(Spends(h), (p: Spend) => if p.event < 0 && Matches(c, p) then 1 else 0);
    SumSame(Spends(h), (p: Spend) => if p.event < 0 && Matches(c, p) then 1 else 0, p => 0);
    SumZero(Spends(h), p => 0);
  }

  /** Summing by event is summing by coin: each coin counts once when received
      and once, negatively, for every input that names it. */
  lemma {:induction false} RunningIsFlow(h: seq<Event>, a: string, n: nat)
    ensures Running(h, a, n) == Sum(Coins(h), c => Flow(h, a, c, n))
  {
    if n == 0 {
      forall c | c in Coins(h)
        ensures Flow(h, a, c, 0) == 0
      {
        NoUsesAtStart(h, c);
      }
      SumSame(Coins(h), c => Flow(h, a, c, n), c => 0);
      SumZero(Coins(h), c => 0);
    } else {
      RunningIsFlow(h, a, n - 1);
      FlowStep(h, a, n - 1);
    }
  }

  lemma OneFlowStep(h: seq<Event>, a: string, c: Coin, n: nat)
    ensures Flow(h, a, c, n) + (if Owned(a, c) && c.event == n then c.value else 0) ==
            Flow(h, a, c, n + 1) + (if Owned(a, c) then JoinedAt(h, c, n) else 0)
  {
    UsesStep(h, c, n);
  }

  lemma FlowStep(h: seq<Event>, a: string, n: nat)
    ensures Sum(Coins(h), c => Flow(h, a, c, n + 1)) ==
            Sum(Coins(h), c => Flow(h, a, c, n)) + (ReceivedAt(h, a, n) - SpentAt(h, a, n))
  {
    var received := (c: Coin) => if Owned(a, c) && c.event == n then c.value else 0;
    var spent := (c: Coin) => if Owned(a, c) then JoinedAt(h, c, n) else 0;
    var sum := (c: Coin) => Flow(h, a, c, n) + received(c);
    forall c
      ensures sum(c) == Flow(h, a, c, n + 1) + spent(c)
    {
      OneFlowStep(h, a, c, n);
    }
    SumPlus(Coins(h), c => Flow(h, a, c, n), received, sum);
    SumPlus(Coins(h), c => Flow(h, a, c, n + 1), spent, sum);
  }

  // ---- truncation ----

  lemma {:induction false} CoinsBelow(h: seq<Event>, n: nat, f: Coin -> int)
    requires n <= |h|
    ensures Sum(Coins(h[..n]), f) == Sum(Coins(h), (c: Coin) => if c.event < n then f(c) else 0)
    decreases |h|
  {
    var cut := (c: Coin) => if c.event < n then f(c) else 0;
    if n == |h| {
      assert h[..n] == h;
      SumSame(Coins(h), f, cut);
    } else {
      var m := |h| - 1;
      assert h[..m][..n] == h[..n];
      CoinsBelow(h[..m], n, f);
      SumConcat(Coins(h[..m]), CoinsOf(h[m], m), cut);
      SumSame(CoinsOf(h[m], m), cut, c => 0);
      SumZero(CoinsOf(h[m], m), c => 0);
    }
  }

  lemma {:induction false} SpendsBelow(h: seq<Event>, n: nat, f: Spend -> int)
    requires n <= |h|
    ensures Sum(Spends(h[..n]), f) == Sum(Spends(h), (p: Spend) => if p.event < n then f(p) else 0)
    decreases |h|
  {
    var cut := (p: Spend) => if p.event < n then f(p) else 0;
    if n == |h| {
      assert h[..n] == h;
      SumSame(Spends(h), f, cut);
    } else {
      var m := |h| - 1;
      assert h[..m][..n] == h[..n];
      SpendsBelow(h[..m], n, f);
      SumConcat(Spends(h[..m]), SpendsIn(h[m].inputs, m), cut);
      SumSame(SpendsIn(h[m].inputs, m), cut, p => 0);
      SumZero(SpendsIn(h[m].inputs, m), p => 0);
    }
  }

  lemma UsesOfTruncated(h: seq<Event>, n: nat, c: Coin)
    requires n <= |h|
    ensures Uses(h[..n], c) == UsesBelow(h, c, n)
  {
    var use := (p: Spend) => if Matches(c, p) then 1 else 0;
    SpendsBelow(h, n, use);
    SumSame(Spends(h), (p: Spend) => if p.event < n then use(p) else 0,
            (p: Spend) => if p.event < n && Matches(c, p) then 1 else 0);
  }

  // What one coin adds to the balance of the history below event `n`.
  ghost function Held(h: seq<Event>, a: string, c: Coin, n: nat): int {
    if Owned(a, c) && c.event < n && UsesBelow(h, c, n) == 0 then c.value else 0
  }

  /** The page's balance of a truncated history. */
  lemma TruncatedBalance(h: seq<Event>, a: string, n: nat)
    requires n <= |h|
    ensures Balance(h[..n], a) == Sum(Coins(h), c => Held(h, a, c, n))
  {
    var t := h[..n];
    var unspent := (c: Coin) => if Owned(a, c) && UsesBelow(h, c, n) == 0 then c.value else 0;
    var zero := (c: Coin) => SpendCount(t, a, c) == 0;
    forall c | c in Coins(t) && Owned(a, c)
      ensures SpendCount(t, a, c) == 0 <==> UsesBelow(h, c, n) == 0
    {
      SpendCountIsProduct(t, a, c);
      UsesOfTruncated(h, n, c);
    }
    SumSame(Coins(t), (c: Coin) => if Owned(a, c) && zero(c) then c.value else 0, unspent);
    CoinsBelow(h, n, unspent);
    SumSame(Coins(h), (c: Coin) => if c.event < n then unspent(c) else 0, c => Held(h, a, c, n));
  }

  // ---- the gap ----

  // A coin spent more than once, or before it is received.
  ghost function Missing(h: seq<Event>, a: string, c: Coin, n: nat): int {
    if !Owned(a, c) then 0
    else if c.event < n then c.value * Excess(UsesBelow(h, c, n))
    else c.value * UsesBelow(h, c, n)
  }

  lemma UsesNonNegative(h: seq<Event>, c: Coin, n: nat)
    ensures UsesBelow(h, c, n) >= 0
  {
    SumZero(Spends(h), (p: Spend) => if p.event < n && Matches(c, p) then 1 else 0);
  }

  lemma MissingIsGap(h: seq<Event>, a: string, c: Coin, n: nat)
    ensures Held(h, a, c, n) == Flow(h, a, c, n) + Missing(h, a, c, n)
  {
    UsesNonNegative(h, c, n);
    var u := UsesBelow(h, c, n);
    if u > 0 {
      assert c.value * (u - 1) == c.value * u - c.value;
    }
  }

  /** The exact distance between the balance of the truncated history and the
      running balance: the value of surplus spends of received coins, and of all
      spends of coins not yet received. */
  lemma GapIdentity(h: seq<Event>, a: string, n: nat)
    requires n <= |h|
    ensures Balance(h[..n], a) == Running(h, a, n) + Sum(Coins(h), c => Missing(h, a, c, n))
  {
    TruncatedBalance(h, a, n);
    RunningIsFlow(h, a, n);
    forall c
      ensures Held(h, a, c, n) == Flow(h, a, c, n) + Missing(h, a, c, n)
    {
      MissingIsGap(h, a, c, n);
    }
    SumPlus(Coins(h), c => Flow(h, a, c, n), c => Missing(h, a, c, n), c => Held(h, a, c, n));
  }

  // ---- when the column is the balance ----

  // No positive coin of the address is spent twice, or in an earlier event.
  ghost predicate Orderly(h: seq<Event>, a: string) {
    forall c :: c in Coins(h) && Owned(a, c) && c.value > 0 ==>
      Uses(h, c) <= 1 && UsesBelow(h, c, c.event) == 0
  }

  lemma UsesGrow(h: seq<Event>, c: Coin, m: nat, n: nat)
    requires m <= n
    ensures 0 <= UsesBelow(h, c, m) <= UsesBelow(h, c, n) <= Uses(h, c)
  {
    var below := (p: Spend) => if p.event < n && Matches(c, p) then 1 else 0;
    var early := (p: Spend) => if p.event < m && Matches(c, p) then 1 else 0;
    var use := (p: Spend) => if Matches(c, p) then 1 else 0;
    SumZero(Spends(h), early);
    SumPlus(Spends(h), early, p => below(p) - early(p), below);
    SumZero(Spends(h), p => below(p) - early(p));
    SumPlus(Spends(h), below, p => use(p) - below(p), use);
    SumZero(Spends(h), p => use(p) - below(p));
  }

  lemma UsesAtEnd(h: seq<Event>, c: Coin)
    ensures UsesBelow(h, c, |h|) == Uses(h, c)
  {
    UsesOfTruncated(h, |h|, c);
    assert h[..|h|] == h;
  }

  lemma MissingNonNegative(h: seq<Event>, a: string, c: Coin, n: nat)
    requires c.value >= 0
    ensures Missing(h, a, c, n) >= 0
    ensures Missing(h, a, c, n) == 0 <==>
            (Owned(a, c) && c.value > 0 ==>
               if c.event < n then UsesBelow(h, c, n) <= 1 else UsesBelow(h, c, n) == 0)
  {
    UsesNonNegative(h, c, n);
    var u := UsesBelow(h, c, n);
    if c.value > 0 {
      Product(u, c.value);
      Product(Excess(u), c.value);
      assert c.value * u == u * c.value && c.value * Excess(u) == Excess(u) * c.value;
    }
  }

  // Nothing is missing below event `n`.
  ghost predicate OrderlyBelow(h: seq<Event>, a: string, n: nat) {
    forall c :: c in Coins(h) && Owned(a, c) && c.value > 0 ==>
      if c.event < n then UsesBelow(h, c, n) <= 1 else UsesBelow(h, c, n) == 0
  }

  /** The running balance never exceeds the balance of the truncated history, and
      equals it exactly when nothing is missing by then. */
  lemma RunningBelow(h: seq<Event>, a: string, n: nat)
    requires n <= |h| && AllPriced(h)
    ensures Running(h, a, n) <= Balance(h[..n], a)
    ensures Running(h, a, n) == Balance(h[..n], a) <==> OrderlyBelow(h, a, n)
  {
    CoinsPriced(h);
    forall c | c in Coins(h)
      ensures Missing(h, a, c, n) >= 0
      ensures Missing(h, a, c, n) == 0 <==>
              (Owned(a, c) && c.value > 0 ==>
                 if c.event < n then UsesBelow(h, c, n) <= 1 else UsesBelow(h, c, n) == 0)
    {
      MissingNonNegative(h, a, c, n);
    }
    SumZero(Coins(h), c => Missing(h, a, c, n));
    GapIdentity(h, a, n);
  }

  lemma BalanceNonNegative(h: seq<Event>, a: string)
    requires AllPriced(h)
    ensures Balance(h, a) >= 0
  {
    CoinsPriced(h);
    var zero := (c: Coin) => SpendCount(h, a, c) == 0;
    SumZero(Coins(h), (c: Coin) => if Owned(a, c) && zero(c) then c.value else 0);
  }

  lemma OrderlyIsAlways(h: seq<Event>, a: string)
    ensures Orderly(h, a) <==> forall n: nat :: n <= |h| ==> OrderlyBelow(h, a, n)
  {
    if Orderly(h, a) {
      forall n: nat, c | n <= |h| && c in Coins(h) && Owned(a, c) && c.value > 0
        ensures if c.event < n then UsesBelow(h, c, n) <= 1 else UsesBelow(h, c, n) == 0
      {
        UsesGrow(h, c, n, if n <= c.event then c.event else n);
      }
    }
    if forall n: nat :: n <= |h| ==> OrderlyBelow(h, a, n) {
      forall c | c in Coins(h) && Owned(a, c) && c.value > 0
        ensures Uses(h, c) <= 1 && UsesBelow(h, c, c.event) == 0
      {
        assert OrderlyBelow(h, a, |h|) && OrderlyBelow(h, a, c.event);
        UsesAtEnd(h, c);
      }
    }
  }

  // An event without a row changes neither side.
  lemma UntouchedKeepsOrder(h: seq<Event>, a: string, k: nat)
    requires k < |h| && !Touched(h, a, k) && AllPriced(h)
    ensures OrderlyBelow(h, a, k + 1) <==> OrderlyBelow(h, a, k)
  {
    forall c | c in Coins(h) && Owned(a, c)
      ensures c.event != k && UsesBelow(h, c, k + 1) == UsesBelow(h, c, k)
    {
      assert !Involves(h, a, c, k);
      SumSame(Spends(h), (p: Spend) => if p.event < k + 1 && Matches(c, p) then 1 else 0,
              (p: Spend) => if p.event < k && Matches(c, p) then 1 else 0);
    }
  }

  lemma NothingMissingAtStart(h: seq<Event>, a: string)
    ensures OrderlyBelow(h, a, 0)
  {
    forall c
      ensures UsesBelow(h, c, 0) == 0
    {
      NoUsesAtStart(h, c);
    }
  }

  // The running sum below event `n` is the balance of the history below it.
  ghost predicate RightAt(h: seq<Event>, a: string, n: nat)
    requires n <= |h|
  {
    Running(h, a, n) == Balance(h[..n], a)
  }

  // Every row shows the balance of the history up to its event.
  ghost predicate RowsShowBalance(h: seq<Event>, a: string) {
    forall row :: row in Activity(h, a, |h|) ==> ShowsBalance(h, a, row)
  }

  ghost predicate ShowsBalance(h: seq<Event>, a: string, row: ActivityRow) {
    row.event < |h| && row.balanceAfter == Balance(h[..row.event + 1], a)
  }

  lemma RowFor(h: seq<Event>, a: string, k: nat) returns (row: ActivityRow)
    requires k < |h| && Touched(h, a, k)
    ensures row in Activity(h, a, |h|) && row.event == k && row.balanceAfter == Running(h, a, k + 1)
  {
    hide Coins, Running, Activity, Touched;
    ActivityCovers(h, a, |h|, k);
    row :| row in Activity(h, a, |h|) && row.event == k;
    ActivityIsRunning(h, a, |h|);
    assert ShowsRunning(h, a, row);
  }

  lemma RowShows(h: seq<Event>, a: string, k: nat)
    requires k < |h| && RowsShowBalance(h, a) && Touched(h, a, k)
    ensures RightAt(h, a, k + 1)
  {
    hide Balance, Coins, Running, Activity, Touched;
    var row := RowFor(h, a, k);
    assert ShowsBalance(h, a, row);
  }

  ghost predicate RightWhereTouched(h: seq<Event>, a: string) {
    forall k: nat :: k < |h| && Touched(h, a, k) ==> RightAt(h, a, k + 1)
  }

  lemma RowReaches(h: seq<Event>, a: string, k: nat)
    requires k < |h| && AllPriced(h) && Touched(h, a, k)
    requires RightAt(h, a, k + 1)
    ensures OrderlyBelow(h, a, k + 1)
  {
    RunningBelow(h, a, k + 1);
  }

  lemma StepReaches(h: seq<Event>, a: string, k: nat)
    requires k < |h| && AllPriced(h) && OrderlyBelow(h, a, k)
    requires RightWhereTouched(h, a)
    ensures OrderlyBelow(h, a, k + 1)
  {
    hide Balance, Coins, Running, OrderlyBelow, RightAt;
    if Touched(h, a, k) {
      RowReaches(h, a, k);
    } else {
      UntouchedKeepsOrder(h, a, k);
    }
  }

  lemma {:induction false} RowsReachBelow(h: seq<Event>, a: string, n: nat)
    requires n <= |h| && AllPriced(h)
    requires RightWhereTouched(h, a)
    ensures OrderlyBelow(h, a, n)
  {
    hide Balance, Coins, Running, Touched, OrderlyBelow, RightAt, RightWhereTouched;
    if n == 0 {
      NothingMissingAtStart(h, a);
    } else {
      RowsReachBelow(h, a, n - 1);
      StepReaches(h, a, n - 1);
    }
  }

  lemma RowsOfOrderly(h: seq<Event>, a: string, row: ActivityRow)
    requires AllPriced(h) && Orderly(h, a) && row in Activity(h, a, |h|)
    ensures ShowsBalance(h, a, row) && row.balanceAfter >= 0
  {
    hide Balance, Coins, Running, Activity, Touched;
    ActivityIsRunning(h, a, |h|);
    OrderlyIsAlways(h, a);
    RunningBelow(h, a, row.event + 1);
    assert forall e :: e in h[..row.event + 1] ==> e in h;
    BalanceNonNegative(h[..row.event + 1], a);
  }

  lemma OrderlyFromRows(h: seq<Event>, a: string)
    requires AllPriced(h) && RowsShowBalance(h, a)
    ensures Orderly(h, a)
  {
    hide Balance, Coins, Running, Activity, OrderlyBelow, Orderly, RowsShowBalance, RightAt;
    forall k: nat | k < |h| && Touched(h, a, k)
      ensures RightAt(h, a, k + 1)
    {
      RowShows(h, a, k);
    }
    forall n: nat | n <= |h|
      ensures OrderlyBelow(h, a, n)
    {
      RowsReachBelow(h, a, n);
    }
    OrderlyIsAlways(h, a);
  }

  /** The balance column is right on every row exactly when no positive coin of
      the address is spent twice or before it is received; then it is never
      negative. */
  lemma ColumnIsBalance(h: seq<Event>, a: string)
    requires AllPriced(h)
    ensures RowsShowBalance(h, a) <==> Orderly(h, a)
    ensures Orderly(h, a) ==> forall row :: row in Activity(h, a, |h|) ==> row.balanceAfter >= 0
  {
    hide Balance, Coins, Running, Activity, Orderly, ShowsBalance;
    if Orderly(h, a) {
      forall row | row in Activity(h, a, |h|)
        ensures ShowsBalance(h, a, row) && row.balanceAfter >= 0
      {
        RowsOfOrderly(h, a, row);
      }
    } else if RowsShowBalance(h, a) {
      OrderlyFromRows(h, a);
    }
  }

  /** The last balance equals the page's unspent total exactly when no positive
      coin is spent twice, whatever the order; no reported anomaly is enough. */
  lemma LastRowIsUnspent(h: seq<Event>, a: string)
    requires AllPriced(h)
    ensures LastBalance(Activity(h, a, |h|)) == Balance(h, a) <==>
            forall c :: c in Coins(h) && Owned(a, c) && c.value > 0 ==> Uses(h, c) <= 1
    ensures Anomalies(h, a) == 0 ==> LastBalance(Activity(h, a, |h|)) == Balance(h, a)
  {
    ActivityEndsRunning(h, a, |h|);
    assert h[..|h|] == h;
    RunningBelow(h, a, |h|);
    forall c
      ensures UsesBelow(h, c, |h|) == Uses(h, c)
    {
      UsesAtEnd(h, c);
    }
    SumZero(Coins(h), (c: Coin) => if Owned(a, c) then Excess(SpendCount(h, a, c)) else 0);
    forall c | c in Coins(h) && Owned(a, c)
      ensures SpendCount(h, a, c) >= Uses(h, c)
    {
      SpendCountIsProduct(h, a, c);
    }
  }
}
