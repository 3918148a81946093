/** The address page, the address activity, the rich list and the current
    address statistics as computations over one canonical history
    (src/api.rs:2676-2837, src/analytics.rs:815-983). */
module AddressViews {
  import opened Wrappers
  import opened OrderedRows
  import opened Schema
  import opened History
  import opened Sums

  // An output row joined with its event, which `event` numbers in the history.
  datatype Coin = Coin(event: nat, index: Index, txid: Hash, coinbase: bool, height: nat,
                       value: int, address: Option<string>)

  // An input row that names an outpoint.
  datatype Spend = Spend(event: nat, txid: Hash, index: nat)

  ghost function CoinsOf(e: Event, i: nat): (r: seq<Coin>)
    ensures |r| == |e.outputs|
    ensures forall c :: c in r ==> c.event == i && c.height == e.height && c.coinbase == e.coinbase
    ensures Priced(e) ==> forall c :: c in r ==> c.value >= 0
  {
    seq(|e.outputs|, j requires 0 <= j < |e.outputs| =>
      Coin(i, e.outputs[j].0, e.key.txid, e.coinbase, e.height, e.outputs[j].1.value,
           e.outputs[j].1.address))
  }

  ghost function SpendsIn(inputs: seq<(Index, Input)>, i: nat): (r: seq<Spend>)
    ensures forall p :: p in r ==> p.event == i
  {
    if inputs == [] then []
    else
      var last := inputs[|inputs| - 1].1;
      SpendsIn(inputs[..|inputs| - 1], i) +
      (if last.previousTxid.Some? && last.previousIndex.Some?
       then [Spend(i, last.previousTxid.value, last.previousIndex.value)] else [])
  }

  ghost function Coins(h: seq<Event>): (r: seq<Coin>)
    ensures forall c :: c in r ==> c.event < |h| && c.height == h[c.event].height
  {
    if h == [] then [] else Coins(h[..|h| - 1]) + CoinsOf(h[|h| - 1], |h| - 1)
  }

  ghost function Spends(h: seq<Event>): (r: seq<Spend>)
    ensures forall p :: p in r ==> p.event < |h|
  {
    if h == [] then [] else Spends(h[..|h| - 1]) + SpendsIn(h[|h| - 1].inputs, |h| - 1)
  }

  ghost predicate AllPriced(h: seq<Event>) {
    forall e :: e in h ==> Priced(e)
  }

  lemma {:induction false} CoinsPriced(h: seq<Event>)
    requires AllPriced(h)
    ensures forall c :: c in Coins(h) ==> c.value >= 0
  {
    if h != [] {
      CoinsPriced(h[..|h| - 1]);
      assert h[|h| - 1] in h;
    }
  }

  ghost predicate Owned(a: string, c: Coin) {
    c.address == Some(a)
  }

  ghost predicate Matches(c: Coin, p: Spend) {
    p.txid == c.txid && p.index == c.index
  }

  ghost function Uses(h: seq<Event>, c: Coin): int {
    Sum(Spends(h), p => if Matches(c, p) then 1 else 0)
  }

  // ---- the address page ----

  // canonical_spends: joined rows of the coins of `a` at one outpoint and the
  // inputs that name it, counted together. Equal outpoints multiply.
  ghost function SpendCount(h: seq<Event>, a: string, c: Coin): int {
    Sum(Coins(h), r => if Owned(a, r) && r.txid == c.txid && r.index == c.index then Uses(h, r) else 0)
  }

  ghost function Total(h: seq<Event>, a: string, counts: Coin -> bool): int {
    Sum(Coins(h), c => if Owned(a, c) && counts(c) then c.value else 0)
  }

  ghost function CountOf(h: seq<Event>, a: string, counts: Coin -> bool): int {
    Sum(Coins(h), c => if Owned(a, c) && counts(c) then 1 else 0)
  }

  ghost function Received(h: seq<Event>, a: string): int {
    Total(h, a, c => true)
  }

  ghost function Sent(h: seq<Event>, a: string): int {
    Total(h, a, c => SpendCount(h, a, c) > 0)
  }

  ghost function Balance(h: seq<Event>, a: string): int {
    Total(h, a, c => SpendCount(h, a, c) == 0)
  }

  ghost function UtxoCount(h: seq<Event>, a: string): int {
    CountOf(h, a, c => SpendCount(h, a, c) == 0)
  }

  ghost function Immature(h: seq<Event>, a: string, tip: int, maturity: int): int {
    Total(h, a, c => SpendCount(h, a, c) == 0 && c.coinbase && tip - c.height + 1 < maturity)
  }

  ghost function Mature(h: seq<Event>, a: string, tip: int, maturity: int): int {
    Total(h, a, c => SpendCount(h, a, c) == 0 && c.coinbase && tip - c.height + 1 >= maturity)
  }

  ghost function NonCoinbase(h: seq<Event>, a: string): int {
    Total(h, a, c => SpendCount(h, a, c) == 0 && !c.coinbase)
  }

  ghost function Anomalies(h: seq<Event>, a: string): int {
    Sum(Coins(h), c => if Owned(a, c) then Excess(SpendCount(h, a, c)) else 0)
  }

  // GREATEST(n - 1, 0)
  ghost function Excess(n: int): int {
    if n > 1 then n - 1 else 0
  }

  ghost function Copies(h: seq<Event>, a: string, c: Coin): int {
    Sum(Coins(h), r => if Owned(a, r) && r.txid == c.txid && r.index == c.index then 1 else 0)
  }

  /** The joined count is the number of inputs times the number of coins of the
      address at the outpoint; both are at least what one row contributes. */
  lemma SpendCountIsProduct(h: seq<Event>, a: string, c: Coin)
    requires c in Coins(h) && Owned(a, c)
    ensures SpendCount(h, a, c) == Uses(h, c) * Copies(h, a, c)
    ensures Uses(h, c) >= 0 && Copies(h, a, c) >= 1
    ensures SpendCount(h, a, c) == 0 <==> Uses(h, c) == 0
    ensures SpendCount(h, a, c) >= Uses(h, c)
  {
    var copy := (r: Coin) => if Owned(a, r) && r.txid == c.txid && r.index == c.index then 1 else 0;
    var use := (r: Coin) =>
      if Owned(a, r) && r.txid == c.txid && r.index == c.index then Uses(h, r) else 0;
    forall r | r in Coins(h)
      ensures use(r) == Uses(h, c) * copy(r)
    {
      if copy(r) == 1 {
        SumSame(Spends(h), p => if Matches(r, p) then 1 else 0, p => if Matches(c, p) then 1 else 0);
      }
    }
    SumScaled(Coins(h), copy, Uses(h, c), use);
    SumZero(Spends(h), p => if Matches(c, p) then 1 else 0);
    SumBounds(Coins(h), copy, c);
    Product(Uses(h, c), Copies(h, a, c));
  }

  lemma Product(n: int, m: int)
    requires n >= 0 && m >= 1
    ensures n * m == 0 <==> n == 0
    ensures n * m >= n
  {
    if n > 0 {
      assert n * m == n + n * (m - 1);
      assert n * (m - 1) >= 0;
    }
  }

  lemma TotalSplits(h: seq<Event>, a: string, p: Coin -> bool, q: Coin -> bool, both: Coin -> bool)
    requires forall c :: c in Coins(h) && Owned(a, c) ==>
               (both(c) <==> p(c) || q(c)) && !(p(c) && q(c))
    ensures Total(h, a, both) == Total(h, a, p) + Total(h, a, q)
  {
    SumPlus(Coins(h), c => if Owned(a, c) && p(c) then c.value else 0,
            c => if Owned(a, c) && q(c) then c.value else 0,
            c => if Owned(a, c) && both(c) then c.value else 0);
  }

  lemma TotalSame(h: seq<Event>, a: string, p: Coin -> bool, q: Coin -> bool)
    requires forall c :: c in Coins(h) && Owned(a, c) ==> (p(c) <==> q(c))
    ensures Total(h, a, p) == Total(h, a, q) && CountOf(h, a, p) == CountOf(h, a, q)
  {
    SumSame(Coins(h), c => if Owned(a, c) && p(c) then c.value else 0,
            c => if Owned(a, c) && q(c) then c.value else 0);
    SumSame(Coins(h), c => if Owned(a, c) && p(c) then 1 else 0,
            c => if Owned(a, c) && q(c) then 1 else 0);
  }

  /** What the page reports adds up. */
  lemma PageAddsUp(h: seq<Event>, a: string, tip: int, maturity: int)
    ensures Received(h, a) == Sent(h, a) + Balance(h, a)
    ensures Balance(h, a) == Immature(h, a, tip, maturity) + Mature(h, a, tip, maturity) + NonCoinbase(h, a)
  {
    forall c | c in Coins(h) && Owned(a, c)
      ensures SpendCount(h, a, c) >= 0
    {
      SpendCountIsProduct(h, a, c);
    }
    TotalSplits(h, a, c => SpendCount(h, a, c) > 0, c => SpendCount(h, a, c) == 0, c => true);
    var coinbase := (c: Coin) => SpendCount(h, a, c) == 0 && c.coinbase;
    TotalSplits(h, a, c => SpendCount(h, a, c) == 0 && c.coinbase && tip - c.height + 1 < maturity,
                c => SpendCount(h, a, c) == 0 && c.coinbase && tip - c.height + 1 >= maturity, coinbase);
    TotalSplits(h, a, coinbase, c => SpendCount(h, a, c) == 0 && !c.coinbase,
                c => SpendCount(h, a, c) == 0);
  }

  // ---- the rich list ----

  // spent_prevouts: SELECT DISTINCT.
  ghost function SpentPrevouts(h: seq<Event>): set<(Hash, nat)> {
    set p | p in Spends(h) :: (p.txid, p.index)
  }

  ghost predicate Unspent(h: seq<Event>, c: Coin) {
    (c.txid, c.index as nat) !in SpentPrevouts(h)
  }

  ghost function RichBalance(h: seq<Event>, a: string): int {
    Total(h, a, c => Unspent(h, c))
  }

  ghost function RichSent(h: seq<Event>, a: string): int {
    Total(h, a, c => !Unspent(h, c))
  }

  // received: SUM(value) GROUP BY address.
  ghost function RichReceived(h: seq<Event>, a: string): int {
    Sum(Coins(h), (c: Coin) => if c.address == Some(a) then c.value else 0)
  }

  ghost function RichUtxoCount(h: seq<Event>, a: string): int {
    CountOf(h, a, c => Unspent(h, c))
  }

  lemma {:induction false} NoUse(spends: seq<Spend>, c: Coin)
    ensures Sum(spends, p => if Matches(c, p) then 1 else 0) >= 0
    ensures Sum(spends, p => if Matches(c, p) then 1 else 0) == 0 <==>
            forall p :: p in spends ==> !Matches(c, p)
  {
    var use := (p: Spend) => if Matches(c, p) then 1 else 0;
    SumZero(spends, use);
    assert forall p :: use(p) == 0 <==> !Matches(c, p);
  }

  // Counting joined rows and looking up the distinct outpoints agree on what is unspent.
  lemma UnspentAgrees(h: seq<Event>, a: string, c: Coin)
    requires c in Coins(h) && Owned(a, c)
    ensures SpendCount(h, a, c) >= 0
    ensures SpendCount(h, a, c) == 0 <==> Unspent(h, c)
  {
    SpendCountIsProduct(h, a, c);
    NoUse(Spends(h), c);
    assert Unspent(h, c) <==> forall p :: p in Spends(h) ==> !Matches(c, p);
  }

  /** The rich list, which looks up distinct outpoints for all addresses at once,
      and the page of one address, which counts joined rows, report the same
      amounts and output count. */
  lemma RichListAgrees(h: seq<Event>, a: string)
    ensures RichReceived(h, a) == Received(h, a)
    ensures RichBalance(h, a) == Balance(h, a)
    ensures RichSent(h, a) == Sent(h, a)
    ensures RichUtxoCount(h, a) == UtxoCount(h, a)
  {
    forall c | c in Coins(h) && Owned(a, c)
      ensures SpendCount(h, a, c) >= 0
      ensures SpendCount(h, a, c) == 0 <==> Unspent(h, c)
    {
      UnspentAgrees(h, a, c);
    }
    TotalSame(h, a, c => Unspent(h, c), c => SpendCount(h, a, c) == 0);
    TotalSame(h, a, c => !Unspent(h, c), c => SpendCount(h, a, c) > 0);
    var all := (c: Coin) => true;
    SumSame(Coins(h), (c: Coin) => if c.address == Some(a) then c.value else 0,
            (c: Coin) => if Owned(a, c) && all(c) then c.value else 0);
  }

  // ---- activity keys ----

  // The coin was received by `a` in event `k`, or an input of it names the coin.
  ghost predicate Involves(h: seq<Event>, a: string, c: Coin, k: nat) {
    Owned(a, c) && (c.event == k || exists p :: p in Spends(h) && p.event == k && Matches(c, p))
  }

  ghost predicate Touched(h: seq<Event>, a: string, k: nat) {
    exists c :: c in Coins(h) && Involves(h, a, c, k)
  }

  ghost function TouchedEvents(h: seq<Event>, a: string): set<nat> {
    set k: nat | k < |h| && Touched(h, a, k)
  }

  // event_keys of the page.
  ghost function PageKeys(h: seq<Event>, a: string): set<(WitnessKey, nat, nat)> {
    set k: nat | k < |h| && Touched(h, a, k) :: (h[k].block, h[k].position, h[k].height)
  }

  // activity_events of the rich list for one address: the UNION of the events
  // with an output and of those with an input whose previous output is of `a`.
  ghost predicate RichTouched(h: seq<Event>, a: string, k: nat) {
    || (exists c :: c in Coins(h) && c.event == k && Owned(a, c))
    || (exists p :: p in Spends(h) && p.event == k &&
          exists c :: c in Coins(h) && Matches(c, p) && Owned(a, c))
  }

  ghost function RichKeys(h: seq<Event>, a: string): set<(nat, nat, TxKey)> {
    set k: nat | k < |h| && RichTouched(h, a, k) :: (h[k].height, h[k].position, h[k].key)
  }

  lemma SameEventsTouched(h: seq<Event>, a: string, k: nat)
    ensures RichTouched(h, a, k) <==> Touched(h, a, k)
  {
    if RichTouched(h, a, k) {
      var c :| c in Coins(h) && Involves(h, a, c, k);
    }
  }

  lemma EventsDiffer(h: seq<Event>, i: nat, j: nat)
    requires Ordered(h) && i < |h| && j < |h|
    requires h[i].height == h[j].height && h[i].position == h[j].position
    ensures i == j
  {
  }

  lemma PageKeysCount(h: seq<Event>, a: string)
    requires Ordered(h)
    ensures |PageKeys(h, a)| == |TouchedEvents(h, a)|
  {
    var ks := TouchedEvents(h, a);
    var key := (k: nat) =>
      if k < |h| then (h[k].block, h[k].position, h[k].height)
      else (WitnessKey(ZERO_HASH, ZERO_HASH), 0, 0);
    forall i, j | i in ks && j in ks && key(i) == key(j)
      ensures i == j
    {
      EventsDiffer(h, i, j);
    }
    forall v | v in PageKeys(h, a)
      ensures exists i :: i in ks && key(i) == v
    {
      var k: nat :| k < |h| && Touched(h, a, k) && v == (h[k].block, h[k].position, h[k].height);
      assert k in ks && key(k) == v;
    }
    CountDistinct(ks, key, PageKeys(h, a));
  }

  lemma RichKeysCount(h: seq<Event>, a: string)
    requires Ordered(h)
    ensures |RichKeys(h, a)| == |TouchedEvents(h, a)|
  {
    var ks := TouchedEvents(h, a);
    var key := (k: nat) =>
      if k < |h| then (h[k].height, h[k].position, h[k].key) else (0, 0, TxKey(ZERO_HASH, ZERO_HASH));
    forall i, j | i in ks && j in ks && key(i) == key(j)
      ensures i == j
    {
      EventsDiffer(h, i, j);
    }
    forall i | i in ks
      ensures key(i) in RichKeys(h, a)
    {
      SameEventsTouched(h, a, i);
    }
    forall v | v in RichKeys(h, a)
      ensures exists i :: i in ks && key(i) == v
    {
      var k: nat :| k < |h| && RichTouched(h, a, k) && v == (h[k].height, h[k].position, h[k].key);
      SameEventsTouched(h, a, k);
      assert k in ks && key(k) == v;
    }
    CountDistinct(ks, key, RichKeys(h, a));
  }

  /** Both count each event of the address once, whatever columns identify it. */
  lemma TransactionCountsAgree(h: seq<Event>, a: string)
    requires Ordered(h)
    ensures |PageKeys(h, a)| == |TouchedEvents(h, a)| == |RichKeys(h, a)|
  {
    PageKeysCount(h, a);
    RichKeysCount(h, a);
  }

  /** The first event in page order has the least height, the last the greatest:
      ORDER BY ... LIMIT 1 and MIN, MAX report the same heights. */
  lemma SeenHeightsAgree(h: seq<Event>, a: string, first: nat, last: nat)
    requires Ordered(h) && first in TouchedEvents(h, a) && last in TouchedEvents(h, a)
    requires forall k :: k in TouchedEvents(h, a) ==> !Before(h[k], h[first]) && !Before(h[last], h[k])
    ensures forall k :: k in TouchedEvents(h, a) ==>
              first <= k <= last && h[first].height <= h[k].height <= h[last].height
  {
    forall k | k in TouchedEvents(h, a)
      ensures first <= k <= last
    {
      if k < first {
        assert false;
      }
      if last < k {
        assert false;
      }
    }
  }

  // ---- totals over all addresses ----

  ghost predicate Counted(h: seq<Event>, c: Coin) {
    c.address.Some? && Unspent(h, c)
  }

  // balances of the current statistics and utxos of the rich list: unspent rows
  // GROUP BY address HAVING SUM(value) > 0.
  ghost function Funded(h: seq<Event>): set<string> {
    set c | c in Coins(h) && Counted(h, c) && RichBalance(h, c.address.value) > 0 :: c.address.value
  }

  // The groups of received.
  ghost function ReceivedGroups(h: seq<Event>): set<string> {
    set c | c in Coins(h) && c.address.Some? :: c.address.value
  }

  // The rich list's balances: utxos JOIN received.
  ghost function RichFunded(h: seq<Event>): set<string> {
    set a | a in Funded(h) && a in ReceivedGroups(h)
  }

  // A flat pass over the unspent outputs that carry an address.
  ghost function AddressedTotal(h: seq<Event>): int {
    Sum(Coins(h), c => if Counted(h, c) then c.value else 0)
  }

  // What one coin adds to the balance of one address.
  ghost function Share(h: seq<Event>, a: string, c: Coin): int {
    if Owned(a, c) && Unspent(h, c) then c.value else 0
  }

  lemma RichBalanceIs(h: seq<Event>, a: string)
    ensures RichBalance(h, a) == Sum(Coins(h), c => Share(h, a, c))
  {
    var unspent := (c: Coin) => Unspent(h, c);
    SumSame(Coins(h), c => if Owned(a, c) && unspent(c) then c.value else 0, c => Share(h, a, c));
  }

  lemma UnfundedIsZero(h: seq<Event>, c: Coin)
    requires AllPriced(h) && c in Coins(h) && Counted(h, c) && c.address.value !in Funded(h)
    ensures c.value == 0
  {
    hide Coins, RichBalance, Unspent;
    CoinsPriced(h);
    RichBalanceIs(h, c.address.value);
    SumBounds(Coins(h), x => Share(h, c.address.value, x), c);
  }

  // A coin adds its value to the balance of one funded address at most.
  lemma OneShare(h: seq<Event>, c: Coin)
    requires AllPriced(h) && c in Coins(h)
    ensures SumOver(Funded(h), a => Share(h, a, c)) == if Counted(h, c) then c.value else 0
  {
    var share := (a: string) => Share(h, a, c);
    if Counted(h, c) && c.address.value in Funded(h) {
      SumOverOne(Funded(h), share, c.address.value);
    } else {
      if Counted(h, c) {
        UnfundedIsZero(h, c);
      }
      SumOverNone(Funded(h), share);
    }
  }

  lemma BalancesFlatten(h: seq<Event>, keys: set<string>)
    ensures SumOver(keys, a => RichBalance(h, a)) ==
            Sum(Coins(h), c => SumOver(keys, a => Share(h, a, c)))
  {
    var column := (a: string) => (c: Coin) => Share(h, a, c);
    var row := (c: Coin) => (a: string) => Share(h, a, c);
    forall a | a in keys
      ensures RichBalance(h, a) == Sum(Coins(h), column(a))
    {
      RichBalanceIs(h, a);
    }
    SumOfGroups(keys, Coins(h), column, row, a => RichBalance(h, a),
                c => SumOver(keys, a => Share(h, a, c)));
  }

  /** The balances of all funded addresses, GROUP BY and HAVING included, add up
      to the flat total: dropping empty groups and unaddressed outputs loses
      nothing. */
  lemma GrandTotal(h: seq<Event>)
    requires AllPriced(h)
    ensures SumOver(Funded(h), a => RichBalance(h, a)) == AddressedTotal(h)
  {
    BalancesFlatten(h, Funded(h));
    forall c | c in Coins(h)
      ensures SumOver(Funded(h), a => Share(h, a, c)) == if Counted(h, c) then c.value else 0
    {
      OneShare(h, c);
    }
    SumSame(Coins(h), c => SumOver(Funded(h), a => Share(h, a, c)),
            c => if Counted(h, c) then c.value else 0);
  }

  /** An address is funded exactly when its page shows a positive balance. */
  lemma FundedIsPositive(h: seq<Event>, a: string)
    requires AllPriced(h)
    ensures a in Funded(h) <==> Balance(h, a) > 0
  {
    RichListAgrees(h, a);
    RichBalanceIs(h, a);
    CoinsPriced(h);
    SumZero(Coins(h), c => Share(h, a, c));
    if Balance(h, a) > 0 {
      var c :| c in Coins(h) && Share(h, a, c) != 0;
      assert c.address == Some(a);
    }
  }

  /** The inner join drops no funded address, so the rich list and the current
      statistics report the same addresses, their number and their total, which is
      the flat one. */
  lemma StatisticsAgree(h: seq<Event>)
    requires AllPriced(h)
    ensures RichFunded(h) == Funded(h) && |RichFunded(h)| == |Funded(h)|
    ensures SumOver(RichFunded(h), a => RichBalance(h, a)) == AddressedTotal(h)
    ensures SumOver(Funded(h), a => RichBalance(h, a)) == AddressedTotal(h)
  {
    assert Funded(h) <= ReceivedGroups(h);
    assert RichFunded(h) == Funded(h);
    GrandTotal(h);
  }
}
