/** The address views in terms of the output and input rows of the history alone:
    which rows are coins and spends, and every sum and count of the page, the
    activity, the replay and the statistics as one over those rows. */
module OutputRows {
  import opened Wrappers
  import opened OrderedRows
  import opened Schema
  import opened History
  import opened Sums
  import opened AddressViews
  import opened RunningBalance
  import opened Replay

  // An input row names output `index` of transaction `txid`.
  ghost predicate Names(row: (Index, Input), txid: Hash, index: nat) {
    row.1.previousTxid == Some(txid) && row.1.previousIndex == Some(index)
  }

  // Those of one event, as pairs of its number and theirs.
  ghost function NamingIn(inputs: seq<(Index, Input)>, i: nat, txid: Hash, index: nat): set<(nat, nat)> {
    set m | 0 <= m < |inputs| && Names(inputs[m], txid, index) :: (i, m)
  }

  /** The input rows of the events from `low` to before `high` that name output
      `index` of transaction `txid`. */
  ghost function Naming(h: seq<Event>, txid: Hash, index: nat, low: nat, high: nat): set<(nat, nat)> {
    set i, m | low <= i < high && i < |h| && 0 <= m < |h[i].inputs| && Names(h[i].inputs[m], txid, index)
      :: (i, m)
  }

  // Output row `j` of event `k` pays `a`.
  ghost predicate Pays(h: seq<Event>, k: nat, j: nat, a: string) {
    k < |h| && j < |h[k].outputs| && h[k].outputs[j].1.address == Some(a)
  }

  // Those of the events from `low` to before `high` that name output row `j` of event `k`.
  ghost function NamingRow(h: seq<Event>, k: nat, j: nat, low: nat, high: nat): set<(nat, nat)> {
    if k < |h| && j < |h[k].outputs| then
      Naming(h, h[k].key.txid, h[k].outputs[j].0, low, high)
    else {}
  }

  // ---- sums over output rows ----

  ghost function SumBelow(n: nat, f: nat -> int): int {
    if n == 0 then 0 else SumBelow(n - 1, f) + f(n - 1)
  }

  // Over the output rows of the first `n` events.
  ghost function OverOutputs(h: seq<Event>, n: nat, f: (nat, nat) -> int): int
    requires n <= |h|
  {
    if n == 0 then 0
    else OverOutputs(h, n - 1, f) + SumBelow(|h[n - 1].outputs|, (j: nat) => f(n - 1, j))
  }

  ghost function ValueAt(h: seq<Event>, k: nat, j: nat): int {
    if k < |h| && j < |h[k].outputs| then h[k].outputs[j].1.value else 0
  }

  // The value, and the number, of the output rows that pay `a` and are picked.
  ghost function Paid(h: seq<Event>, a: string, picks: (nat, nat) -> bool): int {
    OverOutputs(h, |h|, (k: nat, j: nat) => if Pays(h, k, j, a) && picks(k, j) then ValueAt(h, k, j) else 0)
  }

  ghost function PaidCount(h: seq<Event>, a: string, picks: (nat, nat) -> bool): int {
    OverOutputs(h, |h|, (k: nat, j: nat) => if Pays(h, k, j, a) && picks(k, j) then 1 else 0)
  }

  // ---- spends ----

  lemma {:induction false} SpendsInCount(inputs: seq<(Index, Input)>, i: nat, p: Spend)
    ensures Listed(SpendsIn(inputs, i), p) ==
            if p.event == i then |NamingIn(inputs, i, p.txid, p.index)| else 0
  {
    if inputs != [] {
      var n := |inputs| - 1;
      var init := inputs[..n];
      SpendsInCount(init, i, p);
      NamingInStep(inputs, i, p.txid, p.index);
    }
  }

  lemma NamingInStep(inputs: seq<(Index, Input)>, i: nat, txid: Hash, index: nat)
    requires inputs != []
    ensures var n := |inputs| - 1;
            |NamingIn(inputs, i, txid, index)| ==
            |NamingIn(inputs[..n], i, txid, index)| + if Names(inputs[n], txid, index) then 1 else 0
  {
    var n := |inputs| - 1;
    var init, all := NamingIn(inputs[..n], i, txid, index), NamingIn(inputs, i, txid, index);
    forall x: (nat, nat)
      ensures x in init <==> x.0 == i && x.1 < n && Names(inputs[x.1], txid, index)
      ensures x in all <==> x.0 == i && x.1 <= n && Names(inputs[x.1], txid, index)
    {
      assert x.1 < n ==> inputs[..n][x.1] == inputs[x.1];
    }
    if Names(inputs[n], txid, index) {
      assert all == init + {(i, n)};
    } else {
      assert all == init;
    }
  }

  lemma NamingOne(h: seq<Event>, txid: Hash, index: nat, i: nat)
    requires i < |h|
    ensures Naming(h, txid, index, i, i + 1) == NamingIn(h[i].inputs, i, txid, index)
  {
  }

  lemma NamingSplits(h: seq<Event>, txid: Hash, index: nat, low: nat, mid: nat, high: nat)
    requires low <= mid <= high
    ensures Naming(h, txid, index, low, high) ==
            Naming(h, txid, index, low, mid) + Naming(h, txid, index, mid, high)
    ensures |Naming(h, txid, index, low, high)| ==
            |Naming(h, txid, index, low, mid)| + |Naming(h, txid, index, mid, high)|
  {
    assert Naming(h, txid, index, low, mid) !! Naming(h, txid, index, mid, high);
  }

  lemma NamingPrefix(h: seq<Event>, txid: Hash, index: nat, low: nat, n: nat)
    requires n <= |h|
    ensures Naming(h[..n], txid, index, low, n) == Naming(h, txid, index, low, n)
  {
    assert forall i :: 0 <= i < n ==> h[..n][i] == h[i];
  }

  // How often `x` is listed.
  ghost function Listed<T>(s: seq<T>, x: T): nat {
    multiset(s)[x]
  }

  lemma NothingListed<T>(x: T)
    ensures Listed([], x) == 0
  {
  }

  lemma ListedConcat<T>(a: seq<T>, b: seq<T>, x: T)
    ensures Listed(a + b, x) == Listed(a, x) + Listed(b, x)
  {
  }

  lemma {:induction false} SpendsCount(h: seq<Event>, p: Spend)
    ensures Listed(Spends(h), p) == |Naming(h, p.txid, p.index, p.event, p.event + 1)|
    decreases |h|
  {
    hide Listed, Naming, NamingIn;
    if h == [] {
      NothingListed(p);
      NamingNone(h, p.txid, p.index, p.event);
    } else {
      var n := |h| - 1;
      SpendsCount(h[..n], p);
      SpendsInCount(h[n].inputs, n, p);
      ListedConcat(Spends(h[..n]), SpendsIn(h[n].inputs, n), p);
      NamingLast(h, p.txid, p.index, p.event);
    }
  }

  lemma NamingNone(h: seq<Event>, txid: Hash, index: nat, i: nat)
    requires i >= |h|
    ensures Naming(h, txid, index, i, i + 1) == {}
  {
  }

  lemma NamingLast(h: seq<Event>, txid: Hash, index: nat, i: nat)
    requires h != []
    ensures var n := |h| - 1;
            |Naming(h, txid, index, i, i + 1)| ==
            |Naming(h[..n], txid, index, i, i + 1)| +
            if i == n then |NamingIn(h[n].inputs, n, txid, index)| else 0
  {
    var n := |h| - 1;
    if i < n {
      NamingOne(h, txid, index, i);
      NamingOne(h[..n], txid, index, i);
    } else if i == n {
      NamingOne(h, txid, index, n);
      NamingNone(h[..n], txid, index, n);
    } else {
      NamingNone(h, txid, index, i);
      NamingNone(h[..n], txid, index, i);
    }
  }

  lemma NamedOnce(h: seq<Event>, txid: Hash, index: nat, i: nat)
    ensures Naming(h, txid, index, i, i + 1) != {} <==>
            i < |h| && exists row :: row in h[i].inputs && Names(row, txid, index)
  {
    var found := Naming(h, txid, index, i, i + 1);
    if found != {} {
      var x :| x in found;
      assert h[i].inputs[x.1] in h[i].inputs;
    }
    if i < |h| && exists row :: row in h[i].inputs && Names(row, txid, index) {
      var m :| 0 <= m < |h[i].inputs| && Names(h[i].inputs[m], txid, index);
      assert (i, m) in found;
    }
  }

  /** A spend is listed once for each input row of its event that names its
      outpoint, and so exactly if there is one. */
  lemma SpendsExact(h: seq<Event>, p: Spend)
    ensures Listed(Spends(h), p) == |Naming(h, p.txid, p.index, p.event, p.event + 1)|
    ensures p in Spends(h) <==>
            p.event < |h| && exists row :: row in h[p.event].inputs && Names(row, p.txid, p.index)
  {
    SpendsCount(h, p);
    NamedOnce(h, p.txid, p.index, p.event);
    assert p in Spends(h) <==> Listed(Spends(h), p) > 0;
  }

  lemma {:induction false} UsesIn(inputs: seq<(Index, Input)>, i: nat, c: Coin)
    ensures Sum(SpendsIn(inputs, i), p => if Matches(c, p) then 1 else 0) ==
            |NamingIn(inputs, i, c.txid, c.index)|
  {
    if inputs != [] {
      var n := |inputs| - 1;
      var last := inputs[n].1;
      UsesIn(inputs[..n], i, c);
      NamingInStep(inputs, i, c.txid, c.index);
      var one := if last.previousTxid.Some? && last.previousIndex.Some?
                 then [Spend(i, last.previousTxid.value, last.previousIndex.value)] else [];
      SumConcat(SpendsIn(inputs[..n], i), one, p => if Matches(c, p) then 1 else 0);
      if one != [] {
        SumOne(one[0], p => if Matches(c, p) then 1 else 0);
      }
    }
  }

  /** The inputs that use a coin are the input rows that name its outpoint. */
  lemma {:induction false} UsesAreRows(h: seq<Event>, c: Coin)
    ensures Uses(h, c) == |Naming(h, c.txid, c.index, 0, |h|)|
  {
    if h != [] {
      var n := |h| - 1;
      UsesAreRows(h[..n], c);
      UsesIn(h[n].inputs, n, c);
      SumConcat(Spends(h[..n]), SpendsIn(h[n].inputs, n), p => if Matches(c, p) then 1 else 0);
      NamingPrefix(h, c.txid, c.index, 0, n);
      NamingOne(h, c.txid, c.index, n);
      NamingSplits(h, c.txid, c.index, 0, n, n + 1);
    }
  }

  lemma UsesBelowAreRows(h: seq<Event>, c: Coin, n: nat)
    requires n <= |h|
    ensures UsesBelow(h, c, n) == |Naming(h, c.txid, c.index, 0, n)|
  {
    UsesOfTruncated(h, n, c);
    UsesAreRows(h[..n], c);
    NamingPrefix(h, c.txid, c.index, 0, n);
  }

  lemma UsesAtAreRows(h: seq<Event>, c: Coin, n: nat)
    requires n < |h|
    ensures UsesAt(h, c, n) == |Naming(h, c.txid, c.index, n, n + 1)|
  {
    UsesBelowAreRows(h, c, n);
    UsesBelowAreRows(h, c, n + 1);
    UsesAddUp(h, c, n);
    NamingSplits(h, c.txid, c.index, 0, n, n + 1);
  }

  lemma UnspentIsUnnamed(h: seq<Event>, c: Coin)
    ensures Unspent(h, c) <==> Naming(h, c.txid, c.index, 0, |h|) == {}
  {
    NoUse(Spends(h), c);
    UsesAreRows(h, c);
    assert Unspent(h, c) <==> forall p :: p in Spends(h) ==> !Matches(c, p);
  }

  lemma TakenIsNamed(h: seq<Event>, c: Coin)
    ensures Taken(h, c) <==> Naming(h, c.txid, c.index, c.event, |h|) != {}
  {
    var found := Naming(h, c.txid, c.index, c.event, |h|);
    if Taken(h, c) {
      var p :| p in Spends(h) && p.event >= c.event && Matches(c, p);
      SpendsExact(h, p);
      var m :| 0 <= m < |h[p.event].inputs| && Names(h[p.event].inputs[m], p.txid, p.index);
      assert (p.event, m) in found;
    }
    if found != {} {
      var x :| x in found;
      var p := Spend(x.0, c.txid, c.index);
      assert h[x.0].inputs[x.1] in h[x.0].inputs;
      SpendsExact(h, p);
      assert Matches(c, p);
    }
  }

  // ---- coins ----

  // The coin of output row `j` of event `k`.
  ghost predicate IsCoinOf(c: Coin, h: seq<Event>, k: nat, j: nat) {
    && k < |h| && j < |h[k].outputs|
    && c.event == k && c.txid == h[k].key.txid && c.height == h[k].height
    && c.coinbase == h[k].coinbase && c.index == h[k].outputs[j].0
    && c.value == h[k].outputs[j].1.value && c.address == h[k].outputs[j].1.address
  }

  ghost function CoinAt(h: seq<Event>, k: nat, j: nat): (c: Coin)
    requires k < |h| && j < |h[k].outputs|
    ensures IsCoinOf(c, h, k, j)
  {
    CoinsOf(h[k], k)[j]
  }

  ghost function Occurrences<T>(s: seq<T>, x: T, i: nat): set<(nat, nat)> {
    set j: nat | j < |s| && s[j] == x :: (i, j)
  }

  lemma {:induction false} CountInList<T>(s: seq<T>, x: T, i: nat)
    ensures Listed(s, x) == |Occurrences(s, x, i)|
  {
    if s != [] {
      var n := |s| - 1;
      CountInList(s[..n], x, i);
      var init := Occurrences(s[..n], x, i);
      assert s == s[..n] + [s[n]];
      assert (i, n) !in init;
      assert Occurrences(s, x, i) == if s[n] == x then init + {(i, n)} else init;
    }
  }

  // The output rows of which `c` is the coin.
  ghost function RowsOfCoin(h: seq<Event>, c: Coin): set<(nat, nat)> {
    set j: nat | c.event < |h| && j < |h[c.event].outputs| && IsCoinOf(c, h, c.event, j) :: (c.event, j)
  }

  lemma CoinsOfCount(h: seq<Event>, c: Coin)
    requires h != []
    ensures var n := |h| - 1;
            Listed(CoinsOf(h[n], n), c) == if c.event == n then |RowsOfCoin(h, c)| else 0
  {
    var n := |h| - 1;
    var last := CoinsOf(h[n], n);
    CountInList(last, c, n);
    var found := Occurrences(last, c, n);
    if c.event == n {
      forall j: nat | j < |last|
        ensures last[j] == c <==> IsCoinOf(c, h, n, j)
      {
        assert IsCoinOf(CoinAt(h, n, j), h, n, j) && last[j] == CoinAt(h, n, j);
      }
      forall x: (nat, nat)
        ensures x in RowsOfCoin(h, c) <==> x in found
      {
      }
      assert RowsOfCoin(h, c) == found;
    } else {
      assert found == {};
    }
  }

  lemma {:induction false} CoinsCount(h: seq<Event>, c: Coin)
    ensures Listed(Coins(h), c) == |RowsOfCoin(h, c)|
    decreases |h|
  {
    if h != [] {
      var n := |h| - 1;
      CoinsCount(h[..n], c);
      CoinsOfCount(h, c);
      assert Listed(Coins(h), c) == Listed(Coins(h[..n]), c) + Listed(CoinsOf(h[n], n), c);
      if c.event < n {
        assert forall j :: IsCoinOf(c, h, c.event, j) <==> IsCoinOf(c, h[..n], c.event, j);
        assert RowsOfCoin(h, c) == RowsOfCoin(h[..n], c);
      }
    }
  }

  /** A coin is listed once for each output row with its columns, and so exactly if
      there is one. */
  lemma CoinsExact(h: seq<Event>, c: Coin)
    ensures Listed(Coins(h), c) == |RowsOfCoin(h, c)|
    ensures c in Coins(h) <==> exists j: nat :: IsCoinOf(c, h, c.event, j)
  {
    CoinsCount(h, c);
    assert c in Coins(h) <==> Listed(Coins(h), c) > 0;
    if RowsOfCoin(h, c) != {} {
      var x :| x in RowsOfCoin(h, c);
      assert IsCoinOf(c, h, c.event, x.1);
    }
    if exists j: nat :: IsCoinOf(c, h, c.event, j) {
      var j: nat :| IsCoinOf(c, h, c.event, j);
      assert (c.event, j) in RowsOfCoin(h, c);
    }
  }

  // ---- sums of coins are sums over output rows ----

  lemma {:induction false} SumOfList<T>(s: seq<T>, f: T -> int, g: nat -> int)
    requires forall j: nat :: j < |s| ==> g(j) == f(s[j])
    ensures Sum(s, f) == SumBelow(|s|, g)
  {
    if s != [] {
      SumOfList(s[..|s| - 1], f, g);
    }
  }

  lemma {:induction false} SumOfCoins(h: seq<Event>, n: nat, f: Coin -> int, g: (nat, nat) -> int)
    requires n <= |h|
    requires forall k: nat, j: nat :: k < n && j < |h[k].outputs| ==> g(k, j) == f(CoinAt(h, k, j))
    ensures Sum(Coins(h[..n]), f) == OverOutputs(h, n, g)
  {
    if n > 0 {
      var m := n - 1;
      assert h[..n][..m] == h[..m] && h[..n][m] == h[m];
      SumOfCoins(h, m, f, g);
      SumConcat(Coins(h[..m]), CoinsOf(h[m], m), f);
      forall j: nat | j < |h[m].outputs|
        ensures g(m, j) == f(CoinsOf(h[m], m)[j])
      {
        assert CoinAt(h, m, j) == CoinsOf(h[m], m)[j];
      }
      SumOfList(CoinsOf(h[m], m), f, (j: nat) => g(m, j));
    }
  }

  // `picks` says of the rows what `counts` says of their coins.
  ghost predicate SameRows(h: seq<Event>, a: string, counts: Coin -> bool, picks: (nat, nat) -> bool) {
    forall k: nat, j: nat :: Pays(h, k, j, a) ==> (picks(k, j) <==> counts(CoinAt(h, k, j)))
  }

  lemma TotalIsPaid(h: seq<Event>, a: string, counts: Coin -> bool, picks: (nat, nat) -> bool)
    requires SameRows(h, a, counts, picks)
    ensures Total(h, a, counts) == Paid(h, a, picks)
  {
    assert h[..|h|] == h;
    var f := (c: Coin) => if Owned(a, c) && counts(c) then c.value else 0;
    var g := (k: nat, j: nat) => if Pays(h, k, j, a) && picks(k, j) then ValueAt(h, k, j) else 0;
    forall k: nat, j: nat | k < |h| && j < |h[k].outputs|
      ensures g(k, j) == f(CoinAt(h, k, j))
    {
      assert Pays(h, k, j, a) ==> (picks(k, j) <==> counts(CoinAt(h, k, j)));
    }
    SumOfCoins(h, |h|, f, g);
  }

  lemma CountIsPaid(h: seq<Event>, a: string, counts: Coin -> bool, picks: (nat, nat) -> bool)
    requires SameRows(h, a, counts, picks)
    ensures CountOf(h, a, counts) == PaidCount(h, a, picks)
  {
    assert h[..|h|] == h;
    var f := (c: Coin) => if Owned(a, c) && counts(c) then 1 else 0;
    var g := (k: nat, j: nat) => if Pays(h, k, j, a) && picks(k, j) then 1 else 0;
    forall k: nat, j: nat | k < |h| && j < |h[k].outputs|
      ensures g(k, j) == f(CoinAt(h, k, j))
    {
      assert Pays(h, k, j, a) ==> (picks(k, j) <==> counts(CoinAt(h, k, j)));
    }
    SumOfCoins(h, |h|, f, g);
  }

  lemma RowIsCoin(h: seq<Event>, k: nat, j: nat)
    requires k < |h| && j < |h[k].outputs|
    ensures CoinAt(h, k, j) in Coins(h)
    ensures Uses(h, CoinAt(h, k, j)) == |NamingRow(h, k, j, 0, |h|)|
    ensures Unspent(h, CoinAt(h, k, j)) <==> NamingRow(h, k, j, 0, |h|) == {}
    ensures Taken(h, CoinAt(h, k, j)) <==> NamingRow(h, k, j, k, |h|) != {}
  {
    var c := CoinAt(h, k, j);
    CoinsExact(h, c);
    UsesAreRows(h, c);
    UnspentIsUnnamed(h, c);
    TakenIsNamed(h, c);
  }

  // ---- the page ----

  // No input row of the history names the output row.
  ghost predicate Free(h: seq<Event>, k: nat, j: nat) {
    NamingRow(h, k, j, 0, |h|) == {}
  }

  lemma RowIsFree(h: seq<Event>, a: string, k: nat, j: nat)
    requires Pays(h, k, j, a)
    ensures SpendCount(h, a, CoinAt(h, k, j)) == 0 <==> Free(h, k, j)
    ensures SpendCount(h, a, CoinAt(h, k, j)) > 0 <==> !Free(h, k, j)
  {
    RowIsCoin(h, k, j);
    UnspentAgrees(h, a, CoinAt(h, k, j));
  }

  /** Every amount and count of the page, row by row: an output row of the address
      is unspent exactly when no input row of the history names it. */
  lemma PageOverRows(h: seq<Event>, a: string)
    ensures Received(h, a) == Paid(h, a, (k: nat, j: nat) => true)
    ensures Sent(h, a) == Paid(h, a, (k: nat, j: nat) => !Free(h, k, j))
    ensures Balance(h, a) == Paid(h, a, (k: nat, j: nat) => Free(h, k, j))
    ensures UtxoCount(h, a) == PaidCount(h, a, (k: nat, j: nat) => Free(h, k, j))
  {
    TotalIsPaid(h, a, c => true, (k: nat, j: nat) => true);
    forall k: nat, j: nat | Pays(h, k, j, a)
      ensures SpendCount(h, a, CoinAt(h, k, j)) == 0 <==> Free(h, k, j)
      ensures SpendCount(h, a, CoinAt(h, k, j)) > 0 <==> !Free(h, k, j)
    {
      RowIsFree(h, a, k, j);
    }
    TotalIsPaid(h, a, c => SpendCount(h, a, c) > 0, (k: nat, j: nat) => !Free(h, k, j));
    TotalIsPaid(h, a, c => SpendCount(h, a, c) == 0, (k: nat, j: nat) => Free(h, k, j));
    CountIsPaid(h, a, c => SpendCount(h, a, c) == 0, (k: nat, j: nat) => Free(h, k, j));
  }

  // The block of event `k` has so many confirmations under the tip.
  ghost function Confirmations(h: seq<Event>, k: nat, tip: int): int {
    if k < |h| then tip + 1 - h[k].height else 0
  }

  ghost predicate Mined(h: seq<Event>, k: nat) {
    k < |h| && h[k].coinbase
  }

  /** The three parts of the balance: outputs of other transactions, and coinbase
      outputs below and from the confirmations that make them mature. */
  lemma MaturityOverRows(h: seq<Event>, a: string, tip: int, maturity: int)
    ensures Immature(h, a, tip, maturity) ==
            Paid(h, a, (k: nat, j: nat) =>
              Free(h, k, j) && Mined(h, k) && Confirmations(h, k, tip) < maturity)
    ensures Mature(h, a, tip, maturity) ==
            Paid(h, a, (k: nat, j: nat) =>
              Free(h, k, j) && Mined(h, k) && Confirmations(h, k, tip) >= maturity)
    ensures NonCoinbase(h, a) == Paid(h, a, (k: nat, j: nat) => Free(h, k, j) && !Mined(h, k))
  {
    forall k: nat, j: nat | Pays(h, k, j, a)
      ensures SpendCount(h, a, CoinAt(h, k, j)) == 0 <==> Free(h, k, j)
    {
      RowIsFree(h, a, k, j);
    }
    TotalIsPaid(h, a, c => SpendCount(h, a, c) == 0 && c.coinbase && tip - c.height + 1 < maturity,
                (k: nat, j: nat) => Free(h, k, j) && Mined(h, k) && Confirmations(h, k, tip) < maturity);
    TotalIsPaid(h, a, c => SpendCount(h, a, c) == 0 && c.coinbase && tip - c.height + 1 >= maturity,
                (k: nat, j: nat) => Free(h, k, j) && Mined(h, k) && Confirmations(h, k, tip) >= maturity);
    TotalIsPaid(h, a, c => SpendCount(h, a, c) == 0 && !c.coinbase,
                (k: nat, j: nat) => Free(h, k, j) && !Mined(h, k));
  }

  // The output rows of the address at the outpoint of a row.
  ghost predicate SameOutpoint(h: seq<Event>, k: nat, j: nat, i: nat, m: nat) {
    && k < |h| && j < |h[k].outputs| && i < |h| && m < |h[i].outputs|
    && h[i].key.txid == h[k].key.txid && h[i].outputs[m].0 == h[k].outputs[j].0
  }

  // The joined rows of a row: each naming input once for each row at the outpoint.
  ghost function JoinedRows(h: seq<Event>, a: string, k: nat, j: nat): int {
    |NamingRow(h, k, j, 0, |h|)| * PaidCount(h, a, (i: nat, m: nat) => SameOutpoint(h, k, j, i, m))
  }

  lemma CopiesAreRows(h: seq<Event>, a: string, k: nat, j: nat)
    requires Pays(h, k, j, a)
    ensures SpendCount(h, a, CoinAt(h, k, j)) == JoinedRows(h, a, k, j)
  {
    var c := CoinAt(h, k, j);
    RowIsCoin(h, k, j);
    SpendCountIsProduct(h, a, c);
    var same := (r: Coin) => r.txid == c.txid && r.index == c.index;
    CountIsPaid(h, a, same, (i: nat, m: nat) => SameOutpoint(h, k, j, i, m));
    SumSame(Coins(h), (r: Coin) => if Owned(a, r) && same(r) then 1 else 0,
            (r: Coin) => if Owned(a, r) && r.txid == c.txid && r.index == c.index then 1 else 0);
  }

  /** The anomalies reported are the joined rows beyond one of each output row. */
  lemma AnomaliesOverRows(h: seq<Event>, a: string)
    ensures Anomalies(h, a) ==
            OverOutputs(h, |h|, (k: nat, j: nat) =>
              if Pays(h, k, j, a) && JoinedRows(h, a, k, j) >= 2 then JoinedRows(h, a, k, j) - 1 else 0)
  {
    assert h[..|h|] == h;
    var f := (c: Coin) => if Owned(a, c) then Excess(SpendCount(h, a, c)) else 0;
    var g := (k: nat, j: nat) =>
      if Pays(h, k, j, a) && JoinedRows(h, a, k, j) >= 2 then JoinedRows(h, a, k, j) - 1 else 0;
    forall k: nat, j: nat | k < |h| && j < |h[k].outputs|
      ensures g(k, j) == f(CoinAt(h, k, j))
    {
      if Pays(h, k, j, a) {
        CopiesAreRows(h, a, k, j);
      }
    }
    SumOfCoins(h, |h|, f, g);
  }

  // ---- the replay ----

  /** The replayed balance: an output row counts until an input row of its own or a
      later event names it. */
  lemma ReplayOverRows(h: seq<Event>, a: string)
    ensures ReplayBalance(h, a) == Paid(h, a, (k: nat, j: nat) => NamingRow(h, k, j, k, |h|) == {})
  {
    LiveIsUntaken(h);
    var held := (c: Coin) => !Taken(h, c);
    SumFilter(Coins(h), held, (c: Coin) => if Owned(a, c) then c.value else 0,
              (c: Coin) => if Owned(a, c) && held(c) then c.value else 0);
    forall k: nat, j: nat | Pays(h, k, j, a)
      ensures held(CoinAt(h, k, j)) <==> NamingRow(h, k, j, k, |h|) == {}
    {
      RowIsCoin(h, k, j);
    }
    TotalIsPaid(h, a, held, (k: nat, j: nat) => NamingRow(h, k, j, k, |h|) == {});
  }
}
