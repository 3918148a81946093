/** The reference for all balances: replaying the history event by event on a
    list of live coins, and what the page reports in its terms. */
module Replay {
  import opened History
  import opened Sums
  import opened AddressViews
  import opened RunningBalance

  ghost predicate NamedBy(spends: seq<Spend>, c: Coin) {
    exists p :: p in spends && Matches(c, p)
  }

  /** Each event adds its outputs and then removes the coins its inputs name;
      an input that names no live coin has no effect. */
  ghost function Live(h: seq<Event>): seq<Coin> {
    if h == [] then []
    else
      var n := |h| - 1;
      Filter(Live(h[..n]) + CoinsOf(h[n], n), (c: Coin) => !NamedBy(SpendsIn(h[n].inputs, n), c))
  }

  ghost function ReplayBalance(h: seq<Event>, a: string): int {
    Sum(Live(h), (c: Coin) => if Owned(a, c) then c.value else 0)
  }

  // Some event from the coin's own on names it.
  ghost predicate Taken(h: seq<Event>, c: Coin) {
    exists p :: p in Spends(h) && p.event >= c.event && Matches(c, p)
  }

  /** The live coins are the coins of the history that no later input names. */
  lemma {:induction false} LiveIsUntaken(h: seq<Event>)
    ensures Live(h) == Filter(Coins(h), (c: Coin) => !Taken(h, c))
    decreases |h|
  {
    if h != [] {
      LiveIsUntaken(h[..|h| - 1]);
      LiveStep(h);
    }
  }

  lemma LiveStep(h: seq<Event>)
    requires h != []
    requires Live(h[..|h| - 1]) == Filter(Coins(h[..|h| - 1]), (c: Coin) => !Taken(h[..|h| - 1], c))
    ensures Live(h) == Filter(Coins(h), (c: Coin) => !Taken(h, c))
  {
    var n := |h| - 1;
    var before := (c: Coin) => !Taken(h[..n], c);
    var now := (c: Coin) => !NamedBy(SpendsIn(h[n].inputs, n), c);
    var after := (c: Coin) => !Taken(h, c);
    forall c | c in Coins(h)
      ensures after(c) <==> before(c) && now(c)
    {
      TakenStep(h, c);
    }
    FilterKeepsAll(CoinsOf(h[n], n), before, n, h[..n]);
    FilterConcat(Coins(h[..n]), CoinsOf(h[n], n), before);
    FilterTwice(Coins(h), before, now, after);
  }

  lemma TakenStep(h: seq<Event>, c: Coin)
    requires h != [] && c in Coins(h)
    ensures Taken(h, c) <==> Taken(h[..|h| - 1], c) || NamedBy(SpendsIn(h[|h| - 1].inputs, |h| - 1), c)
  {
    var n := |h| - 1;
    assert Spends(h) == Spends(h[..n]) + SpendsIn(h[n].inputs, n);
    assert c.event <= n;
  }

  // No earlier input comes after a new coin.
  lemma {:induction false} FilterKeepsAll(coins: seq<Coin>, before: Coin -> bool, n: nat, past: seq<Event>)
    requires |past| == n && forall c :: c in coins ==> c.event == n
    requires forall c :: before(c) <==> !Taken(past, c)
    ensures Filter(coins, before) == coins
    decreases |coins|
  {
    if coins != [] {
      assert coins[|coins| - 1] in coins;
      FilterKeepsAll(coins[..|coins| - 1], before, n, past);
    }
  }

  // Named only by events before the one that creates it.
  ghost predicate OnlyEarly(h: seq<Event>, c: Coin) {
    !Unspent(h, c) && !Taken(h, c)
  }

  // The coins the page takes for spent and the replay does not.
  ghost function EarlyValue(h: seq<Event>, a: string): int {
    Sum(Coins(h), (c: Coin) => if Owned(a, c) && OnlyEarly(h, c) then c.value else 0)
  }

  /** The page's balance falls short of the replayed one by exactly the coins
      that only earlier inputs name, and so equals it exactly when none of them
      has value. */
  lemma ReplayRefinesPage(h: seq<Event>, a: string)
    requires AllPriced(h)
    ensures ReplayBalance(h, a) == Balance(h, a) + EarlyValue(h, a)
    ensures ReplayBalance(h, a) == Balance(h, a) <==>
            forall c :: c in Coins(h) && Owned(a, c) && OnlyEarly(h, c) ==> c.value == 0
  {
    CoinsPriced(h);
    var value := (c: Coin) => if Owned(a, c) then c.value else 0;
    var kept := (c: Coin) => if Owned(a, c) && !Taken(h, c) then c.value else 0;
    LiveIsUntaken(h);
    SumFilter(Coins(h), (c: Coin) => !Taken(h, c), value, kept);
    RichListAgrees(h, a);
    RichBalanceIs(h, a);
    forall c | c in Coins(h)
      ensures Taken(h, c) ==> !Unspent(h, c)
    {
      TakenIsSpent(h, c);
    }
    var early := (c: Coin) => if Owned(a, c) && OnlyEarly(h, c) then c.value else 0;
    SumPlus(Coins(h), c => Share(h, a, c), early, kept);
    SumZero(Coins(h), early);
    assert forall c :: c in Coins(h) && Owned(a, c) && OnlyEarly(h, c) ==> early(c) == c.value;
  }

  lemma TakenIsSpent(h: seq<Event>, c: Coin)
    ensures Taken(h, c) ==> !Unspent(h, c)
  {
    if Taken(h, c) {
      var p :| p in Spends(h) && p.event >= c.event && Matches(c, p);
      assert (p.txid, p.index) in SpentPrevouts(h);
    }
  }

  lemma EarlyUse(h: seq<Event>, c: Coin)
    requires OnlyEarly(h, c)
    ensures UsesBelow(h, c, c.event) > 0
  {
    var q :| q in Spends(h) && (q.txid, q.index) == (c.txid, c.index as nat);
    SumBounds(Spends(h), (p: Spend) => if p.event < c.event && Matches(c, p) then 1 else 0, q);
  }

  /** In an orderly history the replay, the page and the last row of the activity
      all show the same balance. */
  lemma OrderlyBalancesAgree(h: seq<Event>, a: string)
    requires AllPriced(h) && Orderly(h, a)
    ensures ReplayBalance(h, a) == Balance(h, a) == LastBalance(Activity(h, a, |h|))
  {
    CoinsPriced(h);
    ReplayRefinesPage(h, a);
    LastRowIsUnspent(h, a);
    forall c | c in Coins(h) && Owned(a, c) && OnlyEarly(h, c)
      ensures c.value == 0
    {
      EarlyUse(h, c);
    }
  }
}
