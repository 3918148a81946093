/** The address statistics by height (src/analytics.rs:907-953) and the current
    counts (src/analytics.rs:955-983). */
module AddressStats {
  import opened Wrappers
  import opened History
  import opened AddressViews

  // `events`: the distinct pairs of an address and a height.
  type Pairs = set<(string, nat)>

  ghost function EventPairs(h: seq<Event>): Pairs {
    set c, k: nat | c in Coins(h) && k < |h| && c.address.Some? && Involves(h, c.address.value, c, k)
      :: (c.address.value, h[k].height)
  }

  // ---- the query ----

  // active: COUNT(DISTINCT address) at one height.
  ghost function ActiveAt(events: Pairs, height: nat): set<string> {
    set e | e in events && e.1 == height :: e.0
  }

  // first_seen: MIN(height) of an address is `height`.
  ghost predicate FirstSeenAt(events: Pairs, a: string, height: nat) {
    (a, height) in events && forall other: nat :: (a, other) in events ==> height <= other
  }

  // new_by_height
  ghost function NewAt(events: Pairs, height: nat): set<string> {
    set e | e in events && FirstSeenAt(events, e.0, height) :: e.0
  }

  // SUM(new) OVER (ORDER BY height) on the rows of the selected heights 0..height.
  ghost function TotalSeen(events: Pairs, height: nat): nat {
    (if height == 0 then 0 else TotalSeen(events, height - 1)) + |NewAt(events, height)|
  }

  // The addresses with an event at or below a height.
  ghost function SeenBelow(events: Pairs, height: nat): set<string> {
    set e | e in events && e.1 <= height :: e.0
  }

  // ---- telescoping ----

  lemma NewIsFresh(events: Pairs, height: nat)
    ensures height == 0 ==> SeenBelow(events, height) == NewAt(events, height)
    ensures height > 0 ==>
              && SeenBelow(events, height) == SeenBelow(events, height - 1) + NewAt(events, height)
              && SeenBelow(events, height - 1) !! NewAt(events, height)
  {
    forall a | a in SeenBelow(events, height) && (height > 0 ==> a !in SeenBelow(events, height - 1))
      ensures a in NewAt(events, height)
    {
      var e :| e in events && e.1 <= height && e.0 == a;
      assert e.1 == height;
      assert FirstSeenAt(events, a, height) && (a, height) in events;
    }
    forall a | a in NewAt(events, height)
      ensures a in SeenBelow(events, height)
    {
      assert (a, height) in events;
    }
    if height > 0 {
      forall a | a in SeenBelow(events, height - 1)
        ensures a !in NewAt(events, height) && a in SeenBelow(events, height)
      {
        var e :| e in events && e.1 <= height - 1 && e.0 == a;
        assert (a, e.1) in events;
      }
    }
  }

  /** Telescoping: the running total of first appearances is the number of
      distinct addresses with an event up to that height. */
  lemma {:induction false} TotalIsSeen(events: Pairs, height: nat)
    ensures TotalSeen(events, height) == |SeenBelow(events, height)|
  {
    NewIsFresh(events, height);
    if height > 0 {
      TotalIsSeen(events, height - 1);
    }
  }

  lemma {:induction false} TotalIsMonotone(events: Pairs, low: nat, high: nat)
    requires low <= high
    ensures TotalSeen(events, low) <= TotalSeen(events, high)
    decreases high
  {
    if low < high {
      TotalIsMonotone(events, low, high - 1);
    }
  }

  /** New addresses are active ones. */
  lemma NewAreActive(events: Pairs, height: nat)
    ensures NewAt(events, height) <= ActiveAt(events, height)
    ensures |NewAt(events, height)| <= |ActiveAt(events, height)|
  {
    forall a | a in NewAt(events, height)
      ensures a in ActiveAt(events, height)
    {
      assert (a, height) in events;
    }
    SubsetCount(NewAt(events, height), ActiveAt(events, height));
  }

  lemma SubsetCount<T>(a: set<T>, b: set<T>)
    requires a <= b
    ensures |a| <= |b|
  {
    assert b == a + (b - a);
  }

  // ---- the current count ----

  // seen: SELECT DISTINCT address over the outputs alone.
  ghost function Seen(h: seq<Event>): set<string> {
    set c | c in Coins(h) && c.address.Some? :: c.address.value
  }

  /** At the tip the telescoped total is the separately computed number of seen
      addresses: a spend never shows an address that no output showed. */
  lemma TotalAtTip(h: seq<Event>, tip: nat)
    requires forall e :: e in h ==> e.height <= tip
    ensures TotalSeen(EventPairs(h), tip) == |Seen(h)|
  {
    var events := EventPairs(h);
    TotalIsSeen(events, tip);
    forall a | a in SeenBelow(events, tip)
      ensures a in Seen(h)
    {
      var e :| e in events && e.1 <= tip && e.0 == a;
    }
    forall a | a in Seen(h)
      ensures a in SeenBelow(events, tip)
    {
      var c :| c in Coins(h) && c.address == Some(a);
      assert Involves(h, a, c, c.event);
      assert h[c.event] in h;
      assert (a, h[c.event].height) in events;
    }
    assert SeenBelow(events, tip) == Seen(h);
  }
}
