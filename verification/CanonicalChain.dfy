/** The canonical chain as a hash-linked list of write-once blocks: what a
    commit and a branch replacement do to it, and what a tip hash determines. */
module CanonicalChain {
  import opened Wrappers
  import opened OrderedRows
  import opened Schema
  import opened StoreSemantics

  // The block of `k` is stored with height `h`, and the witness is stored too.
  ghost predicate Stored(s: Store, k: WitnessKey, h: nat) {
    k in s.witnesses && k.block in s.blocks && s.blocks[k.block].height == h && h <= I64_MAX
  }

  ghost predicate SelectedAt(s: Store, h: nat)
    requires h in s.canonical
  {
    Stored(s, s.canonical[h], h)
  }

  ghost predicate LinkedAt(s: Store, h: nat)
    requires h in s.canonical && SelectedAt(s, h)
  {
    h > 0 ==>
      && h - 1 in s.canonical
      && s.blocks[s.canonical[h].block].previous == Some(s.canonical[h - 1].block)
  }

  // chain_state names the highest selector, whose witness it holds or not at all.
  ghost predicate TipRecorded(s: Store) {
    match s.chainState.indexedHeight
    case None =>
      s.canonical == map[] && s.chainState.indexedHash.None? && s.chainState.indexedWitness.None?
    case Some(tip) =>
      && tip in s.canonical
      && (forall h: nat :: h in s.canonical <==> h <= tip)
      && s.chainState.indexedHash == Some(s.canonical[tip].block)
      && (s.chainState.indexedWitness.Some? ==>
            s.chainState.indexedWitness == Some(s.canonical[tip].witnessHash))
  }

  ghost predicate ChainValid(s: Store) {
    && TipRecorded(s)
    && (forall h :: h in s.canonical ==> SelectedAt(s, h))
    && (forall h {:trigger LinkedAt(s, h)} :: h in s.canonical ==> LinkedAt(s, h))
  }

  ghost predicate IsTip(c: map<nat, WitnessKey>, height: nat, hash: Hash) {
    && height in c && c[height].block == hash
    && forall h :: h in c ==> h <= height
  }

  lemma TipIsRecorded(s: Store, height: nat, hash: Hash)
    requires ChainValid(s)
    ensures IsTip(s.canonical, height, hash) <==>
            s.chainState.indexedHeight == Some(height) && s.chainState.indexedHash == Some(hash)
  {
  }

  // New facts alone keep the chain valid.
  lemma FactsKeepChain(s: Store, t: Store)
    requires ChainValid(s) && Grows(s, t)
    requires t.canonical == s.canonical
    requires t.chainState.indexedHeight == s.chainState.indexedHeight
    requires t.chainState.indexedHash == s.chainState.indexedHash
    requires t.chainState.indexedWitness == s.chainState.indexedWitness
    ensures ChainValid(t)
  {
    assert forall h :: h in s.canonical ==> SelectedAt(s, h) && LinkedAt(s, h);
    assert forall h :: h in t.canonical ==> SelectedAt(t, h);
  }

  // ---- commit ----

  /** The block a pass may append next: the first one, or the child of the tip. */
  ghost predicate Follows(c: map<nat, WitnessKey>, b: RpcBlock) {
    if c == map[] then
      b.height == 0
    else
      b.height > 0 && b.previous.Some? && IsTip(c, b.height - 1, b.previous.value)
  }

  lemma FollowsIsNew(s: Store, b: RpcBlock, t: Store)
    requires ChainValid(s) && Follows(s.canonical, b)
    requires Grows(s, t) && t.canonical == s.canonical
    requires b.hash in t.blocks && t.blocks[b.hash].height == b.height
    ensures b.height !in s.canonical && !SelectsBlock(t.canonical, b.hash)
  {
    forall h | h in t.canonical
      ensures t.canonical[h].block != b.hash
    {
      assert SelectedAt(s, h);
    }
  }

  /** Appending a following block aborts only if its facts are refused: neither
      the height, nor the unique block hash, nor the witness key gets in the way. */
  lemma CommitSucceeds(s: Store, b: IndexedBlock)
    requires ChainValid(s) && Follows(s.canonical, b.block)
    ensures CommitBlock(s, b).Some? <==> InsertBlock(s, b).Some?
    ensures CommitBlock(s, b).Some? ==>
              CommitBlock(s, b).value.canonical == s.canonical[b.block.height := b.Key()]
  {
    if InsertBlock(s, b).Some? {
      var t := InsertBlock(s, b).value;
      InsertBlockGrows(s, b, t);
      FollowsIsNew(s, b.block, t);
    }
  }

  // Selecting blocks resets the status and the error and leaves the node's tip.
  ghost predicate SyncingAsBefore(before: ChainState, after: ChainState) {
    && after.status == Syncing && after.lastError.None?
    && after.nodeHeight == before.nodeHeight && after.nodeHash == before.nodeHash
  }

  lemma CommitKeepsChain(s: Store, b: IndexedBlock, t: Store)
    requires ChainValid(s) && Follows(s.canonical, b.block) && CommitBlock(s, b) == Some(t)
    ensures ChainValid(t)
    ensures IsTip(t.canonical, b.block.height, b.block.hash)
    ensures t.chainState.indexedWitness == Some(b.witnessHash)
    ensures SyncingAsBefore(s.chainState, t.chainState)
  {
    var s1 := InsertBlock(s, b).value;
    InsertBlockGrows(s, b, s1);
    CommitSucceeds(s, b);
    FollowsTipHeights(s, b.block);
    FactsKeepChain(s, s1);
    AppendKeepsChain(s1, b, t);
  }

  lemma AppendKeepsChain(s: Store, b: IndexedBlock, t: Store)
    requires ChainValid(s) && Follows(s.canonical, b.block) && Holds(s, b)
    requires forall h: nat :: h in s.canonical <==> h < b.block.height
    requires t.blocks == s.blocks && t.witnesses == s.witnesses
    requires t.canonical == s.canonical[b.block.height := b.Key()]
    requires t.chainState.indexedHeight == Some(b.block.height)
    requires t.chainState.indexedHash == Some(b.block.hash)
    requires t.chainState.indexedWitness == Some(b.witnessHash)
    ensures ChainValid(t) && IsTip(t.canonical, b.block.height, b.block.hash)
  {
    forall h | h in t.canonical
      ensures SelectedAt(t, h)
    {
      assert h in s.canonical ==> SelectedAt(s, h);
    }
    forall h | h in t.canonical
      ensures LinkedAt(t, h)
    {
      assert h in s.canonical ==> LinkedAt(s, h);
    }
  }

  lemma FollowsTipHeights(s: Store, b: RpcBlock)
    requires ChainValid(s) && Follows(s.canonical, b)
    ensures forall h: nat :: h in s.canonical <==> h < b.height
  {
    if s.canonical != map[] {
      assert s.chainState.indexedHeight == Some((b.height - 1) as nat) by {
        TipIsRecorded(s, b.height - 1, b.previous.value);
      }
    }
  }

  // ---- replacement ----

  // `c` holds `base` below `start` and `branch` from there on, and nothing else.
  ghost predicate Published(c: map<nat, WitnessKey>, base: map<nat, WitnessKey>, start: nat,
                            branch: seq<IndexedBlock>)
  {
    && (forall h: nat :: h in c <==> h in base || start <= h < start + |branch|)
    && (forall h :: h in base ==> h < start && c[h] == base[h])
    && (forall h: nat :: start <= h < start + |branch| ==> c[h] == branch[h - start].Key())
  }

  lemma {:induction false} ContiguousHeights(ancestor: Option<(nat, Hash)>, branch: seq<IndexedBlock>,
                                             i: nat)
    requires Contiguous(ancestor, branch) && i < |branch|
    requires ancestor.Some? ==> ancestor.value.0 <= I64_MAX
    requires forall j :: 0 <= j < |branch| ==> branch[j].block.height <= I64_MAX
    ensures branch[i].block.height == StartAfter(ancestor) + i
  {
    if i > 0 {
      ContiguousHeights(ancestor, branch, i - 1);
      assert branch[i].block.height == SaturatingNext(branch[i-1].block.height);
      assert branch[i-1].block.height <= I64_MAX;
    }
  }

  // Selectors `base` and the facts of `branch` are stored, at heights below
  // `start` and from `start` on.
  ghost predicate ReadyToSelect(s: Store, base: map<nat, WitnessKey>, start: nat,
                                branch: seq<IndexedBlock>)
  {
    && (forall h :: h in base ==> h < start && Stored(s, base[h], h))
    && (forall i :: 0 <= i < |branch| ==>
          Holds(s, branch[i]) && branch[i].block.height == start + i)
  }

  /** Publishing a selector meets neither a taken height, nor a block hash
      already selected, nor a missing witness. */
  ghost predicate NoConflict(c: map<nat, WitnessKey>, witnesses: map<WitnessKey, WitnessRow>,
                             b: IndexedBlock)
  {
    b.block.height !in c && !SelectsBlock(c, b.block.hash) && b.Key() in witnesses
  }

  lemma {:induction false} SelectorsExact(s: Store, base: map<nat, WitnessKey>, start: nat,
                                          branch: seq<IndexedBlock>)
    requires ReadyToSelect(s, base, start, branch)
    ensures PutSelectors(base, s.witnesses, branch).Some?
    ensures Published(PutSelectors(base, s.witnesses, branch).value, base, start, branch)
    decreases |branch|
  {
    if branch != [] {
      var n := |branch| - 1;
      ReadyPrefix(s, base, start, branch, n);
      SelectorsExact(s, base, start, branch[..n]);
      var m := PutSelectors(base, s.witnesses, branch[..n]).value;
      NextSelectorFree(s, base, start, branch, m);
      PublishedExtends(m, base, start, branch);
    }
  }

  lemma ReadyPrefix(s: Store, base: map<nat, WitnessKey>, start: nat, branch: seq<IndexedBlock>,
                    n: nat)
    requires n <= |branch| && ReadyToSelect(s, base, start, branch)
    ensures ReadyToSelect(s, base, start, branch[..n])
  {
    assert forall i :: 0 <= i < n ==> branch[..n][i] == branch[i];
  }

  lemma PublishedExtends(c: map<nat, WitnessKey>, base: map<nat, WitnessKey>, start: nat,
                         branch: seq<IndexedBlock>)
    requires branch != [] && Published(c, base, start, branch[..|branch| - 1])
    ensures Published(c[start + |branch| - 1 := branch[|branch| - 1].Key()], base, start, branch)
  {
    assert forall i :: 0 <= i < |branch| - 1 ==> branch[..|branch| - 1][i] == branch[i];
  }

  lemma NextSelectorFree(s: Store, base: map<nat, WitnessKey>, start: nat,
                         branch: seq<IndexedBlock>, m: map<nat, WitnessKey>)
    requires branch != [] && ReadyToSelect(s, base, start, branch)
    requires Published(m, base, start, branch[..|branch| - 1])
    ensures NoConflict(m, s.witnesses, branch[|branch| - 1])
  {
    var last := branch[|branch| - 1];
    assert Holds(s, last);
    forall h | h in m
      ensures m[h].block != last.block.hash
    {
      if h in base {
        assert Stored(s, base[h], h);
      } else {
        assert Holds(s, branch[h - start]) && branch[..|branch| - 1][h - start] == branch[h - start];
      }
    }
  }

  // A fork point: nothing, or a block selected now.
  ghost predicate ForkPoint(c: map<nat, WitnessKey>, ancestor: Option<(nat, Hash)>) {
    ancestor.Some? ==>
      ancestor.value.0 in c && c[ancestor.value.0].block == ancestor.value.1
  }

  lemma ReplacementReady(s: Store, ancestor: Option<(nat, Hash)>, branch: seq<IndexedBlock>, t: Store)
    requires ChainValid(s) && ForkPoint(s.canonical, ancestor)
    requires Contiguous(ancestor, branch) && InsertBlocks(s, branch) == Some(t)
    ensures ReadyToSelect(t, Prefix(s.canonical, ancestor), StartAfter(ancestor), branch)
    ensures Grows(s, t) && SameSelection(s, t)
  {
    InsertBlocksGrows(s, branch, t);
    var base := Prefix(s.canonical, ancestor);
    if ancestor.Some? {
      assert SelectedAt(s, ancestor.value.0);
    }
    forall h | h in base
      ensures h < StartAfter(ancestor) && Stored(t, base[h], h)
    {
      assert SelectedAt(s, h);
    }
    forall i | 0 <= i < |branch|
      ensures Holds(t, branch[i])
    {
      InsertBlocksHolds(s, branch, t, i);
    }
    forall i | 0 <= i < |branch|
      ensures branch[i].block.height == StartAfter(ancestor) + i
    {
      assert forall j :: 0 <= j < |branch| ==> Holds(t, branch[j]);
      ContiguousHeights(ancestor, branch, i);
    }
  }

  /** Exact publication. From a valid chain and a fork point on it, replacing a
      branch aborts exactly when the tip moved, the branch is not contiguous or
      some block's facts are refused; otherwise the new chain is the old one up
      to the fork point followed by the branch, nothing lost or ignored. */
  lemma ReplacementExact(s: Store, tip: ChainTip, ancestor: Option<(nat, Hash)>,
                         branch: seq<IndexedBlock>)
    requires ChainValid(s) && ForkPoint(s.canonical, ancestor)
    ensures ReplaceBranch(s, tip, ancestor, branch).Some? <==>
            && TipLocked(s.chainState, tip)
            && Contiguous(ancestor, branch)
            && InsertBlocks(s, branch).Some?
    ensures ReplaceBranch(s, tip, ancestor, branch).Some? ==>
              Published(ReplaceBranch(s, tip, ancestor, branch).value.canonical,
                        Prefix(s.canonical, ancestor), StartAfter(ancestor), branch)
  {
    if TipLocked(s.chainState, tip) {
      assert SelectedAt(s, tip.height);
    }
    if ancestor.Some? {
      assert SelectedAt(s, ancestor.value.0);
    }
    if Contiguous(ancestor, branch) && InsertBlocks(s, branch).Some? {
      var t := InsertBlocks(s, branch).value;
      ReplacementReady(s, ancestor, branch, t);
      SelectorsExact(t, Prefix(s.canonical, ancestor), StartAfter(ancestor), branch);
    }
  }

  lemma PublishedIsStored(s: Store, base: map<nat, WitnessKey>, start: nat,
                          branch: seq<IndexedBlock>)
    requires ReadyToSelect(s, base, start, branch) && Published(s.canonical, base, start, branch)
    ensures forall h :: h in s.canonical ==> SelectedAt(s, h)
  {
    forall h | h in s.canonical
      ensures SelectedAt(s, h)
    {
      if h in base {
        assert Stored(s, base[h], h);
      } else {
        assert Holds(s, branch[h - start]);
      }
    }
  }

  // The selectors below the fork point are linked, and the branch on top of them.
  lemma PublishedIsLinked(s: Store, ancestor: Option<(nat, Hash)>, branch: seq<IndexedBlock>,
                          t: Store, h: nat)
    requires ChainValid(s) && ForkPoint(s.canonical, ancestor) && Contiguous(ancestor, branch)
    requires Submap(s.blocks, t.blocks)
    requires Published(t.canonical, Prefix(s.canonical, ancestor), StartAfter(ancestor), branch)
    requires h in t.canonical && SelectedAt(t, h)
    requires h !in Prefix(s.canonical, ancestor) ==> Holds(t, branch[h - StartAfter(ancestor)])
    ensures LinkedAt(t, h)
  {
    if h in Prefix(s.canonical, ancestor) {
      assert SelectedAt(s, h) && LinkedAt(s, h);
    } else if h > 0 {
      PublishedLink(s, ancestor, branch, h);
    }
  }

  // What the block published at `h` names as its parent.
  lemma PublishedLink(s: Store, ancestor: Option<(nat, Hash)>, branch: seq<IndexedBlock>, h: nat)
    requires ChainValid(s) && ForkPoint(s.canonical, ancestor) && Contiguous(ancestor, branch)
    requires StartAfter(ancestor) <= h < StartAfter(ancestor) + |branch| && h > 0
    ensures h > StartAfter(ancestor) ==>
              branch[h - StartAfter(ancestor)].block.previous ==
              Some(branch[h - 1 - StartAfter(ancestor)].block.hash)
    ensures h == StartAfter(ancestor) ==>
              && ancestor.Some? && h - 1 == ancestor.value.0 && h - 1 in s.canonical
              && branch[0].block.previous == Some(s.canonical[h - 1].block)
  {
    if ancestor.Some? {
      assert SelectedAt(s, ancestor.value.0);
    }
  }

  lemma ReplacementKeepsChain(s: Store, tip: ChainTip, ancestor: Option<(nat, Hash)>,
                              branch: seq<IndexedBlock>, t: Store)
    requires ChainValid(s) && ForkPoint(s.canonical, ancestor)
    requires ReplaceBranch(s, tip, ancestor, branch) == Some(t)
    ensures ChainValid(t) && SyncingAsBefore(s.chainState, t.chainState)
    ensures t.chainState.indexedWitness ==
            if branch == [] then None else Some(branch[|branch| - 1].witnessHash)
  {
    var s1 := InsertBlocks(s, branch).value;
    ReplacementReady(s, ancestor, branch, s1);
    SelectorsExact(s1, Prefix(s.canonical, ancestor), StartAfter(ancestor), branch);
    PublicationKeepsChain(s, ancestor, branch, s1, t);
  }

  lemma PublicationKeepsChain(s: Store, ancestor: Option<(nat, Hash)>, branch: seq<IndexedBlock>,
                              s1: Store, t: Store)
    requires ChainValid(s) && ForkPoint(s.canonical, ancestor) && Contiguous(ancestor, branch)
    requires ReadyToSelect(s1, Prefix(s.canonical, ancestor), StartAfter(ancestor), branch)
    requires Submap(s.blocks, s1.blocks)
    requires t.blocks == s1.blocks && t.witnesses == s1.witnesses
    requires t.chainState == Publication(s.chainState, ancestor, branch)
    requires Published(t.canonical, Prefix(s.canonical, ancestor), StartAfter(ancestor), branch)
    ensures ChainValid(t)
  {
    var base := Prefix(s.canonical, ancestor);
    assert ReadyToSelect(t, base, StartAfter(ancestor), branch) by {
      assert forall h :: h in base ==> Stored(s1, base[h], h);
      assert forall i :: 0 <= i < |branch| ==> Holds(s1, branch[i]);
    }
    PublishedIsStored(t, base, StartAfter(ancestor), branch);
    forall h | h in t.canonical
      ensures LinkedAt(t, h)
    {
      assert SelectedAt(t, h);
      PublishedIsLinked(s, ancestor, branch, t, h);
    }
    PublishedTip(s, ancestor, branch, t);
  }

  lemma PublishedTip(s: Store, ancestor: Option<(nat, Hash)>, branch: seq<IndexedBlock>, t: Store)
    requires ChainValid(s) && ForkPoint(s.canonical, ancestor)
    requires Published(t.canonical, Prefix(s.canonical, ancestor), StartAfter(ancestor), branch)
    requires t.chainState == Publication(s.chainState, ancestor, branch)
    requires branch != [] ==>
               branch[|branch| - 1].block.height == StartAfter(ancestor) + |branch| - 1
    ensures TipRecorded(t)
  {
    var start := StartAfter(ancestor);
    if ancestor.Some? {
      assert SelectedAt(s, ancestor.value.0);
      assert forall h: nat :: h in Prefix(s.canonical, ancestor) <==> h < start;
    } else {
      assert Prefix(s.canonical, ancestor) == map[];
    }
    if branch != [] {
      assert t.canonical[start + |branch| - 1] == branch[|branch| - 1].Key();
    }
  }

  // ---- what a hash determines ----

  /** Two valid states that agree on the stored parent of every block they both
      hold, such as two states of one run. */
  ghost predicate SameFactsOnShared(s: Store, t: Store) {
    forall hash :: hash in s.blocks && hash in t.blocks ==>
      && s.blocks[hash].height == t.blocks[hash].height
      && s.blocks[hash].previous == t.blocks[hash].previous
  }

  lemma GrowthShares(s: Store, t: Store)
    requires Grows(s, t)
    ensures SameFactsOnShared(s, t)
  {
  }

  /** One shared selected hash fixes the whole chain below it: the heights agree
      and so does every lower selection. */
  lemma {:induction false} HashDeterminesPrefix(s: Store, t: Store, h: nat, k: nat)
    requires ChainValid(s) && ChainValid(t) && SameFactsOnShared(s, t)
    requires h in s.canonical && k in t.canonical && s.canonical[h].block == t.canonical[k].block
    ensures h == k
    ensures forall i: nat :: i <= h ==>
              i in s.canonical && i in t.canonical && s.canonical[i].block == t.canonical[i].block
    decreases h
  {
    assert SelectedAt(s, h) && SelectedAt(t, k);
    if h > 0 {
      assert LinkedAt(s, h) && LinkedAt(t, k);
      HashDeterminesPrefix(s, t, h - 1, h - 1);
    }
  }

  /** The same tip hash means the same chain, height for height. */
  lemma TipDeterminesChain(s: Store, t: Store)
    requires ChainValid(s) && ChainValid(t) && SameFactsOnShared(s, t)
    requires s.chainState.indexedHash.Some? && s.chainState.indexedHash == t.chainState.indexedHash
    ensures s.canonical.Keys == t.canonical.Keys
    ensures forall h :: h in s.canonical ==> s.canonical[h].block == t.canonical[h].block
  {
    HashDeterminesPrefix(s, t, s.chainState.indexedHeight.value, t.chainState.indexedHeight.value);
  }

  /** An ancestor found in an earlier state of the run is still selected in any
      later state whose tip passes the lock comparison of the publication. */
  lemma LockedTipKeepsForkPoint(found: Store, now: Store, tip: ChainTip, ancestor: Option<(nat, Hash)>)
    requires ChainValid(found) && ChainValid(now) && Grows(found, now)
    requires TipLocked(found.chainState, tip) && ForkPoint(found.canonical, ancestor)
    requires TipLocked(now.chainState, tip)
    ensures ForkPoint(now.canonical, ancestor)
  {
    GrowthShares(found, now);
    TipDeterminesChain(found, now);
  }

  // ---- selectors that stay ----

  // Every selector is still there.
  ghost predicate KeepsSelection(s: Store, t: Store) {
    forall h :: h in s.canonical ==> h in t.canonical && t.canonical[h] == s.canonical[h]
  }

  // ---- walking stored parents ----

  ghost function WalkBack(blocks: map<Hash, BlockRow>, hash: Hash, steps: nat): Option<Hash>
    decreases steps
  {
    if steps == 0 then Some(hash)
    else if hash in blocks && blocks[hash].previous.Some? then
      WalkBack(blocks, blocks[hash].previous.value, steps - 1)
    else None
  }

  lemma {:induction false} WalkBackStays(a: map<Hash, BlockRow>, b: map<Hash, BlockRow>, hash: Hash,
                                         steps: nat)
    requires Submap(a, b) && WalkBack(a, hash, steps).Some?
    ensures WalkBack(b, hash, steps) == WalkBack(a, hash, steps)
    decreases steps
  {
    if steps > 0 {
      WalkBackStays(a, b, a[hash].previous.value, steps - 1);
    }
  }

  lemma {:induction false} WalkBackSelected(s: Store, h: nat, steps: nat)
    requires ChainValid(s) && h in s.canonical && steps <= h
    ensures h - steps in s.canonical
    ensures WalkBack(s.blocks, s.canonical[h].block, steps) == Some(s.canonical[h - steps].block)
    decreases steps
  {
    assert SelectedAt(s, h);
    if steps > 0 {
      assert LinkedAt(s, h);
      assert WalkBack(s.blocks, s.canonical[h].block, steps)
          == WalkBack(s.blocks, s.canonical[h - 1].block, steps - 1);
      WalkBackSelected(s, h - 1, steps - 1);
    }
  }
}
