/** When the selectors of an index are a given chain, and how an append or a
    replacement gets them there. */
module Convergence {
  import opened Wrappers
  import opened Schema
  import opened StoreSemantics
  import opened CanonicalChain
  import opened StoredFacts
  import opened Universes

  function Min(a: nat, b: nat): nat {
    if a < b then a else b
  }

  // The index selects exactly `chain`.
  ghost predicate Mirrors(c: map<nat, WitnessKey>, chain: seq<Hash>) {
    (forall h: nat :: h in c <==> h < |chain|) && AgreesBelow(c, chain, |chain|)
  }

  // The search that starts at `top` meets an agreement at `k`.
  ghost predicate SearchHits(c: map<nat, WitnessKey>, top: nat, chain: seq<Hash>, depth: nat, k: nat) {
    k <= top && top - k <= depth && Agree(c, chain, k)
  }

  /** One of the heights the search examines agrees. */
  ghost predicate InReach(c: map<nat, WitnessKey>, top: nat, chain: seq<Hash>, depth: nat) {
    exists k: nat :: SearchHits(c, top, chain, depth, k)
  }

  /** Nothing is indexed, or the fork lies within the search bound. */
  ghost predicate ForkInReach(c: map<nat, WitnessKey>, chain: seq<Hash>, depth: nat)
    requires chain != []
  {
    forall height, hash :: IsTip(c, height, hash) ==>
      InReach(c, Min(height, |chain| - 1), chain, depth)
  }

  lemma ForkInReachAt(c: map<nat, WitnessKey>, tip: Option<ChainTip>, chain: seq<Hash>, depth: nat)
    requires chain != [] && TipOf(c, tip)
    ensures ForkInReach(c, chain, depth) <==>
            (tip.Some? ==> InReach(c, Min(tip.value.height, |chain| - 1), chain, depth))
  {
    if tip.Some? {
      assert IsTip(c, tip.value.height, tip.value.hash);
      assert forall height, hash :: IsTip(c, height, hash) ==> height == tip.value.height;
    }
  }

  ghost predicate TipOf(c: map<nat, WitnessKey>, tip: Option<ChainTip>) {
    if tip.None? then c == map[] else IsTip(c, tip.value.height, tip.value.hash)
  }

  lemma TipInReach(c: map<nat, WitnessKey>, height: nat, chain: seq<Hash>, depth: nat)
    requires Agree(c, chain, height)
    ensures InReach(c, Min(height, |chain| - 1), chain, depth)
  {
    assert SearchHits(c, height, chain, depth, height);
  }

  lemma MirroredTip(c: map<nat, WitnessKey>, chain: seq<Hash>, tip: Option<ChainTip>)
    requires Mirrors(c, chain) && chain != [] && TipOf(c, tip)
    ensures tip.Some? && tip.value.height == |chain| - 1 && tip.value.hash == chain[|chain| - 1]
  {
    assert Agree(c, chain, |chain| - 1);
  }

  // Two chains share a block within `depth` below the top they have in common.
  ghost predicate ChainsMeet(a: seq<Hash>, b: seq<Hash>, depth: nat)
    requires a != [] && b != []
  {
    var top := Min(|a| - 1, |b| - 1);
    exists k: nat :: k <= top && top - k <= depth && a[k] == b[k]
  }

  /** From an index that is chain `a`, chain `b` is in reach exactly when the two
      chains meet within the bound. */
  lemma MirrorMeets(c: map<nat, WitnessKey>, a: seq<Hash>, b: seq<Hash>, depth: nat)
    requires a != [] && b != [] && Mirrors(c, a)
    ensures ForkInReach(c, b, depth) <==> ChainsMeet(a, b, depth)
  {
    var top := Min(|a| - 1, |b| - 1);
    var tip := Some(ChainTip(|a| - 1, a[|a| - 1], ZERO_HASH));
    assert Agree(c, a, |a| - 1);
    ForkInReachAt(c, tip, b, depth);
    forall k: nat | k <= top
      ensures Agree(c, b, k) <==> a[k] == b[k]
    {
      assert Agree(c, a, k);
    }
    if ChainsMeet(a, b, depth) {
      var k: nat :| k <= top && top - k <= depth && a[k] == b[k];
      assert SearchHits(c, top, b, depth, k);
    }
  }

  // Heights below `next` are selected, the last of them being `previous`.
  ghost predicate AppendPoint(c: map<nat, WitnessKey>, next: nat, previous: Option<Hash>) {
    if next == 0 then c == map[]
    else previous.Some? && IsTip(c, next - 1, previous.value)
  }

  ghost predicate AgreesBelow(c: map<nat, WitnessKey>, chain: seq<Hash>, next: nat) {
    next <= |chain| && forall h: nat :: h < next ==> Agree(c, chain, h)
  }

  lemma AgreesOneMore(c: map<nat, WitnessKey>, chain: seq<Hash>, height: nat, k: WitnessKey)
    requires height < |chain| && AgreesBelow(c, chain, height) && k.block == chain[height]
    ensures AgreesBelow(c[height := k], chain, height + 1)
  {
    var after := c[height := k];
    forall h: nat | h < height + 1
      ensures Agree(after, chain, h)
    {
      assert h < height ==> Agree(c, chain, h);
    }
  }

  lemma {:induction false} ReplacementRecords(s: Store, tip: ChainTip, ancestor: (nat, Hash),
                                              branch: seq<IndexedBlock>, t: Store)
    requires ReplaceBranch(s, tip, Some(ancestor), branch) == Some(t)
    ensures t.chainState == Publication(s.chainState, Some(ancestor), branch)
    ensures t.reorgEvents == s.reorgEvents + [EventOf(tip, Some(ancestor))]
  {
    InsertBlocksGrows(s, branch, InsertBlocks(s, branch).value);
  }

  lemma BranchHeight(s: Store, ancestor: (nat, Hash), branch: seq<IndexedBlock>, s1: Store)
    requires branch != [] && ancestor.0 <= I64_MAX
    requires Contiguous(Some(ancestor), branch) && InsertBlocks(s, branch) == Some(s1)
    ensures branch[|branch| - 1].block.height == ancestor.0 + |branch|
  {
    forall i | 0 <= i < |branch|
      ensures branch[i].block.height <= I64_MAX
    {
      InsertBlocksHolds(s, branch, s1, i);
    }
    ContiguousHeights(Some(ancestor), branch, |branch| - 1);
  }

  function BranchTip(ancestor: (nat, Hash), branch: seq<IndexedBlock>): Hash {
    if branch == [] then ancestor.1 else branch[|branch| - 1].block.hash
  }

  // The tip a replacement records.
  lemma ReplacementTip(s: Store, tip: ChainTip, ancestor: (nat, Hash), branch: seq<IndexedBlock>,
                       t: Store)
    requires ChainValid(s) && ForkPoint(s.canonical, Some(ancestor))
    requires ReplaceBranch(s, tip, Some(ancestor), branch) == Some(t)
    ensures t.chainState.indexedHeight == Some(ancestor.0 + |branch|)
    ensures t.chainState.indexedHash == Some(BranchTip(ancestor, branch))
    ensures t.reorgEvents == s.reorgEvents + [EventOf(tip, Some(ancestor))]
  {
    ReplacementRecords(s, tip, ancestor, branch, t);
    assert SelectedAt(s, ancestor.0);
    if branch != [] {
      BranchHeight(s, ancestor, branch, InsertBlocks(s, branch).value);
    }
  }

  lemma AgreesThrough(s: Store, net: Universe, chain: seq<Hash>, h: nat)
    requires WellFormed(net) && ChainValid(s) && Coherent(s, net) && Linked(net, chain)
    requires Agree(s.canonical, chain, h)
    ensures AgreesBelow(s.canonical, chain, h + 1)
  {
    forall k: nat | k <= h
      ensures Agree(s.canonical, chain, k)
    {
      AgreeDownward(s, net, chain, h, k);
    }
  }

  // `branch` names the blocks of `chain` from height `start` on.
  ghost predicate IsPartOf(branch: seq<IndexedBlock>, chain: seq<Hash>, start: nat) {
    && start + |branch| <= |chain|
    && forall i :: 0 <= i < |branch| ==> branch[i].block.hash == chain[start + i]
  }

  // A branch staged on `ancestor` up to below `height`; `previous` is its tip.
  ghost predicate Staged(ancestor: (nat, Hash), branch: seq<IndexedBlock>, height: nat,
                         previous: Option<Hash>)
  {
    && height == ancestor.0 + 1 + |branch| && AllVerified(branch) && Contiguous(Some(ancestor), branch)
    && previous == Some(BranchTip(ancestor, branch))
    && (branch != [] ==> branch[|branch| - 1].block.height == height - 1)
  }

  lemma StagedStart(ancestor: (nat, Hash))
    ensures Staged(ancestor, [], ancestor.0 + 1, Some(ancestor.1))
  {
  }

  lemma StagedNext(ancestor: (nat, Hash), branch: seq<IndexedBlock>, height: nat,
                   previous: Option<Hash>, b: IndexedBlock)
    requires Staged(ancestor, branch, height, previous) && height <= U64_MAX
    requires b.block.height == height && b.block.previous == previous && Verified(b)
    ensures Staged(ancestor, branch + [b], height + 1, Some(b.block.hash))
  {
  }

  lemma PublishedMirrors(c: map<nat, WitnessKey>, ancestor: (nat, Hash),
                         branch: seq<IndexedBlock>, chain: seq<Hash>, after: map<nat, WitnessKey>)
    requires ancestor.0 < |chain| && AgreesBelow(c, chain, ancestor.0 + 1)
    requires |branch| == |chain| - 1 - ancestor.0 && IsPartOf(branch, chain, ancestor.0 + 1)
    requires Published(after, Prefix(c, Some(ancestor)), ancestor.0 + 1, branch)
    ensures Mirrors(after, chain)
  {
    forall h: nat | h < |chain|
      ensures h in after && Agree(after, chain, h)
    {
      if h <= ancestor.0 {
        assert Agree(c, chain, h) && h in Prefix(c, Some(ancestor));
      } else {
        assert after[h] == branch[h - (ancestor.0 + 1)].Key();
      }
    }
  }

  /** From a fork point the node shares, publishing the rest of its chain leaves
      exactly its chain, also when it is the shorter one. */
  lemma ReplacementMirrors(s: Store, net: Universe, tip: ChainTip, ancestor: (nat, Hash),
                           branch: seq<IndexedBlock>, chain: seq<Hash>, t: Store)
    requires WellFormed(net) && ChainValid(s) && Coherent(s, net) && Linked(net, chain)
    requires Agree(s.canonical, chain, ancestor.0) && ancestor.1 == chain[ancestor.0]
    requires |branch| == |chain| - 1 - ancestor.0 && IsPartOf(branch, chain, ancestor.0 + 1)
    requires ReplaceBranch(s, tip, Some(ancestor), branch) == Some(t)
    ensures Mirrors(t.canonical, chain)
  {
    assert StartAfter(Some(ancestor)) == ancestor.0 + 1 by {
      assert SelectedAt(s, ancestor.0);
    }
    AgreesThrough(s, net, chain, ancestor.0);
    assert Published(t.canonical, Prefix(s.canonical, Some(ancestor)), ancestor.0 + 1, branch) by {
      ReplacementExact(s, tip, Some(ancestor), branch);
    }
    PublishedMirrors(s.canonical, ancestor, branch, chain, t.canonical);
  }
}
