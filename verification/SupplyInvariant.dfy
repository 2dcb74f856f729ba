/** What every reachable state of the supply pipeline satisfies. */
module SupplyInvariant {
  import opened Prelude
  import opened SupplyTree
  import opened SupplyRoot
  import opened SupplyPipeline

  /**
   * A group with its history: the batches applied to the trees so far, whether the last one still lacks its
   * commitment, and every place an update was ever staged for.
   */
  datatype History = History(
    g: Group, batches: seq<seq<SupplyEvent>>, half: bool, ever: set<(SubTree, TreeKey)>)

  const START := History(EMPTY_GROUP, [], false, {})

  /** The step reaches the point where the trees have been written. */
  ghost predicate Writes(h: Hasher, g: Group, step: Step) {
    && step.Finish? && step.i < |g.watch| && step.leavesAccepted && Accepts(h, g, g.watch[step.i], step.block)
    && step.stop != 0 && MemoryApply(h, g.supply, g.watch[step.i].events).ok
  }

  ghost function NextHistory(h: Hasher, s: History, step: Step): History
    requires Enabled(s.g, step)
  {
    var g' := Next(h, s.g, step);
    if Writes(h, s.g, step) then
      var a := s.g.watch[step.i];
      var known := Known(s.g.commits, a.commitment.point);
      History(g', if s.half || known then s.batches else s.batches + [a.events], step.stop == 1 && !known, s.ever)
    else if step.Stage? then s.(g := g', ever := s.ever + {(step.e.ty, step.e.key)})
    else s.(g := g')
  }

  ghost predicate Run(h: Hasher, steps: seq<Step>)
    decreases |steps|, 0
  {
    steps == [] || (Run(h, steps[..|steps| - 1]) && Enabled(After(h, steps[..|steps| - 1]).g, steps[|steps| - 1]))
  }

  ghost function After(h: Hasher, steps: seq<Step>): History
    requires Run(h, steps)
    decreases |steps|, 1
  {
    if steps == [] then START else NextHistory(h, After(h, steps[..|steps| - 1]), steps[|steps| - 1])
  }

  // ----- the trees are the fold of the applied batches -----

  ghost function Fold(h: Hasher, bs: seq<seq<SupplyEvent>>): Supply {
    if bs == [] then EMPTY_SUPPLY else MemoryApply(h, Fold(h, bs[..|bs| - 1]), bs[|bs| - 1]).supply
  }

  ghost predicate Applied(h: Hasher, bs: seq<seq<SupplyEvent>>) {
    bs == [] || (
      && Applied(h, bs[..|bs| - 1])
      && UniquePlaces(bs[|bs| - 1])
      && MemoryApply(h, Fold(h, bs[..|bs| - 1]), bs[|bs| - 1]).ok)
  }

  /** Replaying the last batch leaves the trees as they are, whether or not it succeeds. */
  lemma ReplayLast(h: Hasher, bs: seq<seq<SupplyEvent>>)
    requires Applied(h, bs) && bs != []
    ensures MemoryApply(h, Fold(h, bs), bs[|bs| - 1]).supply == Fold(h, bs)
    ensures Holds(Fold(h, bs).subs, bs[|bs| - 1])
  {
    var front, last := bs[..|bs| - 1], bs[|bs| - 1];
    ReplayOutcome(h, Fold(h, front), last);
    MemoryTracks(h, Fold(h, front), last);
    WriteHolds(Fold(h, front).subs, last);
  }

  // ----- the commitments form one chain over the batches -----

  predicate Same(c: Commitment, d: Commitment) {
    c.(block := None) == d.(block := None)
  }

  /**
   * Each commitment either repeats the one before it (a replay), or commits to one more batch: it names its
   * predecessor as spent, is new, and carries the root of the trees after that batch.
   */
  ghost predicate Chain(h: Hasher, cs: seq<Commitment>, bs: seq<seq<SupplyEvent>>)
    decreases |cs|
  {
    if cs == [] then bs == []
    else
      var front, c := cs[..|cs| - 1], cs[|cs| - 1];
      || (front != [] && Same(c, front[|front| - 1]) && Chain(h, front, bs))
      || (bs != [] && Chain(h, front, bs[..|bs| - 1]) && CommitsTo(h, front, c, bs))
  }

  ghost predicate CommitsTo(h: Hasher, front: seq<Commitment>, c: Commitment, bs: seq<seq<SupplyEvent>>) {
    && c.spent == LatestPoint(front)
    && !Known(front, c.point)
    && c.rootHash == h.root(Fold(h, bs).root)
    && c.rootSum == TreeSum(Fold(h, bs).root)
  }

  /** The last commitment carries the root of the trees the chain is about. */
  lemma {:induction false} ChainLast(h: Hasher, cs: seq<Commitment>, bs: seq<seq<SupplyEvent>>)
    requires Chain(h, cs, bs)
    ensures cs == [] <==> bs == []
    ensures cs != [] ==>
      cs[|cs| - 1].rootHash == h.root(Fold(h, bs).root) && cs[|cs| - 1].rootSum == TreeSum(Fold(h, bs).root)
    decreases |cs|
  {
    if cs != [] {
      var front, c := cs[..|cs| - 1], cs[|cs| - 1];
      if front != [] && Same(c, front[|front| - 1]) && Chain(h, front, bs) {
        ChainLast(h, front, bs);
      }
    }
  }

  /** Stored commitments with the same commit point are replays of one another. */
  lemma {:induction false} ChainSamePoint(h: Hasher, cs: seq<Commitment>, bs: seq<seq<SupplyEvent>>, i: nat)
    requires Chain(h, cs, bs) && i < |cs| && cs[i].point == cs[|cs| - 1].point
    ensures Same(cs[i], cs[|cs| - 1])
    decreases |cs|
  {
    var front, c := cs[..|cs| - 1], cs[|cs| - 1];
    if i < |front| {
      assert cs[i] == front[i];
      if front != [] && Same(c, front[|front| - 1]) && Chain(h, front, bs) {
        ChainSamePoint(h, front, bs, i);
      } else {
        assert Known(front, c.point);
      }
    }
  }

  /** Every commitment spends a stored one or none, and no stored commitment spends the latest. */
  lemma {:induction false} LatestUnspent(h: Hasher, cs: seq<Commitment>, bs: seq<seq<SupplyEvent>>, c: Commitment)
    requires Chain(h, cs, bs) && c in cs
    ensures c.spent != LatestPoint(cs)
    ensures c.spent.Some? ==> Known(cs, c.spent.value)
    decreases |cs|
  {
    var front, last := cs[..|cs| - 1], cs[|cs| - 1];
    assert cs == front + [last];
    if front != [] && Same(last, front[|front| - 1]) && Chain(h, front, bs) {
      LatestUnspent(h, front, bs, if c in front then c else front[|front| - 1]);
      KnownStays(front, last, c.spent);
    } else if c in front {
      LatestUnspent(h, front, bs[..|bs| - 1], c);
      KnownStays(front, last, c.spent);
    } else if front != [] {
      assert cs[|front| - 1].point == front[|front| - 1].point;
      assert Known(front, front[|front| - 1].point);
    }
  }

  lemma KnownStays(front: seq<Commitment>, last: Commitment, p: Option<Point>)
    ensures p.Some? && Known(front, p.value) ==> Known(front + [last], p.value)
  {
    if p.Some? && Known(front, p.value) {
      var i :| 0 <= i < |front| && front[i].point == p.value;
      assert (front + [last])[i].point == p.value;
    }
  }

  /** The chain, place by place. */
  lemma {:induction false} ChainLinks(h: Hasher, cs: seq<Commitment>, bs: seq<seq<SupplyEvent>>)
    requires Chain(h, cs, bs)
    ensures cs != [] ==> cs[0].spent == None
    ensures forall i :: 1 <= i < |cs| ==> Same(cs[i], cs[i - 1]) || cs[i].spent == Some(cs[i - 1].point)
    decreases |cs|
  {
    if cs != [] {
      var front, c := cs[..|cs| - 1], cs[|cs| - 1];
      assert forall i :: 0 <= i < |front| ==> front[i] == cs[i];
      if front != [] && Same(c, front[|front| - 1]) && Chain(h, front, bs) {
        ChainLinks(h, front, bs);
      } else {
        ChainLinks(h, front, bs[..|bs| - 1]);
      }
    }
  }

  // ----- where the anchor in flight stands -----

  /** Broadcast, nothing persisted: applying it now gives the root it commits to. */
  ghost predicate Fresh(h: Hasher, s: History, a: SupplyAnchor) {
    && !s.half && OnTop(s.g, a)
    && MemoryApply(h, s.g.supply, a.events).ok
    && a.commitment.rootHash == h.root(MemoryApply(h, s.g.supply, a.events).supply.root)
    && a.commitment.rootSum == TreeSum(MemoryApply(h, s.g.supply, a.events).supply.root)
  }

  /** Trees written, commitment not yet. */
  ghost predicate HalfDone(h: Hasher, s: History, a: SupplyAnchor) {
    && s.half && OnTop(s.g, a)
    && s.batches != [] && s.batches[|s.batches| - 1] == a.events
    && a.commitment.rootHash == h.root(s.g.supply.root)
    && a.commitment.rootSum == TreeSum(s.g.supply.root)
  }

  /** Trees and commitment written; only clean-up can remain. */
  ghost predicate Recorded(s: History, a: SupplyAnchor) {
    && !s.half
    && s.batches != [] && s.batches[|s.batches| - 1] == a.events
    && s.g.commits != [] && Same(s.g.commits[|s.g.commits| - 1], a.commitment)
  }

  /** The anchor extends the stored chain: it is new, and it spends the latest commitment. */
  ghost predicate OnTop(g: Group, a: SupplyAnchor) {
    && !Known(g.commits, a.commitment.point)
    && a.commitment.spent == LatestPoint(g.commits)
    && (a.commitment.spent.Some? ==> a.commitment.spent.value in a.commitment.inputs)
  }

  ghost predicate InFlight(h: Hasher, s: History, a: SupplyAnchor) {
    && UniquePlaces(a.events)
    && (Fresh(h, s, a) || HalfDone(h, s, a) || Recorded(s, a))
  }

  /** Nothing is in flight, or exactly one anchor is, and it is durable. */
  ghost predicate Watching(h: Hasher, s: History) {
    || (s.g.watch == [] && s.g.durable == map[] && !s.half)
    || (|s.g.watch| == 1
        && s.g.durable == map[s.g.watch[0].commitment.point.txid := s.g.watch[0]]
        && InFlight(h, s, s.g.watch[0]))
  }

  /** The batches that already have their commitment. */
  function Committed(s: History): seq<seq<SupplyEvent>> {
    if s.half && s.batches != [] then s.batches[..|s.batches| - 1] else s.batches
  }

  /** The place holds a leaf. */
  predicate Placed(subs: SubTrees, p: (SubTree, TreeKey)) {
    p.1 in subs.Get(p.0)
  }

  ghost predicate NothingLost(s: History) {
    && UniquePlaces(s.g.staged)
    && forall p :: p in s.ever ==> p in Places(s.g.staged) || Placed(s.g.supply.subs, p)
  }

  ghost predicate Inv(h: Hasher, s: History) {
    && Applied(h, s.batches) && s.g.supply == Fold(h, s.batches)
    && Chain(h, s.g.commits, Committed(s))
    && Watching(h, s)
    && NothingLost(s)
  }
}
