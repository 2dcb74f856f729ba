/**
 * Replaying a confirmation. The source calls every persistence step idempotent and a replay harmless; the verifier
 * runs again before them, so what matters is when it accepts the second time.
 */
module SupplyReplay {
  import opened Prelude
  import opened SupplyTree
  import opened SupplyRoot
  import opened SupplyHeadroom
  import opened SupplyStores
  import opened SupplyPipeline
  import opened SupplyInvariant
  import opened SupplySafety

  /** The stored predecessor of an anchor that extends the chain carries the root the chain ends with. */
  lemma PredecessorRoot(h: Hasher, s: History, a: SupplyAnchor)
    requires Inv(h, s) && OnTop(s.g, a) && s.g.commits != []
    ensures a.commitment.spent.Some?
    ensures var prev := Find(s.g.commits, a.commitment.spent.value);
      prev.Some? && prev.value.rootHash == s.g.commits[|s.g.commits| - 1].rootHash
  {
    var cs := s.g.commits;
    var p := cs[|cs| - 1].point;
    assert Known(cs, p);
    FindKnown(cs, p);
    var i :| 0 <= i < |cs| && cs[i] == Find(cs, p).value && cs[i].point == p;
    ChainSamePoint(h, cs, Committed(s), i);
  }

  /**
   * A commitment this node authored passes its own root checks when it first confirms, so the pre-commitments alone
   * decide whether it is accepted.
   */
  lemma FirstVerificationAccepts(h: Hasher, s: History, a: SupplyAnchor, block: nat)
    requires Inv(h, s) && s.g.watch == [a] && Fresh(h, s, a)
    ensures RootsAccept(h, s.g, a)
    ensures Accepts(h, s.g, a, block) <==> RowsAccept(s.g.preCommits, a, block)
  {
    RootAfterIs(h, s.g.supply, a.events);
    ChainLast(h, s.g.commits, s.batches);
    if s.g.commits != [] {
      PredecessorRoot(h, s, a);
    }
  }

  /**
   * After a failure between writing the trees and storing the commitment, the replay is verified against trees that
   * already contain the batch. Besides the pre-commitments, it is accepted exactly when it is the first commitment of
   * the group, or the batch left the root as it was and still fits.
   */
  lemma ReplayAcceptedIff(h: Hasher, s: History, a: SupplyAnchor, block: nat)
    requires Inv(h, s) && s.g.watch == [a] && HalfDone(h, s, a)
    ensures Accepts(h, s.g, a, block) <==>
      && RowsAccept(s.g.preCommits, a, block)
      && (|| s.g.commits == []
          || (a.commitment.rootHash == s.g.commits[|s.g.commits| - 1].rootHash
              && MemoryApply(h, s.g.supply, a.events).ok))
  {
    var front := s.batches[..|s.batches| - 1];
    ChainLast(h, s.g.commits, front);
    RootAfterIs(h, s.g.supply, a.events);
    RootAfterIs(h, EMPTY_SUPPLY, a.events);
    ReplayLast(h, s.batches);
    if s.g.commits != [] {
      PredecessorRoot(h, s, a);
    }
  }

  /** A finish that stopped at the trees, for a follow-up commitment that changes the root. */
  ghost predicate Stuck(h: Hasher, s: History) {
    && Inv(h, s) && |s.g.watch| == 1 && HalfDone(h, s, s.g.watch[0])
    && s.g.commits != []
    && s.g.watch[0].commitment.rootHash != s.g.commits[|s.g.commits| - 1].rootHash
  }

  /** A first confirmation whose commitment row fails to be written stops at the trees. */
  lemma FailedWrite(h: Hasher, s: History, a: SupplyAnchor, block: nat, marks: nat)
    requires Inv(h, s) && s.g.watch == [a] && Fresh(h, s, a) && RowsAccept(s.g.preCommits, a, block)
    ensures var s' := NextHistory(h, s, Finish(0, true, block, 1, marks));
      Inv(h, s') && HalfDone(h, s', a) && s'.g.watch == [a] && s'.g.commits == s.g.commits
  {
    var step := Finish(0, true, block, 1, marks);
    FirstVerificationAccepts(h, s, a, block);
    StepKeeps(h, s, step);
    FinishFields(h, s, step);
    FreshFinish(h, s, a, block, 1, NextHistory(h, s, step));
    assert s.g.commits + [] == s.g.commits;
  }

  /** One failed write is enough: the state is reached from any follow-up commitment that changes the root. */
  lemma FailedWriteSticks(h: Hasher, s: History, a: SupplyAnchor, block: nat, marks: nat)
    requires Inv(h, s) && s.g.watch == [a] && Fresh(h, s, a) && s.g.commits != []
    requires a.commitment.rootHash != s.g.commits[|s.g.commits| - 1].rootHash
    requires RowsAccept(s.g.preCommits, a, block)
    ensures Stuck(h, NextHistory(h, s, Finish(0, true, block, 1, marks)))
  {
    FailedWrite(h, s, a, block, marks);
  }

  lemma StuckStep(h: Hasher, s: History, step: Step)
    requires Stuck(h, s) && Enabled(s.g, step)
    ensures var s' := NextHistory(h, s, step);
      Stuck(h, s') && s'.g.commits == s.g.commits && s'.g.supply == s.g.supply && s'.g.watch == s.g.watch
  {
    StepKeeps(h, s, step);
    var a := s.g.watch[0];
    assert s.g.watch == [a];
    match step
    case Finish(_, _, block, _, _) => ReplayAcceptedIff(h, s, a, block);
    case Restart => RestartKeeps(h, s);
    case _ =>
  }

  ghost predicate RunFrom(h: Hasher, s: History, steps: seq<Step>)
    decreases |steps|
  {
    steps == [] || (Enabled(s.g, steps[0]) && RunFrom(h, NextHistory(h, s, steps[0]), steps[1..]))
  }

  ghost function AfterFrom(h: Hasher, s: History, steps: seq<Step>): History
    requires RunFrom(h, s, steps)
    decreases |steps|
  {
    if steps == [] then s else AfterFrom(h, NextHistory(h, s, steps[0]), steps[1..])
  }

  /**
   * From there no run leads out: whatever is staged, confirmed, retried or restarted, the anchor stays in flight and
   * no commitment of the group is ever stored again.
   */
  lemma {:induction false} StuckForever(h: Hasher, s: History, steps: seq<Step>)
    requires Stuck(h, s) && RunFrom(h, s, steps)
    ensures var s' := AfterFrom(h, s, steps);
      Stuck(h, s') && s'.g.commits == s.g.commits && s'.g.supply == s.g.supply && s'.g.watch == s.g.watch
    decreases |steps|
  {
    if steps != [] {
      StuckStep(h, s, steps[0]);
      StuckForever(h, NextHistory(h, s, steps[0]), steps[1..]);
    }
  }

  // ----- the situation arises: a mint is committed, then a burn whose commitment row fails to be written -----

  const MINT_EVENT := SupplyEvent(Mint, TreeKey(1), Leaf(7, 5))
  const BURN_EVENT := SupplyEvent(Burn, TreeKey(2), Leaf(8, 3))

  /** Hashes that tell a root with a burn sub-tree from one without. */
  function WitnessHasher(): Hasher {
    Hasher((t: Tree) => 0, (r: RootTree) => if Burn in r then 1 else 0)
  }

  lemma CommitMint()
    ensures var h := WitnessHasher();
      var o := MemoryApply(h, EMPTY_SUPPLY, [MINT_EVENT]);
      && o.ok && o.supply.subs == SubTrees(map[TreeKey(1) := Leaf(7, 5)], map[], map[])
      && o.supply.root == map[Mint := Leaf(0, 5)]
  {
    var h := WitnessHasher();
    var es, subs := [MINT_EVENT], SubTrees(map[TreeKey(1) := Leaf(7, 5)], map[], map[]);
    assert es[..0] == [];
    assert Apply(EMPTY_SUBS, es) == Some(subs);
    OneLeaf(TreeKey(1), Leaf(7, 5));
    UpsertAll(h, map[], subs);
  }

  lemma CommitBurn()
    ensures var h := WitnessHasher();
      var o := MemoryApply(h, MemoryApply(h, EMPTY_SUPPLY, [MINT_EVENT]).supply, [BURN_EVENT]);
      && o.ok && o.supply.subs == SubTrees(map[TreeKey(1) := Leaf(7, 5)], map[TreeKey(2) := Leaf(8, 3)], map[])
      && o.supply.root == map[Mint := Leaf(0, 5), Burn := Leaf(0, 3)]
  {
    var h := WitnessHasher();
    CommitMint();
    var s := MemoryApply(h, EMPTY_SUPPLY, [MINT_EVENT]).supply;
    var mint, burn := map[TreeKey(1) := Leaf(7, 5)], map[TreeKey(2) := Leaf(8, 3)];
    var es, subs := [BURN_EVENT], SubTrees(mint, burn, map[]);
    assert es[..0] == [];
    assert Apply(s.subs, es) == Some(subs);
    OneLeaf(TreeKey(1), Leaf(7, 5));
    OneLeaf(TreeKey(2), Leaf(8, 3));
    OneLeaf(Mint, Leaf(0, 5));
    UpsertAll(h, s.root, subs);
    var r := UpsertOne(h, RootOutcome(true, s.root), mint, Mint);
    assert r == RootOutcome(true, s.root) by {
      assert s.root[Mint := Leaf(0, 5)] == s.root;
    }
    assert UpsertOne(h, r, burn, Burn) == RootOutcome(true, s.root[Burn := Leaf(0, 3)]);
  }

  lemma {:induction false} RunFromSnoc(h: Hasher, s: History, steps: seq<Step>, step: Step)
    requires RunFrom(h, s, steps) && Enabled(AfterFrom(h, s, steps).g, step)
    ensures RunFrom(h, s, steps + [step])
    ensures AfterFrom(h, s, steps + [step]) == NextHistory(h, AfterFrom(h, s, steps), step)
    decreases |steps|
  {
    if steps == [] {
      assert steps + [step] == [step] && [step][1..] == [];
    } else {
      assert (steps + [step])[1..] == steps[1..] + [step];
      RunFromSnoc(h, NextHistory(h, s, steps[0]), steps[1..], step);
    }
  }

  /** A state some run from an empty node reaches. */
  ghost predicate Reachable(h: Hasher, s: History) {
    exists steps :: RunFrom(h, START, steps) && AfterFrom(h, START, steps) == s
  }

  lemma ReachableStep(h: Hasher, s: History, step: Step)
    requires Reachable(h, s) && Inv(h, s) && Enabled(s.g, step)
    ensures Reachable(h, NextHistory(h, s, step)) && Inv(h, NextHistory(h, s, step))
  {
    var steps :| RunFrom(h, START, steps) && AfterFrom(h, START, steps) == s;
    RunFromSnoc(h, START, steps, step);
    StepKeeps(h, s, step);
  }

  /** Nothing is staged or in flight, and the update could be committed. */
  ghost predicate Idle(h: Hasher, s: History, e: SupplyEvent, point: Point) {
    && s.g.watch == [] && s.g.staged == [] && InputsOf(s.g) != [] && NoRepeats(InputsOf(s.g))
    && MemoryApply(h, s.g.supply, [e]).ok && Enabled(s.g, Commit(point, true))
  }

  /** From `s` the update was staged and its commitment broadcast. */
  ghost predicate Broadcast(h: Hasher, s: History, e: SupplyEvent, point: Point, t: History) {
    && t.g == s.g.(staged := [e], watch := t.g.watch, durable := t.g.durable)
    && |t.g.watch| == 1 && t.g.watch[0].events == [e] && Fresh(h, t, t.g.watch[0])
    && t.g.watch[0].commitment == Commitment(point, InputsOf(s.g), h.root(MemoryApply(h, s.g.supply, [e]).supply.root),
                                             TreeSum(MemoryApply(h, s.g.supply, [e]).supply.root),
                                             LatestPoint(s.g.commits), None)
  }

  lemma StagedFirst(h: Hasher, s: History, e: SupplyEvent)
    requires s.g.staged == []
    ensures NextHistory(h, s, Stage(e)).g == s.g.(staged := [e])
    ensures NextHistory(h, s, Stage(e)).half == s.half
  {
  }

  lemma CommittedNext(h: Hasher, s: History, e: SupplyEvent, point: Point, s1: History)
    requires Inv(h, s) && Idle(h, s, e, point) && s1.g == s.g.(staged := [e]) && s1.half == s.half
    ensures Enabled(s1.g, Commit(point, true)) && Broadcast(h, s, e, point, NextHistory(h, s1, Commit(point, true)))
  {
    var t := NextHistory(h, s1, Commit(point, true));
    assert Commits(h, s1.g, true) && t.g == CommitSupply(h, s1.g, point, true);
    assert t.g.watch == [SupplyAnchor(NewCommitment(h, s1.g, point), [e])];
  }

  /** Stages one update and broadcasts its commitment. */
  lemma StageAndCommit(h: Hasher, s: History, e: SupplyEvent, point: Point) returns (t: History)
    requires Reachable(h, s) && Inv(h, s) && Idle(h, s, e, point)
    ensures Reachable(h, t) && Inv(h, t) && Broadcast(h, s, e, point, t)
    ensures var s1 := NextHistory(h, s, Stage(e));
      Enabled(s1.g, Commit(point, true)) && t == NextHistory(h, s1, Commit(point, true))
  {
    ReachableStep(h, s, Stage(e));
    var s1 := NextHistory(h, s, Stage(e));
    StagedFirst(h, s, e);
    CommittedNext(h, s, e, point, s1);
    ReachableStep(h, s1, Commit(point, true));
    t := NextHistory(h, s1, Commit(point, true));
  }

  const MINT_ROW := PreCommit(Point(1, 0), 1, None)

  /** The group once the pre-commitment of the mint is stored. */
  lemma RowStored() returns (s: History)
    ensures var h := WitnessHasher();
      && Reachable(h, s) && Inv(h, s) && s.g == EMPTY_GROUP.(preCommits := [MINT_ROW])
      && InputsOf(s.g) == [Point(1, 0)] && s == NextHistory(h, START, AddPreCommit(Point(1, 0), 1))
  {
    var h, step := WitnessHasher(), AddPreCommit(Point(1, 0), 1);
    assert RunFrom(h, START, []) && AfterFrom(h, START, []) == START;
    ReachableStep(h, START, step);
    s := NextHistory(h, START, step);
    assert s.g.preCommits == [] + [MINT_ROW] == [MINT_ROW];
    OneRow(MINT_ROW, 1);
  }

  lemma MintReady(h: Hasher, s: History)
    requires s.g == EMPTY_GROUP.(preCommits := [MINT_ROW]) && InputsOf(s.g) == [Point(1, 0)]
    requires MemoryApply(h, EMPTY_SUPPLY, [MINT_EVENT]).ok
    ensures Idle(h, s, MINT_EVENT, Point(2, 0))
  {
  }

  /** The mint is committed and its commitment in flight. */
  lemma MintInFlight() returns (s: History)
    ensures var h := WitnessHasher();
      && Reachable(h, s) && Inv(h, s) && |s.g.watch| == 1 && Fresh(h, s, s.g.watch[0])
      && s.g.commits == [] && s.g.supply == EMPTY_SUPPLY && s.g.staged == [MINT_EVENT] && s.g.preCommits == [MINT_ROW]
      && s.g.watch[0].events == [MINT_EVENT] && s.g.watch[0].commitment.point == Point(2, 0)
      && s.g.watch[0].commitment.inputs == [Point(1, 0)]
      && s.g.watch[0].commitment.rootHash == h.root(MemoryApply(h, EMPTY_SUPPLY, [MINT_EVENT]).supply.root)
      && RowsAccept(s.g.preCommits, s.g.watch[0], 1)
      && MarkFirst(s.g.preCommits, s.g.watch[0].commitment, 1) == [MINT_ROW.(spentBy := Some(Point(2, 0)))]
  {
    CommitMint();
    var s1 := RowStored();
    MintReady(WitnessHasher(), s1);
    s := StageAndCommit(WitnessHasher(), s1, MINT_EVENT, Point(2, 0));
    RowSpent(MINT_ROW, s.g.watch[0], 1);
    RowMarked(MINT_ROW, s.g.watch[0].commitment);
  }

  lemma OneRow(pc: PreCommit, block: nat)
    ensures Unspent([pc]) == if pc.spentBy.None? then [pc.point] else []
    ensures Eligible([pc], block) == if pc.spentBy.None? && pc.height <= block then [pc.point] else []
  {
    assert [pc][..0] == [];
  }

  lemma OneEvent(e: SupplyEvent)
    ensures Mints([e]) == if e.ty == Mint then 1 else 0
  {
    assert [e][..0] == [];
  }

  /** The one row is spent by the commitment. */
  lemma RowSpent(pc: PreCommit, a: SupplyAnchor, block: nat)
    requires pc.spentBy.None? && pc.height <= block && pc.point in a.commitment.inputs && |a.events| == 1
    ensures RowsAccept([pc], a, block)
  {
    OneRow(pc, block);
    OneEvent(a.events[0]);
    assert a.events == [a.events[0]];
    assert Matched(a.commitment.inputs, [pc.point]) == {pc.point};
  }

  lemma RowMarked(pc: PreCommit, c: Commitment)
    requires pc.spentBy.None? && pc.point in c.inputs
    ensures MarkFirst([pc], c, 1) == [pc.(spentBy := Some(c.point))]
  {
    var ps := [pc.point];
    assert [pc][..0] == [] && ToMark([pc][..0], c) == [];
    assert ToMark([pc], c) == ps;
    assert ps[..0] == [];
    assert MarkEach([pc], ps[..0], c.point) == [pc];
    assert MarkEach([pc], ps, c.point) == MarkPoint([pc], pc.point, c.point);
    assert [pc][1..] == [];
  }

  /** A spent row asks nothing of a burn. */
  lemma RowDone(pc: PreCommit, a: SupplyAnchor, block: nat)
    requires pc.spentBy.Some? && a.commitment.spent.Some? && a.events == [BURN_EVENT]
    ensures RowsAccept([pc], a, block)
  {
    OneRow(pc, block);
    OneEvent(BURN_EVENT);
    assert Matched(a.commitment.inputs, []) == {};
  }

  /** After the mint is committed, confirmed and cleaned up. */
  lemma MintConfirmed() returns (s: History)
    ensures var h := WitnessHasher();
      && Reachable(h, s) && Inv(h, s) && s.g.watch == [] && s.g.staged == [] && |s.g.commits| == 1
      && s.g.commits[0].point == Point(2, 0) && s.g.commits[0].rootHash == 0
      && s.g.commits[0].inputs == [Point(1, 0)]
      && s.g.supply == MemoryApply(h, EMPTY_SUPPLY, [MINT_EVENT]).supply
      && s.g.preCommits == [MINT_ROW.(spentBy := Some(Point(2, 0)))]
  {
    CommitMint();
    var s1 := MintInFlight();
    s := Confirm(WitnessHasher(), s1);
  }

  /** The group after the mint is finished, ready for a burn. */
  ghost predicate MintDone(h: Hasher, s: History) {
    && Inv(h, s) && s.g.watch == [] && s.g.staged == [] && |s.g.commits| == 1 && s.g.commits[0].point == Point(2, 0)
    && s.g.preCommits == [MINT_ROW.(spentBy := Some(Point(2, 0)))] && MemoryApply(h, s.g.supply, [BURN_EVENT]).ok
  }

  lemma BurnReady(h: Hasher, s: History)
    requires MintDone(h, s)
    ensures Idle(h, s, BURN_EVENT, Point(3, 0)) && InputsOf(s.g) == [Point(2, 0)]
  {
    OneRow(s.g.preCommits[0], 1);
  }

  lemma UnstagedSelf(es: seq<SupplyEvent>)
    requires |es| == 1
    ensures Unstaged(es, es) == []
  {
    assert es[0] in es && (es[0].ty, es[0].key) in Places(es);
    assert es[..0] == [] && Unstaged(es[..0], es) == [];
  }

  lemma MarkedByFinish(h: Hasher, g: Group, step: Step)
    requires Enabled(g, step) && Writes(h, g, step) && step.stop == 5
    ensures Next(h, g, step).preCommits == MarkFirst(g.preCommits, g.watch[step.i].commitment, |g.preCommits|)
  {
  }

  /** Confirms the anchor in flight without a failure. */
  lemma Confirm(h: Hasher, s: History) returns (t: History)
    requires Reachable(h, s) && Inv(h, s) && |s.g.watch| == 1 && Fresh(h, s, s.g.watch[0])
    requires s.g.staged == s.g.watch[0].events && |s.g.staged| == 1 && RowsAccept(s.g.preCommits, s.g.watch[0], 1)
    ensures Reachable(h, t) && Inv(h, t) && t.g.watch == [] && t.g.staged == []
    ensures t.g.commits == s.g.commits + [s.g.watch[0].commitment.(block := Some(1))]
    ensures t.g.supply == MemoryApply(h, s.g.supply, s.g.watch[0].events).supply
    ensures t.g.preCommits == MarkFirst(s.g.preCommits, s.g.watch[0].commitment, |s.g.preCommits|)
    ensures Writes(h, s.g, Finish(0, true, 1, 5, 0)) && t == NextHistory(h, s, Finish(0, true, 1, 5, 0))
  {
    var a := s.g.watch[0];
    var step := Finish(0, true, 1, 5, 0);
    assert s.g.watch == [a];
    FirstVerificationAccepts(h, s, a, 1);
    FinishFields(h, s, step);
    ReachableStep(h, s, step);
    t := NextHistory(h, s, step);
    UnstagedSelf(a.events);
    MarkedByFinish(h, s.g, step);
  }

  /** A follow-up burn whose commitment row fails to be written while confirming. */
  lemma BurnSticks(h: Hasher, s1: History) returns (s: History)
    requires Reachable(h, s1) && MintDone(h, s1)
    requires h.root(MemoryApply(h, s1.g.supply, [BURN_EVENT]).supply.root) != s1.g.commits[0].rootHash
    ensures Reachable(h, s) && Stuck(h, s)
  {
    BurnReady(h, s1);
    var s2 := StageAndCommit(h, s1, BURN_EVENT, Point(3, 0));
    var a := s2.g.watch[0];
    assert s2.g.watch == [a];
    RowDone(s2.g.preCommits[0], a, 2);
    FailedWriteSticks(h, s2, a, 2, 0);
    ReachableStep(h, s2, Finish(0, true, 2, 1, 0));
    s := NextHistory(h, s2, Finish(0, true, 2, 1, 0));
  }

  /** The stuck state is reachable: mint, commit, confirm; burn, commit, and one failed write while confirming. */
  lemma StuckIsReachable() returns (s: History)
    ensures Reachable(WitnessHasher(), s) && Stuck(WitnessHasher(), s)
  {
    var s1 := MintConfirmed();
    CommitBurn();
    s := BurnSticks(WitnessHasher(), s1);
  }
}
