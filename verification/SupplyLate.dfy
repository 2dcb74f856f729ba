/**
 * A confirmation replayed late. The watcher drops an anchor whose finish returned without an error even when its
 * durable row cannot be removed, since a replay is taken to be harmless. The row is reloaded by the next restart, and
 * by then the group may have moved on. In the same way a commitment made while the watcher holds the group's anchor
 * can overtake it.
 */
module SupplyLate {
  import opened Prelude
  import opened SupplyTree
  import opened SupplyRoot
  import opened SupplyPipeline
  import opened SupplyInvariant
  import opened SupplySafety
  import opened SupplyPreCommits

  // ----- runs in which durable rows may stay behind -----

  /** The group, and the finished anchors whose durable rows have stayed. */
  datatype Leftovers = Leftovers(s: History, left: seq<SupplyAnchor>)

  datatype LateStep = Usual(step: Step) | RowStays(block: nat)

  /** A complete finish of the anchor in flight. */
  function Complete(block: nat): Step {
    Finish(0, true, block, 5, 0)
  }

  /** Up to the restart that reloads a row that stayed. */
  ghost predicate LateEnabled(l: Leftovers, step: LateStep) {
    match step
    case Usual(step) => Enabled(l.s.g, step) && (step.Restart? ==> l.left == [])
    case RowStays(block) => l.s.g.watch != []
  }

  ghost function LateNext(h: Hasher, l: Leftovers, step: LateStep): Leftovers
    requires LateEnabled(l, step)
  {
    match step
    case Usual(step) => l.(s := NextHistory(h, l.s, step))
    case RowStays(block) =>
      Leftovers(NextHistory(h, l.s, Complete(block)),
                if Writes(h, l.s.g, Complete(block)) then l.left + [l.s.g.watch[0]] else l.left)
  }

  ghost predicate LateRun(h: Hasher, steps: seq<LateStep>)
    decreases |steps|, 0
  {
    steps == [] ||
    (LateRun(h, steps[..|steps| - 1]) && LateEnabled(LateAfter(h, steps[..|steps| - 1]), steps[|steps| - 1]))
  }

  ghost function LateAfter(h: Hasher, steps: seq<LateStep>): Leftovers
    requires LateRun(h, steps)
    decreases |steps|, 1
  {
    if steps == [] then Leftovers(START, [])
    else LateNext(h, LateAfter(h, steps[..|steps| - 1]), steps[|steps| - 1])
  }

  /** The commitment of the anchor is stored. */
  ghost predicate Stored(cs: seq<Commitment>, a: SupplyAnchor) {
    exists i :: 0 <= i < |cs| && Same(cs[i], a.commitment)
  }

  ghost predicate LateInv(h: Hasher, l: Leftovers) {
    Inv(h, l.s) && forall a :: a in l.left ==> UniquePlaces(a.events) && Stored(l.s.g.commits, a)
  }

  lemma StoredStays(cs: seq<Commitment>, more: seq<Commitment>, a: SupplyAnchor)
    requires Stored(cs, a)
    ensures Stored(cs + more, a)
  {
    var i :| 0 <= i < |cs| && Same(cs[i], a.commitment);
    assert (cs + more)[i] == cs[i];
  }

  /** No step takes a stored commitment away. */
  lemma CommitsGrow(h: Hasher, s: History, step: Step, a: SupplyAnchor)
    requires Inv(h, s) && Enabled(s.g, step) && Stored(s.g.commits, a)
    ensures Stored(NextHistory(h, s, step).g.commits, a)
  {
    if Writes(h, s.g, step) {
      FinishFields(h, s, step);
      var b := s.g.watch[0];
      StoredStays(s.g.commits, if step.stop == 1 then [] else [b.commitment.(block := Some(step.block))], a);
    } else if step.Finish? {
      FinishWithoutWrites(h, s, step);
    }
  }

  /** A finished anchor is stored. */
  lemma FinishedIsStored(h: Hasher, s: History, block: nat)
    requires Inv(h, s) && Enabled(s.g, Complete(block)) && Writes(h, s.g, Complete(block))
    ensures UniquePlaces(s.g.watch[0].events)
    ensures Stored(NextHistory(h, s, Complete(block)).g.commits, s.g.watch[0])
  {
    FinishFields(h, s, Complete(block));
    var cs := NextHistory(h, s, Complete(block)).g.commits;
    assert Same(cs[|cs| - 1], s.g.watch[0].commitment);
  }

  lemma LeftStay(h: Hasher, l: Leftovers, step: Step)
    requires LateInv(h, l) && Enabled(l.s.g, step)
    ensures LateInv(h, l.(s := NextHistory(h, l.s, step)))
  {
    StepKeeps(h, l.s, step);
    forall a | a in l.left
      ensures Stored(NextHistory(h, l.s, step).g.commits, a)
    {
      CommitsGrow(h, l.s, step, a);
    }
  }

  lemma LateStepKeeps(h: Hasher, l: Leftovers, step: LateStep)
    requires LateInv(h, l) && LateEnabled(l, step)
    ensures LateInv(h, LateNext(h, l, step))
  {
    match step
    case Usual(plain) => LeftStay(h, l, plain);
    case RowStays(block) =>
      LeftStay(h, l, Complete(block));
      if Writes(h, l.s.g, Complete(block)) {
        FinishedIsStored(h, l.s, block);
        assert forall a :: a in l.left + [l.s.g.watch[0]] <==> a in l.left || a == l.s.g.watch[0];
      }
  }

  lemma {:induction false} LateRunKeeps(h: Hasher, steps: seq<LateStep>)
    requires LateRun(h, steps)
    ensures LateInv(h, LateAfter(h, steps))
    decreases |steps|
  {
    if steps != [] {
      LateRunKeeps(h, steps[..|steps| - 1]);
      LateStepKeeps(h, LateAfter(h, steps[..|steps| - 1]), steps[|steps| - 1]);
    }
  }

  // ----- the replay of a row that stayed -----

  /** The row is reloaded and its confirmation finished once more, without a failure. */
  ghost function Replayed(h: Hasher, g: Group, a: SupplyAnchor, block: nat): Group {
    Next(h, g.(watch := [a] + g.watch), Complete(block))
  }

  lemma ReplayedFields(h: Hasher, g: Group, a: SupplyAnchor, block: nat)
    requires Stored(g.commits, a) && MemoryApply(h, g.supply, a.events).ok
    ensures var g' := Replayed(h, g, a, block);
      g'.commits == g.commits + [a.commitment.(block := Some(block))]
      && g'.supply == MemoryApply(h, g.supply, a.events).supply
  {
    var i :| 0 <= i < |g.commits| && Same(g.commits[i], a.commitment);
    assert Known(g.commits, a.commitment.point);
  }

  /** A stored commitment other than the latest is spent by a stored one. */
  lemma {:induction false} Successor(h: Hasher, cs: seq<Commitment>, bs: seq<seq<SupplyEvent>>, p: Point)
    requires Chain(h, cs, bs) && Known(cs, p) && Some(p) != LatestPoint(cs)
    ensures exists i :: 0 <= i < |cs| && cs[i].spent == Some(p)
    decreases |cs|
  {
    var front, last := cs[..|cs| - 1], cs[|cs| - 1];
    var k :| 0 <= k < |cs| && cs[k].point == p;
    assert front[k].point == p && Known(front, p);
    if front != [] && Same(last, front[|front| - 1]) && Chain(h, front, bs) {
      Successor(h, front, bs, p);
      var i :| 0 <= i < |front| && front[i].spent == Some(p);
      assert cs[i] == front[i];
    } else if Some(p) != LatestPoint(front) {
      Successor(h, front, bs[..|bs| - 1], p);
      var i :| 0 <= i < |front| && front[i].spent == Some(p);
      assert cs[i] == front[i];
    } else {
      assert cs[|front|].spent == Some(p);
    }
  }

  /** The latest stored commitment is spent by a stored one. */
  ghost predicate EndIsSpent(cs: seq<Commitment>) {
    exists i :: 0 <= i < |cs| && cs[i].spent.Some? && cs[i].spent == LatestPoint(cs)
  }

  /** The commitments are a chain over some batches. */
  ghost predicate IsChain(h: Hasher, cs: seq<Commitment>) {
    exists bs :: Chain(h, cs, bs)
  }

  lemma NoChainAgain(h: Hasher, cs: seq<Commitment>, bs: seq<seq<SupplyEvent>>, c: Commitment)
    requires Known(cs, c.point) && Some(c.point) != LatestPoint(cs)
    ensures !Chain(h, cs + [c], bs)
  {
    assert (cs + [c])[..|cs|] == cs;
    assert !CommitsTo(h, cs, c, bs);
  }

  /** Storing a stored commitment again keeps the chain exactly when it is the latest. */
  lemma ChainAgainIff(h: Hasher, cs: seq<Commitment>, bs: seq<seq<SupplyEvent>>, c: Commitment)
    requires Chain(h, cs, bs) && exists i :: 0 <= i < |cs| && Same(cs[i], c)
    ensures IsChain(h, cs + [c]) <==> Some(c.point) == LatestPoint(cs)
  {
    var i :| 0 <= i < |cs| && Same(cs[i], c);
    assert cs[i].point == c.point && Known(cs, c.point);
    if Some(c.point) == LatestPoint(cs) {
      ChainSamePoint(h, cs, bs, i);
      ChainRepeats(h, cs, bs, c);
    } else {
      forall bs'
        ensures !Chain(h, cs + [c], bs')
      {
        NoChainAgain(h, cs, bs', c);
      }
    }
  }

  lemma EndSpentIff(h: Hasher, cs: seq<Commitment>, bs: seq<seq<SupplyEvent>>, c: Commitment)
    requires Chain(h, cs, bs) && exists i :: 0 <= i < |cs| && Same(cs[i], c)
    ensures EndIsSpent(cs + [c]) <==> Some(c.point) != LatestPoint(cs)
  {
    var i :| 0 <= i < |cs| && Same(cs[i], c);
    assert Known(cs, c.point);
    if Some(c.point) != LatestPoint(cs) {
      Successor(h, cs, bs, c.point);
      var k :| 0 <= k < |cs| && cs[k].spent == Some(c.point);
      assert (cs + [c])[k] == cs[k];
    } else {
      forall k | 0 <= k < |cs + [c]| && (cs + [c])[k].spent.Some?
        ensures (cs + [c])[k].spent != Some(c.point)
      {
        LatestUnspent(h, cs, bs, cs[if k < |cs| then k else i]);
      }
    }
  }

  /** Writing a batch leaves the sub-trees alone exactly when they hold it. */
  lemma RewriteIff(s: SubTrees, es: seq<SupplyEvent>)
    requires UniquePlaces(es) && Apply(s, es).Some?
    ensures Write(s, es) == s <==> Holds(s, es)
  {
    WriteHolds(s, es);
    ApplyWrites(s, es);
    if Holds(s, es) {
      ReplayIff(s, es);
    }
  }

  /**
   * Over every run, when a row that stayed is replayed: the stored commitments are still a chain exactly when its
   * commitment is still the latest; otherwise the one the next commitment is to spend has been spent. The sub-trees
   * are unchanged exactly when nothing it wrote has been overwritten since.
   */
  lemma LateReplayIff(h: Hasher, steps: seq<LateStep>, a: SupplyAnchor, block: nat)
    requires LateRun(h, steps) && a in LateAfter(h, steps).left
    requires MemoryApply(h, LateAfter(h, steps).s.g.supply, a.events).ok
    ensures var g := LateAfter(h, steps).s.g; var g' := Replayed(h, g, a, block);
      && (IsChain(h, g'.commits) <==> Some(a.commitment.point) == LatestPoint(g.commits))
      && (EndIsSpent(g'.commits) <==> Some(a.commitment.point) != LatestPoint(g.commits))
      && (g'.supply.subs == g.supply.subs <==> Holds(g.supply.subs, a.events))
  {
    LateRunKeeps(h, steps);
    var s := LateAfter(h, steps).s;
    var c := a.commitment.(block := Some(block));
    ReplayedFields(h, s.g, a, block);
    var i :| 0 <= i < |s.g.commits| && Same(s.g.commits[i], a.commitment);
    assert Same(s.g.commits[i], c);
    ChainAgainIff(h, s.g.commits, Committed(s), c);
    EndSpentIff(h, s.g.commits, Committed(s), c);
    MemoryTracks(h, s.g.supply, a.events);
    RewriteIff(s.g.supply.subs, a.events);
  }

  // ----- a commitment made while the watcher holds the anchor -----

  /** No input of the next commitment is one that the anchor in flight, or a stored commitment, spends. */
  ghost predicate NoConflict(g: Group, a: SupplyAnchor) {
    forall p :: p in InputsOf(g) ==> p !in a.commitment.inputs && forall c :: c in g.commits ==> p !in c.inputs
  }

  /** The anchor's commitment is stored and every row it spends is marked, with none stored again. */
  ghost predicate AllButCleanedUp(g: Group, a: SupplyAnchor) {
    && Known(g.commits, a.commitment.point) && !StoredAgain(g.preCommits)
    && forall p :: p in Own(a.commitment) ==> p !in Unspent(g.preCommits)
  }

  /**
   * While the watcher polls, the in-flight guard does not see the anchor it holds. Over every run, a second commitment
   * made then spends nothing that is spent already, so that the chain takes it, exactly when the first one has been
   * stored and its rows marked, and only its clean-up is outstanding.
   */
  lemma OverlapIff(h: Hasher, steps: seq<Step>, a: SupplyAnchor)
    requires Run(h, steps) && After(h, steps).g.watch == [a]
    ensures NoConflict(After(h, steps).g, a) <==> AllButCleanedUp(After(h, steps).g, a)
  {
    RunKeeps(h, steps);
    RunKeepsRows(h, steps);
    var s := After(h, steps);
    if NoConflict(s.g, a) {
      OverlapNeeds(h, s, a);
    }
    if AllButCleanedUp(s.g, a) {
      forall p | p in InputsOf(s.g)
        ensures p !in a.commitment.inputs && forall c :: c in s.g.commits ==> p !in c.inputs
      {
        OverlapSpendsNew(h, s, a, p);
      }
    }
  }

  /** As long as the first one is not stored, a second one spends the same again. */
  lemma UnstoredConflicts(h: Hasher, s: History, a: SupplyAnchor)
    requires Inv(h, s) && PreInv(s.g) && s.g.watch == [a] && !Known(s.g.commits, a.commitment.point)
    ensures !NoConflict(s.g, a)
  {
    var g, c := s.g, a.commitment;
    assert a in g.watch && Reserved(g, a);
    KnownIffRecorded(h, s, a);
    var p := c.inputs[0];
    assert p in c.inputs;
    assert p in InputsOf(g) by {
      if Own(c) != [] {
        assert Unspent(g.preCommits)[0] == p;
      } else {
        assert Some(p) == LatestPoint(g.commits);
      }
    }
  }

  lemma AgainConflicts(g: Group, a: SupplyAnchor)
    requires PreInv(g) && StoredAgain(g.preCommits)
    ensures !NoConflict(g, a)
  {
    AgainIsNamed(g);
  }

  lemma OverlapNeeds(h: Hasher, s: History, a: SupplyAnchor)
    requires Inv(h, s) && PreInv(s.g) && s.g.watch == [a] && NoConflict(s.g, a)
    ensures AllButCleanedUp(s.g, a)
  {
    if !Known(s.g.commits, a.commitment.point) {
      UnstoredConflicts(h, s, a);
    }
    if StoredAgain(s.g.preCommits) {
      AgainConflicts(s.g, a);
    }
    forall p | p in Own(a.commitment)
      ensures p !in Unspent(s.g.preCommits)
    {
      assert p in a.commitment.inputs;
    }
  }

  lemma OverlapSpendsNew(h: Hasher, s: History, a: SupplyAnchor, p: Point)
    requires Inv(h, s) && PreInv(s.g) && s.g.watch == [a] && AllButCleanedUp(s.g, a) && p in InputsOf(s.g)
    ensures p !in a.commitment.inputs && forall c :: c in s.g.commits ==> p !in c.inputs
  {
    SamePointSame(h, s, a);
    KnownIffRecorded(h, s, a);
    var cs := s.g.commits;
    assert cs[|cs| - 1] in cs && Known(cs, cs[|cs| - 1].point);
    UnspentIs(s.g.preCommits, p);
    OverlapAvoids(h, s, a, cs[|cs| - 1], p);
    forall c | c in cs
      ensures p !in c.inputs
    {
      OverlapAvoids(h, s, a, c, p);
    }
  }

  lemma OverlapAvoids(h: Hasher, s: History, a: SupplyAnchor, c: Commitment, p: Point)
    requires Inv(h, s) && PreInv(s.g) && s.g.watch == [a] && AllButCleanedUp(s.g, a)
    requires c in s.g.commits && p in InputsOf(s.g)
    ensures p !in c.inputs
  {
    LatestUnspent(h, s.g.commits, Committed(s), c);
    SamePointSame(h, s, a);
    if p in c.inputs {
      NamedIsUnspent(h, s, c, p);
      UnspentIs(s.g.preCommits, p);
      var i :| 0 <= i < |s.g.preCommits| && s.g.preCommits[i].spentBy.None? && s.g.preCommits[i].point == p;
      NoRowIsSpentCommit(h, s, i, c);
      assert Settled(s.g, c, p);
      assert !Marked(s.g.preCommits, p) by {
        forall j | 0 <= j < |s.g.preCommits| && s.g.preCommits[j].point == p
          ensures s.g.preCommits[j].spentBy.None?
        {
          assert !Again(s.g.preCommits[i], s.g.preCommits[j]);
        }
      }
      assert c.inputs == a.commitment.inputs && c.spent == a.commitment.spent;
      InputIsOwn(a.commitment, p);
    }
  }

  lemma InputIsOwn(c: Commitment, p: Point)
    requires p in c.inputs && Some(p) != c.spent
    requires c.spent.Some? ==> c.inputs[|c.inputs| - 1] == c.spent.value
    ensures p in Own(c)
  {
    var k :| 0 <= k < |c.inputs| && c.inputs[k] == p;
    assert Own(c)[k] == p;
  }
}
