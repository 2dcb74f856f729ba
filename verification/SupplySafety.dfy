/** Every step of the supply pipeline keeps the invariant, and what follows for every run. */
module SupplySafety {
  import opened Prelude
  import opened SupplyTree
  import opened SupplyRoot
  import opened SupplyStores
  import opened SupplyPipeline
  import opened SupplyInvariant

  // ----- the staging queue -----

  lemma {:induction false} UniquePlacesIndexed(q: seq<SupplyEvent>)
    ensures UniquePlaces(q) <==>
      forall i, j :: 0 <= i < j < |q| ==> q[i].ty != q[j].ty || q[i].key != q[j].key
    decreases |q|
  {
    if q != [] {
      var n := |q| - 1;
      UniquePlacesIndexed(q[..n]);
      assert (q[n].ty, q[n].key) in Places(q[..n]) <==>
        exists i :: 0 <= i < n && q[i].ty == q[n].ty && q[i].key == q[n].key by {
        assert forall i :: 0 <= i < n ==> q[..n][i] == q[i] && q[i] in q[..n];
      }
    }
  }

  lemma PlacesSnoc(q: seq<SupplyEvent>, e: SupplyEvent)
    ensures Places(q + [e]) == Places(q) + {(e.ty, e.key)}
  {
    assert forall x :: x in q + [e] <==> x in q || x == e;
  }

  /** Staging replaces or appends: one update per place, and the place is staged. */
  lemma StagedPlaces(q: seq<SupplyEvent>, e: SupplyEvent)
    requires UniquePlaces(q)
    ensures UniquePlaces(Staged(q, e))
    ensures Places(Staged(q, e)) == Places(q) + {(e.ty, e.key)}
    ensures e in Staged(q, e)
  {
    if i :| 0 <= i < |q| && q[i].ty == e.ty && q[i].key == e.key {
      StagedInPlace(q, i, e);
      PlacesReplaced(q, i, e);
      assert q[i := e][i] == e;
    } else {
      StagedNew(q, e);
      PlacesSnoc(q, e);
      assert (q + [e])[..|q|] == q;
      assert (e.ty, e.key) !in Places(q);
    }
  }

  lemma StagedInPlace(q: seq<SupplyEvent>, i: nat, e: SupplyEvent)
    requires UniquePlaces(q) && i < |q| && q[i].ty == e.ty && q[i].key == e.key
    ensures Staged(q, e) == q[i := e] && UniquePlaces(q[i := e])
  {
    UniquePlacesIndexed(q);
    StagedAt(q, i, e);
    UniquePlacesIndexed(q[i := e]);
  }

  lemma PlacesReplaced(q: seq<SupplyEvent>, i: nat, e: SupplyEvent)
    requires i < |q| && q[i].ty == e.ty && q[i].key == e.key
    ensures Places(q[i := e]) == Places(q) + {(e.ty, e.key)}
  {
    var r := q[i := e];
    forall x | x in q
      ensures (x.ty, x.key) in Places(r)
    {
      var j :| 0 <= j < |q| && q[j] == x;
      assert r[j] in r && r[j].ty == x.ty && r[j].key == x.key;
    }
    assert r[i] == e && e in r;
    forall x | x in r
      ensures (x.ty, x.key) in Places(q) + {(e.ty, e.key)}
    {
      var j :| 0 <= j < |r| && r[j] == x;
      assert j != i ==> q[j] in q;
    }
  }

  lemma {:induction false} UnstagedElements(q: seq<SupplyEvent>, es: seq<SupplyEvent>)
    ensures forall e :: e in Unstaged(q, es) <==> e in q && (e.ty, e.key) !in Places(es)
    decreases |q|
  {
    if q != [] {
      var front, last := q[..|q| - 1], q[|q| - 1];
      assert q == front + [last];
      UnstagedElements(front, es);
    }
  }

  /** Unstaging removes exactly the places of the batch. */
  lemma UnstagedPlaces(q: seq<SupplyEvent>, es: seq<SupplyEvent>)
    ensures Places(Unstaged(q, es)) == Places(q) - Places(es)
  {
    UnstagedElements(q, es);
  }

  lemma {:induction false} UnstagedUnique(q: seq<SupplyEvent>, es: seq<SupplyEvent>)
    requires UniquePlaces(q)
    ensures UniquePlaces(Unstaged(q, es))
    decreases |q|
  {
    if q != [] {
      var rest, last := Unstaged(q[..|q| - 1], es), q[|q| - 1];
      UnstagedUnique(q[..|q| - 1], es);
      if (last.ty, last.key) in Places(es) {
        assert Unstaged(q, es) == rest;
      } else {
        UnstagedPlaces(q[..|q| - 1], es);
        assert (rest + [last])[..|rest|] == rest;
      }
    }
  }

  // ----- one step at a time -----

  /** Where the anchor stands does not depend on the staging queue or the pre-commitments. */
  lemma WatchingFrame(h: Hasher, s: History, s': History)
    requires Watching(h, s) && s'.batches == s.batches && s'.half == s.half
    requires s'.g == s.g.(staged := s'.g.staged, preCommits := s'.g.preCommits)
    ensures Watching(h, s') && Committed(s') == Committed(s)
  {
  }

  lemma StageKeeps(h: Hasher, s: History, e: SupplyEvent)
    requires Inv(h, s)
    ensures Inv(h, NextHistory(h, s, Stage(e)))
  {
    StagedPlaces(s.g.staged, e);
    WatchingFrame(h, s, NextHistory(h, s, Stage(e)));
  }

  lemma AddPreCommitKeeps(h: Hasher, s: History, point: Point, height: nat)
    requires Inv(h, s) && Enabled(s.g, AddPreCommit(point, height))
    ensures Inv(h, NextHistory(h, s, AddPreCommit(point, height)))
  {
    WatchingFrame(h, s, NextHistory(h, s, AddPreCommit(point, height)));
  }

  lemma CommitKeeps(h: Hasher, s: History, point: Point, broadcast: bool)
    requires Inv(h, s) && Enabled(s.g, Commit(point, broadcast))
    ensures Inv(h, NextHistory(h, s, Commit(point, broadcast)))
  {
    if Commits(h, s.g, broadcast) {
      var s' := NextHistory(h, s, Commit(point, broadcast));
      var a := SupplyAnchor(NewCommitment(h, s.g, point), s.g.staged);
      assert s'.g.watch == [a] && s'.g.durable == map[point.txid := a];
      assert Fresh(h, s', a);
    }
  }

  lemma RestartKeeps(h: Hasher, s: History)
    requires Inv(h, s)
    ensures NextHistory(h, s, Restart) == s
  {
    if s.g.watch != [] {
      var a := s.g.watch[0];
      ReloadOne(a.commitment.point.txid, a);
      assert s.g.watch == [a];
    }
  }

  /** A leaf once in the trees stays there. */
  lemma PlacedStays(s: SubTrees, es: seq<SupplyEvent>, p: (SubTree, TreeKey))
    requires Placed(s, p)
    ensures Placed(Write(s, es), p)
  {
    WriteEffect(s, es, p.0, p.1);
  }

  /** The trees after the tree-writing step, in each of the three situations of the anchor. */
  lemma TreesAfter(h: Hasher, s: History, a: SupplyAnchor)
    requires Inv(h, s) && s.g.watch == [a]
    ensures var o := MemoryApply(h, s.g.supply, a.events);
      && (Fresh(h, s, a) ==> o.ok)
      && (!Fresh(h, s, a) ==> o.supply == s.g.supply)
  {
    if !Fresh(h, s, a) {
      ReplayLast(h, s.batches);
    }
  }

  lemma TreesGrow(h: Hasher, supply: Supply, es: seq<SupplyEvent>)
    requires UniquePlaces(es) && MemoryApply(h, supply, es).ok
    ensures var o := MemoryApply(h, supply, es);
      Holds(o.supply.subs, es) && forall p :: Placed(supply.subs, p) ==> Placed(o.supply.subs, p)
  {
    var o := MemoryApply(h, supply, es);
    MemoryTracks(h, supply, es);
    WriteHolds(supply.subs, es);
    forall p | Placed(supply.subs, p)
      ensures Placed(o.supply.subs, p)
    {
      PlacedStays(supply.subs, es, p);
    }
  }

  /** What a finish that writes the trees changes. */
  ghost predicate Finished(h: Hasher, s: History, a: SupplyAnchor, block: nat, stop: nat, s': History) {
    var known := Known(s.g.commits, a.commitment.point);
    && s'.ever == s.ever
    && s'.g.supply == MemoryApply(h, s.g.supply, a.events).supply
    && s'.batches == (if s.half || known then s.batches else s.batches + [a.events])
    && s'.half == (stop == 1 && !known)
    && s'.g.commits == s.g.commits + (if stop == 1 then [] else [a.commitment.(block := Some(block))])
    && s'.g.staged == (if stop <= 3 then s.g.staged else Unstaged(s.g.staged, a.events))
    && s'.g.watch == (if stop <= 4 then s.g.watch else [])
    && s'.g.durable == (if stop <= 4 then s.g.durable else map[])
  }

  lemma FinishFields(h: Hasher, s: History, step: Step)
    requires Inv(h, s) && Enabled(s.g, step) && Writes(h, s.g, step)
    ensures |s.g.watch| == 1 && Finished(h, s, s.g.watch[0], step.block, step.stop, NextHistory(h, s, step))
  {
    var s' := NextHistory(h, s, step);
    if step.stop > 4 {
      assert s'.g.watch == [];
      assert s'.g.durable == map[];
    } else if step.stop == 1 {
      assert s'.g.commits == s.g.commits + [];
    }
  }

  /** The anchor is stored already exactly when it is `Recorded`. */
  lemma KnownIffRecorded(h: Hasher, s: History, a: SupplyAnchor)
    requires InFlight(h, s, a)
    ensures Known(s.g.commits, a.commitment.point) <==> Recorded(s, a)
  {
    if Recorded(s, a) {
      assert s.g.commits[|s.g.commits| - 1].point == a.commitment.point;
    }
  }

  lemma AppliedSnoc(h: Hasher, bs: seq<seq<SupplyEvent>>, es: seq<SupplyEvent>)
    requires Applied(h, bs) && UniquePlaces(es) && MemoryApply(h, Fold(h, bs), es).ok
    ensures Applied(h, bs + [es]) && Fold(h, bs + [es]) == MemoryApply(h, Fold(h, bs), es).supply
  {
    assert (bs + [es])[..|bs|] == bs;
  }

  lemma ChainGrows(h: Hasher, cs: seq<Commitment>, bs: seq<seq<SupplyEvent>>, c: Commitment)
    requires bs != [] && Chain(h, cs, bs[..|bs| - 1]) && CommitsTo(h, cs, c, bs)
    ensures Chain(h, cs + [c], bs)
  {
    assert (cs + [c])[..|cs|] == cs;
  }

  lemma ChainRepeats(h: Hasher, cs: seq<Commitment>, bs: seq<seq<SupplyEvent>>, c: Commitment)
    requires Chain(h, cs, bs) && cs != [] && Same(c, cs[|cs| - 1])
    ensures Chain(h, cs + [c], bs)
  {
    assert (cs + [c])[..|cs|] == cs;
  }

  /** A first finish: the batch is applied, and its commitment may follow. */
  lemma FreshFinish(h: Hasher, s: History, a: SupplyAnchor, block: nat, stop: nat, s': History)
    requires Applied(h, s.batches) && s.g.supply == Fold(h, s.batches) && Chain(h, s.g.commits, s.batches)
    requires UniquePlaces(a.events) && Fresh(h, s, a)
    requires Finished(h, s, a, block, stop, s')
    ensures Applied(h, s'.batches) && s'.g.supply == Fold(h, s'.batches) && Chain(h, s'.g.commits, Committed(s'))
    ensures stop == 1 ==> HalfDone(h, s', a)
    ensures stop != 1 ==> Recorded(s', a)
  {
    AppliedSnoc(h, s.batches, a.events);
    assert s'.batches[..|s'.batches| - 1] == s.batches;
    if stop == 1 {
      assert s'.g.commits == s.g.commits;
    } else {
      ChainGrows(h, s.g.commits, s'.batches, a.commitment.(block := Some(block)));
    }
  }

  /** Resuming a half-done finish: the trees stay, and the commitment may follow. */
  lemma HalfDoneFinish(h: Hasher, s: History, a: SupplyAnchor, block: nat, stop: nat, s': History)
    requires s.batches != [] && s.g.supply == Fold(h, s.batches)
    requires Chain(h, s.g.commits, s.batches[..|s.batches| - 1])
    requires MemoryApply(h, s.g.supply, a.events).supply == s.g.supply
    requires HalfDone(h, s, a) && Finished(h, s, a, block, stop, s')
    ensures s'.batches == s.batches && s'.g.supply == s.g.supply && Chain(h, s'.g.commits, Committed(s'))
    ensures stop == 1 ==> HalfDone(h, s', a)
    ensures stop != 1 ==> Recorded(s', a)
  {
    if stop == 1 {
      assert s'.g.commits == s.g.commits;
    } else {
      ChainGrows(h, s.g.commits, s.batches, a.commitment.(block := Some(block)));
    }
  }

  lemma RecordedFields(h: Hasher, s: History, a: SupplyAnchor, block: nat, stop: nat, s': History)
    requires !s.half && Known(s.g.commits, a.commitment.point)
    requires MemoryApply(h, s.g.supply, a.events).supply == s.g.supply
    requires Finished(h, s, a, block, stop, s')
    ensures s'.batches == s.batches && s'.g.supply == s.g.supply && !s'.half
    ensures s'.g.commits == if stop == 1 then s.g.commits else s.g.commits + [a.commitment.(block := Some(block))]
  {
    if stop == 1 {
      assert s.g.commits + [] == s.g.commits;
    }
  }

  /** Replaying a recorded finish: the trees stay, and the commitment may be stored once more. */
  lemma RecordedFinish(h: Hasher, s: History, a: SupplyAnchor, block: nat, stop: nat, s': History)
    requires Chain(h, s.g.commits, s.batches) && Recorded(s, a)
    requires s'.batches == s.batches && !s'.half
    requires s'.g.commits == if stop == 1 then s.g.commits else s.g.commits + [a.commitment.(block := Some(block))]
    ensures Chain(h, s'.g.commits, Committed(s')) && Recorded(s', a)
  {
    if stop != 1 {
      ChainRepeats(h, s.g.commits, s.batches, a.commitment.(block := Some(block)));
    }
  }

  lemma FinishKeepsStores(h: Hasher, s: History, a: SupplyAnchor, block: nat, stop: nat, s': History)
    requires Inv(h, s) && s.g.watch == [a] && stop != 0 && Finished(h, s, a, block, stop, s')
    ensures Applied(h, s'.batches) && s'.g.supply == Fold(h, s'.batches) && Chain(h, s'.g.commits, Committed(s'))
    ensures Watching(h, s')
  {
    TreesAfter(h, s, a);
    KnownIffRecorded(h, s, a);
    if Fresh(h, s, a) {
      FreshFinish(h, s, a, block, stop, s');
    } else if HalfDone(h, s, a) {
      HalfDoneFinish(h, s, a, block, stop, s');
    } else {
      RecordedFields(h, s, a, block, stop, s');
      RecordedFinish(h, s, a, block, stop, s');
    }
  }

  /** Consuming a batch that is in the trees loses no place. */
  lemma ConsumeStaged(ever: set<(SubTree, TreeKey)>, q: seq<SupplyEvent>, q': seq<SupplyEvent>,
                      subs: SubTrees, subs': SubTrees, es: seq<SupplyEvent>)
    requires UniquePlaces(q) && (q' == q || q' == Unstaged(q, es))
    requires forall p :: p in ever ==> p in Places(q) || Placed(subs, p)
    requires Holds(subs', es) && forall p :: Placed(subs, p) ==> Placed(subs', p)
    ensures UniquePlaces(q') && forall p :: p in ever ==> p in Places(q') || Placed(subs', p)
  {
    UnstagedPlaces(q, es);
    UnstagedUnique(q, es);
    forall p | p in Places(es)
      ensures Placed(subs', p)
    {
      var e :| e in es && p == (e.ty, e.key);
    }
  }

  /** A finish that does not get to write the trees changes nothing at all. */
  lemma FinishWithoutWrites(h: Hasher, s: History, step: Step)
    requires Inv(h, s) && Enabled(s.g, step) && step.Finish? && !Writes(h, s.g, step)
    ensures NextHistory(h, s, step) == s
  {
    var a := s.g.watch[0];
    assert s.g.watch == [a];
    TreesAfter(h, s, a);
  }

  /** After the tree-writing step the batch is in the trees, and nothing has left them. */
  lemma BatchInTrees(h: Hasher, s: History, a: SupplyAnchor)
    requires Inv(h, s) && s.g.watch == [a]
    ensures var subs := MemoryApply(h, s.g.supply, a.events).supply.subs;
      Holds(subs, a.events) && forall p :: Placed(s.g.supply.subs, p) ==> Placed(subs, p)
  {
    if Fresh(h, s, a) {
      TreesGrow(h, s.g.supply, a.events);
    } else {
      ReplayLast(h, s.batches);
    }
  }

  /** A finish that got past the trees keeps the invariant. */
  lemma FinishedKeeps(h: Hasher, s: History, a: SupplyAnchor, block: nat, stop: nat, s': History)
    requires Inv(h, s) && s.g.watch == [a] && stop != 0 && Finished(h, s, a, block, stop, s')
    ensures Inv(h, s')
  {
    FinishKeepsStores(h, s, a, block, stop, s');
    BatchInTrees(h, s, a);
    ConsumeStaged(s.ever, s.g.staged, s'.g.staged, s.g.supply.subs, s'.g.supply.subs, a.events);
  }

  lemma FinishKeeps(h: Hasher, s: History, step: Step)
    requires Inv(h, s) && Enabled(s.g, step) && step.Finish?
    ensures Inv(h, NextHistory(h, s, step))
  {
    if Writes(h, s.g, step) {
      var a := s.g.watch[0];
      FinishFields(h, s, step);
      assert s.g.watch == [a];
      FinishedKeeps(h, s, a, step.block, step.stop, NextHistory(h, s, step));
    } else {
      FinishWithoutWrites(h, s, step);
    }
  }

  lemma StepKeeps(h: Hasher, s: History, step: Step)
    requires Inv(h, s) && Enabled(s.g, step)
    ensures Inv(h, NextHistory(h, s, step))
  {
    match step
    case Stage(e) => StageKeeps(h, s, e);
    case AddPreCommit(point, height) => AddPreCommitKeeps(h, s, point, height);
    case Commit(point, broadcast) => CommitKeeps(h, s, point, broadcast);
    case Finish(_, _, _, _, _) => FinishKeeps(h, s, step);
    case Restart => RestartKeeps(h, s);
  }

  // ----- whole runs -----

  lemma {:induction false} RunKeeps(h: Hasher, steps: seq<Step>)
    requires Run(h, steps)
    ensures Inv(h, After(h, steps))
    decreases |steps|
  {
    if steps != [] {
      RunKeeps(h, steps[..|steps| - 1]);
      StepKeeps(h, After(h, steps[..|steps| - 1]), steps[|steps| - 1]);
    }
  }

  /**
   * In every reachable state the stored trees are the fold of the applied batches, and unless a finish is half done
   * the latest commitment carries their root hash and sum; with no commitment the trees are empty.
   */
  lemma RootsAgree(h: Hasher, steps: seq<Step>)
    requires Run(h, steps)
    ensures var s := After(h, steps);
      && s.g.supply == Fold(h, s.batches)
      && (!s.half && s.g.commits != [] ==>
            var c := s.g.commits[|s.g.commits| - 1];
            c.rootHash == h.root(s.g.supply.root) && c.rootSum == TreeSum(s.g.supply.root))
      && (!s.half && s.g.commits == [] ==> s.g.supply == EMPTY_SUPPLY)
  {
    RunKeeps(h, steps);
    var s := After(h, steps);
    ChainLast(h, s.g.commits, Committed(s));
  }

  /** Every place an update was ever staged for is still staged or already in the trees. */
  lemma NothingVanishes(h: Hasher, steps: seq<Step>, p: (SubTree, TreeKey))
    requires Run(h, steps) && p in After(h, steps).ever
    ensures p in Places(After(h, steps).g.staged) || Placed(After(h, steps).g.supply.subs, p)
  {
    RunKeeps(h, steps);
  }

  /**
   * At most one commitment is ever in flight, it is durable, and the stored commitments are a single chain: the first
   * spends no commitment, every other one spends the one before it or repeats it.
   */
  lemma SingleChain(h: Hasher, steps: seq<Step>)
    requires Run(h, steps)
    ensures var g := After(h, steps).g;
      && |g.watch| <= 1 && |g.durable| <= 1
      && (forall a :: a in g.watch <==> a in g.durable.Values)
      && (g.commits != [] ==> g.commits[0].spent == None)
      && (forall i :: 1 <= i < |g.commits| ==>
            Same(g.commits[i], g.commits[i - 1]) || g.commits[i].spent == Some(g.commits[i - 1].point))
  {
    RunKeeps(h, steps);
    var s := After(h, steps);
    ChainLinks(h, s.g.commits, Committed(s));
    if s.g.watch != [] {
      var a := s.g.watch[0];
      assert s.g.watch == [a] && s.g.durable.Keys == {a.commitment.point.txid};
      assert |s.g.durable| == |s.g.durable.Keys|;
    }
  }
}
