/** Runs of the supply pipeline that end in what its documentation rules out. */
module SupplyWitnesses {
  import opened Prelude
  import opened SupplyTree
  import opened SupplyRoot
  import opened SupplyStores
  import opened SupplyPipeline
  import opened SupplyInvariant
  import opened SupplySafety
  import opened SupplyReplay
  import opened SupplyHeadroom
  import opened SupplyLate
  import opened SupplySqlite
  import opened Listings
  import opened SupplyPayloads

  /** The mint of the other runs with the same amount and another proof. */
  const MINT_AGAIN := SupplyEvent(Mint, TreeKey(1), Leaf(9, 5))

  lemma StagedAgain(h: Hasher, s: History) returns (t: History)
    requires Reachable(h, s) && Inv(h, s) && |s.g.watch| == 1 && Fresh(h, s, s.g.watch[0])
    requires s.g.commits == [] && s.g.staged == [MINT_EVENT]
    ensures Reachable(h, t) && Inv(h, t) && t.g == s.g.(staged := [MINT_AGAIN]) && Fresh(h, t, t.g.watch[0])
  {
    ReachableStep(h, s, Stage(MINT_AGAIN));
    t := NextHistory(h, s, Stage(MINT_AGAIN));
    assert Staged([MINT_EVENT], MINT_AGAIN) == [MINT_AGAIN] + [MINT_EVENT][1..] == [MINT_AGAIN];
  }

  /**
   * A payload is lost: an update is staged again, with another payload, while the first one is frozen in flight. The
   * confirmation drops it from the queue by its place, and the trees hold the frozen payload.
   */
  lemma PayloadLost() returns (s: History, t: History)
    ensures Reachable(WitnessHasher(), s) && MINT_AGAIN in s.g.staged
    ensures Enabled(s.g, Finish(0, true, 1, 5, 0)) && t == NextHistory(WitnessHasher(), s, Finish(0, true, 1, 5, 0))
    ensures !Kept(t.g, PlaceOf(MINT_AGAIN), MINT_AGAIN.leaf)
  {
    var h, step := WitnessHasher(), Finish(0, true, 1, 5, 0);
    CommitMint();
    var first := MintInFlight();
    s := StagedAgain(h, first);
    var a := s.g.watch[0];
    assert s.g.watch == [a] && a.events == [MINT_EVENT];
    FirstVerificationAccepts(h, s, a, 1);
    FinishFields(h, s, step);
    t := NextHistory(h, s, step);
    UnstagedElements([MINT_AGAIN], [MINT_EVENT]);
    assert PlaceOf(MINT_AGAIN) in Places([MINT_EVENT]) by {
      assert MINT_EVENT in [MINT_EVENT];
    }
  }

  /**
   * A pre-commitment is named twice: finishing the mint is retried after its commitment was finished, and stores the
   * spent output as an unspent row again; the next commitment names it as an input.
   */
  lemma InputNamedTwice() returns (s: History)
    ensures var h := WitnessHasher();
      && Reachable(h, s) && Commits(h, s.g, true) && |s.g.commits| == 1
      && Point(1, 0) in s.g.commits[0].inputs && Point(1, 0) in NewCommitment(h, s.g, Point(3, 0)).inputs
  {
    CommitBurn();
    var before := MintConfirmed();
    s := NamedAgain(WitnessHasher(), before);
  }

  lemma NamedAgain(h: Hasher, before: History) returns (s: History)
    requires Reachable(h, before) && MintDone(h, before)
    ensures Reachable(h, s) && Commits(h, s.g, true) && s.g.commits == before.g.commits
    ensures Point(1, 0) in NewCommitment(h, s.g, Point(3, 0)).inputs
  {
    var again := InsertedAgain(h, before);
    ReachableStep(h, again, Stage(BURN_EVENT));
    s := NextHistory(h, again, Stage(BURN_EVENT));
    StagedFirst(h, again, BURN_EVENT);
  }

  lemma InsertedAgain(h: Hasher, s: History) returns (t: History)
    requires Reachable(h, s) && Inv(h, s) && s.g.watch == [] && |s.g.commits| == 1
    requires s.g.commits[0].point == Point(2, 0) && s.g.preCommits == [MINT_ROW.(spentBy := Some(Point(2, 0)))]
    ensures Reachable(h, t) && Inv(h, t) && t.g == s.g.(preCommits := s.g.preCommits + [MINT_ROW])
    ensures InputsOf(t.g) == [Point(1, 0), Point(2, 0)]
  {
    var step := AddPreCommit(Point(1, 0), 1);
    ReachableStep(h, s, step);
    t := NextHistory(h, s, step);
    OneRow(s.g.preCommits[0], 1);
    assert t.g.preCommits[..1] == s.g.preCommits;
    assert Unspent(t.g.preCommits) == [] + [Point(1, 0)] == [Point(1, 0)];
    assert [Point(1, 0)] + [Point(2, 0)] == [Point(1, 0), Point(2, 0)];
  }

  // ----- a row that stayed is replayed after the group has moved on -----

  ghost predicate LateReachable(h: Hasher, l: Leftovers) {
    exists steps :: LateRun(h, steps) && LateAfter(h, steps) == l
  }

  lemma LateReachableStep(h: Hasher, l: Leftovers, step: LateStep)
    requires LateReachable(h, l) && LateEnabled(l, step)
    ensures LateReachable(h, LateNext(h, l, step))
  {
    var steps :| LateRun(h, steps) && LateAfter(h, steps) == l;
    assert (steps + [step])[..|steps|] == steps;
    assert LateRun(h, steps + [step]) && LateAfter(h, steps + [step]) == LateNext(h, l, step);
  }

  /** The mint is finished, and its durable row stays. */
  lemma MintRowStays() returns (l: Leftovers)
    ensures var h := WitnessHasher();
      && LateReachable(h, l) && Reachable(h, l.s) && Inv(h, l.s) && l.s.g.watch == [] && l.s.g.staged == []
      && |l.s.g.commits| == 1 && l.s.g.commits[0].point == Point(2, 0)
      && l.s.g.supply == MemoryApply(h, EMPTY_SUPPLY, [MINT_EVENT]).supply
      && l.s.g.preCommits == [MINT_ROW.(spentBy := Some(Point(2, 0)))]
      && |l.left| == 1 && l.left[0].events == [MINT_EVENT] && l.left[0].commitment.point == Point(2, 0)
  {
    var h := WitnessHasher();
    CommitMint();
    var l0 := Leftovers(START, []);
    assert LateRun(h, []) && LateAfter(h, []) == l0;
    var s1 := RowStored();
    LateReachableStep(h, l0, Usual(AddPreCommit(Point(1, 0), 1)));
    MintReady(h, s1);
    var s2 := LateCommit(h, Leftovers(s1, []), MINT_EVENT, Point(2, 0));
    RowSpent(MINT_ROW, s2.g.watch[0], 1);
    RowMarked(MINT_ROW, s2.g.watch[0].commitment);
    var s3 := Confirm(h, s2);
    LateReachableStep(h, Leftovers(s2, []), RowStays(1));
    l := Leftovers(s3, [] + [s2.g.watch[0]]);
  }

  lemma LateCommit(h: Hasher, l: Leftovers, e: SupplyEvent, point: Point) returns (s: History)
    requires LateReachable(h, l) && Reachable(h, l.s) && Inv(h, l.s) && Idle(h, l.s, e, point)
    ensures LateReachable(h, l.(s := s)) && Reachable(h, s) && Inv(h, s) && Broadcast(h, l.s, e, point, s)
  {
    s := StageAndCommit(h, l.s, e, point);
    LateReachableStep(h, l, Usual(Stage(e)));
    LateReachableStep(h, l.(s := NextHistory(h, l.s, Stage(e))), Usual(Commit(point, true)));
  }

  /** Then a burn is committed and finished. */
  lemma BurnFollows(h: Hasher, l: Leftovers) returns (m: Leftovers)
    requires LateReachable(h, l) && Reachable(h, l.s) && MintDone(h, l.s)
    ensures LateReachable(h, m) && m.left == l.left && LatestPoint(m.s.g.commits) == Some(Point(3, 0))
    ensures m.s.g.supply == MemoryApply(h, l.s.g.supply, [BURN_EVENT]).supply
  {
    BurnReady(h, l.s);
    var s2 := LateCommit(h, l, BURN_EVENT, Point(3, 0));
    RowDone(s2.g.preCommits[0], s2.g.watch[0], 1);
    var s3 := LateConfirm(h, l.(s := s2));
    m := l.(s := s3);
  }

  lemma LateConfirm(h: Hasher, l: Leftovers) returns (t: History)
    requires LateReachable(h, l) && Reachable(h, l.s) && Inv(h, l.s) && |l.s.g.watch| == 1
    requires Fresh(h, l.s, l.s.g.watch[0]) && l.s.g.staged == l.s.g.watch[0].events && |l.s.g.staged| == 1
    requires RowsAccept(l.s.g.preCommits, l.s.g.watch[0], 1)
    ensures LateReachable(h, l.(s := t)) && LatestPoint(t.g.commits) == Some(l.s.g.watch[0].commitment.point)
    ensures t.g.supply == MemoryApply(h, l.s.g.supply, l.s.g.watch[0].events).supply
  {
    t := Confirm(h, l.s);
    LateReachableStep(h, l, Usual(Finish(0, true, 1, 5, 0)));
  }

  lemma MintFitsAgain(h: Hasher, s: Supply, burns: Tree)
    requires h == WitnessHasher() && RootTracks(h, s)
    requires s.subs == SubTrees(map[TreeKey(1) := Leaf(7, 5)], burns, map[])
    requires TreeSum(burns) <= 3 && RootBelow(s.root, 5)
    ensures MemoryApply(h, s, [MINT_EVENT]).ok
  {
    OneLeaf(TreeKey(1), Leaf(7, 5));
    assert [MINT_EVENT][..0] == [] && Total([MINT_EVENT], LeafSum) == 5;
    BothStoresAccept(h, s, [MINT_EVENT], 20);
  }

  /**
   * The replay of the row that stayed brings the mint's commitment back as the latest, although the burn's commitment
   * has spent it: what the next commitment is to spend is gone.
   */
  lemma LateReplayHappens() returns (l: Leftovers, a: SupplyAnchor)
    ensures var h := WitnessHasher();
      && LateReachable(h, l) && a in l.left && MemoryApply(h, l.s.g.supply, a.events).ok
      && !IsChain(h, Replayed(h, l.s.g, a, 1).commits) && EndIsSpent(Replayed(h, l.s.g, a, 1).commits)
  {
    var h := WitnessHasher();
    CommitMint();
    CommitBurn();
    var before := MintRowStays();
    l := BurnFollows(h, before);
    a := l.left[0];
    OneLeaf(TreeKey(2), Leaf(8, 3));
    MemoryTracks(h, MemoryApply(h, EMPTY_SUPPLY, [MINT_EVENT]).supply, [BURN_EVENT]);
    MintFitsAgain(h, l.s.g.supply, map[TreeKey(2) := Leaf(8, 3)]);
    var steps :| LateRun(h, steps) && LateAfter(h, steps) == l;
    LateReplayIff(h, steps, a, 1);
  }

  /** A commitment stored and marked whose updates could not be unstaged, still in flight. */
  lemma OnlyCleanUpLeft() returns (s: History)
    ensures var h := WitnessHasher();
      && Reachable(h, s) && |s.g.watch| == 1 && s.g.staged == [MINT_EVENT] && LatestPoint(s.g.commits).Some?
      && s.g.preCommits == [MINT_ROW.(spentBy := Some(Point(2, 0)))]
      && Known(s.g.commits, s.g.watch[0].commitment.point)
      && s.g.supply == MemoryApply(h, EMPTY_SUPPLY, [MINT_EVENT]).supply
  {
    var h, step := WitnessHasher(), Finish(0, true, 1, 3, 0);
    var s2 := MintInFlight();
    var a := s2.g.watch[0];
    assert s2.g.watch == [a];
    FirstVerificationAccepts(h, s2, a, 1);
    FinishFields(h, s2, step);
    ReachableStep(h, s2, step);
    s := NextHistory(h, s2, step);
    assert s.g.commits[|s.g.commits| - 1].point == a.commitment.point;
  }

  /** While the watcher holds that anchor, a second commitment of the group passes the guard and the chain. */
  lemma OverlapHappens() returns (s: History)
    ensures Reachable(WitnessHasher(), s) && |s.g.watch| == 1
    ensures Commits(WitnessHasher(), s.g.(watch := []), true) && AllButCleanedUp(s.g, s.g.watch[0])
  {
    var h := WitnessHasher();
    CommitMint();
    s := OnlyCleanUpLeft();
    MemoryTracks(h, EMPTY_SUPPLY, [MINT_EVENT]);
    MintFitsAgain(h, s.g.supply, map[]);
    OneRow(s.g.preCommits[0], 1);
  }

  // ----- a tree step that fails after a root upsert -----

  ghost predicate SqliteReachable(h: Hasher, s: History) {
    exists steps :: SqliteRun(h, steps) && SqliteAfter(h, steps) == s
  }

  lemma SqliteReachableStep(h: Hasher, s: History, step: SqliteStep)
    requires SqliteReachable(h, s) && Enabled(s.g, step.step)
    ensures SqliteReachable(h, SqliteNextHistory(h, s, step))
  {
    var steps :| SqliteRun(h, steps) && SqliteAfter(h, steps) == s;
    assert (steps + [step])[..|steps|] == steps;
    assert SqliteRun(h, steps + [step]) && SqliteAfter(h, steps + [step]) == SqliteNextHistory(h, s, step);
  }

  ghost predicate StoresAgreeOn(h: Hasher, s: Supply, es: seq<SupplyEvent>) {
    SqliteApply(h, s, es) == MemoryApply(h, s, es)
  }

  /** Where the two tree stores agree, so do the two pipelines. */
  lemma StepsAgree(h: Hasher, s: History, step: Step)
    requires Enabled(s.g, step)
    requires step.Finish? ==> step.stop != 0 && StoresAgreeOn(h, s.g.supply, s.g.watch[step.i].events)
    ensures SqliteNextHistory(h, s, SqliteStep(step, 0)) == NextHistory(h, s, step)
  {
  }

  lemma SqliteCommit(h: Hasher, s: History, e: SupplyEvent, point: Point) returns (t: History)
    requires SqliteReachable(h, s) && Reachable(h, s) && Inv(h, s) && Idle(h, s, e, point)
    ensures SqliteReachable(h, t) && Reachable(h, t) && Inv(h, t) && Broadcast(h, s, e, point, t)
  {
    t := StageAndCommit(h, s, e, point);
    StepsAgree(h, s, Stage(e));
    SqliteReachableStep(h, s, SqliteStep(Stage(e), 0));
    var s1 := NextHistory(h, s, Stage(e));
    StepsAgree(h, s1, Commit(point, true));
    SqliteReachableStep(h, s1, SqliteStep(Commit(point, true), 0));
  }

  lemma SqliteConfirm(h: Hasher, s: History) returns (t: History)
    requires SqliteReachable(h, s) && Reachable(h, s) && Inv(h, s) && |s.g.watch| == 1 && Fresh(h, s, s.g.watch[0])
    requires s.g.staged == s.g.watch[0].events && |s.g.staged| == 1 && RowsAccept(s.g.preCommits, s.g.watch[0], 1)
    requires StoresAgreeOn(h, s.g.supply, s.g.watch[0].events)
    ensures SqliteReachable(h, t) && Reachable(h, t) && Inv(h, t) && t.g.watch == [] && t.g.staged == []
    ensures t.g.commits == s.g.commits + [s.g.watch[0].commitment.(block := Some(1))]
    ensures t.g.supply == MemoryApply(h, s.g.supply, s.g.watch[0].events).supply
    ensures t.g.preCommits == MarkFirst(s.g.preCommits, s.g.watch[0].commitment, |s.g.preCommits|)
  {
    t := Confirm(h, s);
    StepsAgree(h, s, Finish(0, true, 1, 5, 0));
    SqliteReachableStep(h, s, SqliteStep(Finish(0, true, 1, 5, 0), 0));
  }

  lemma SqliteRowStored() returns (s: History)
    ensures var h := WitnessHasher();
      && SqliteReachable(h, s) && Reachable(h, s) && Inv(h, s) && s.g == EMPTY_GROUP.(preCommits := [MINT_ROW])
      && InputsOf(s.g) == [Point(1, 0)]
  {
    var h, step := WitnessHasher(), AddPreCommit(Point(1, 0), 1);
    s := RowStored();
    assert SqliteRun(h, []) && SqliteAfter(h, []) == START;
    StepsAgree(h, START, step);
    SqliteReachableStep(h, START, SqliteStep(step, 0));
  }

  lemma SqliteMintConfirmed() returns (s: History)
    ensures var h := WitnessHasher();
      && SqliteReachable(h, s) && Reachable(h, s) && Inv(h, s) && s.g.watch == [] && s.g.staged == []
      && |s.g.commits| == 1 && s.g.commits[0].point == Point(2, 0)
      && s.g.supply == MemoryApply(h, EMPTY_SUPPLY, [MINT_EVENT]).supply
      && s.g.preCommits == [MINT_ROW.(spentBy := Some(Point(2, 0)))]
  {
    var h := WitnessHasher();
    SmallBatch(h, EMPTY_SUPPLY, MINT_EVENT);
    var s1 := SqliteRowStored();
    MintReady(h, s1);
    var s2 := SqliteCommit(h, s1, MINT_EVENT, Point(2, 0));
    RowSpent(MINT_ROW, s2.g.watch[0], 1);
    RowMarked(MINT_ROW, s2.g.watch[0].commitment);
    s := SqliteConfirm(h, s2);
  }

  /** The stores agree on the updates of these runs. */
  lemma SmallBatch(h: Hasher, s: Supply, e: SupplyEvent)
    requires RootTracks(h, s) && AllSums(s.subs) <= 10 && RootBelow(s.root, 10) && e.leaf.sum <= 10
    ensures StoresAgreeOn(h, s, [e]) && MemoryApply(h, s, [e]).ok
  {
    assert [e][..0] == [] && Total([e], LeafSum) == e.leaf.sum;
    BothStoresAccept(h, s, [e], 20);
  }

  /** A follow-up whose tree step fails after its one insert and its one upsert. */
  lemma BurnTorn(h: Hasher, s: History) returns (t: History)
    requires SqliteReachable(h, s) && Reachable(h, s) && MintDone(h, s)
    requires StoresAgreeOn(h, s.g.supply, [BURN_EVENT])
    requires h.root(MemoryApply(h, s.g.supply, [BURN_EVENT]).supply.root) != h.root(s.g.supply.root)
    ensures SqliteReachable(h, t) && TornStuck(h, t)
  {
    BurnReady(h, s);
    var s2 := SqliteCommit(h, s, BURN_EVENT, Point(3, 0));
    var a, es := s2.g.watch[0], [BURN_EVENT];
    assert s2.g.watch == [a];
    RowDone(s2.g.preCommits[0], a, 1);
    FirstVerificationAccepts(h, s2, a, 1);
    var n := |es| + |Touched(es)|;
    TornByAll(h, s2, a);
    FailedUpsertSticks(h, s2, a, 1, n);
    SqliteReachableStep(h, s2, SqliteStep(Finish(0, true, 1, 0, 0), n));
    t := SqliteNextHistory(h, s2, SqliteStep(Finish(0, true, 1, 0, 0), n));
  }

  lemma TornByAll(h: Hasher, s: History, a: SupplyAnchor)
    requires Inv(h, s) && StoresAgreeOn(h, s.g.supply, a.events)
    ensures Clean(h, s) == s && SqliteInv(h, s)
    ensures Partial(h, s.g.supply, a.events, |a.events| + |Touched(a.events)|)
         == MemoryApply(h, s.g.supply, a.events).supply
  {
    AppliedIsPartial(h, s.g.supply, a.events);
  }

  /** So the state that no run leads out of is reachable with one failed write of the SQLite store. */
  lemma TornStuckIsReachable() returns (s: History)
    ensures SqliteReachable(WitnessHasher(), s) && TornStuck(WitnessHasher(), s)
  {
    var h := WitnessHasher();
    CommitMint();
    CommitBurn();
    var s1 := SqliteMintConfirmed();
    OneLeaf(TreeKey(1), Leaf(7, 5));
    MemoryTracks(h, EMPTY_SUPPLY, [MINT_EVENT]);
    SmallBatch(h, s1.g.supply, BURN_EVENT);
    s := BurnTorn(h, s1);
  }
}
