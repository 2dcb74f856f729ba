/**
 * The pipeline over the SQLite tree store. Each insert and each root upsert is kept as it is made, so a tree step that
 * fails half way leaves a part of the batch behind, and its retry starts from there.
 */
module SupplySqlite {
  import opened Prelude
  import opened SupplyTree
  import opened SupplyRoot
  import opened SupplyPipeline
  import opened SupplyInvariant
  import opened SupplySafety
  import opened SupplyReplay

  // ----- a part of a batch -----

  /** What is stored once the first `n` writes of the tree step are made, or those it makes before it fails itself. */
  ghost function Partial(h: Hasher, t: Supply, es: seq<SupplyEvent>, n: nat): Supply {
    var inserted := InsertEach(t.subs, if n < |es| then es[..n] else es);
    if n < |es| || !inserted.0 then t.(subs := inserted.1)
    else
      var tys := Touched(es);
      Supply(Upsert(h, t.root, inserted.1, if n - |es| < |tys| then tys[..n - |es|] else tys).root, inserted.1)
  }

  /** The root has the same entry for the sub-tree. */
  ghost predicate SameEntry(r: RootTree, s: RootTree, ty: SubTree) {
    (ty in r <==> ty in s) && (ty in r ==> r[ty] == s[ty])
  }

  /** The root has the sub-tree's current entry. */
  ghost predicate NewEntry(h: Hasher, r: RootTree, sub: Tree, ty: SubTree) {
    TreeSum(sub) != 0 && ty in r && r[ty] == SubLeaf(h, sub)
  }

  /** Each root entry is the old one, or the one the whole batch leads to. */
  ghost predicate EntriesBetween(h: Hasher, u: RootTree, subs: SubTrees, t: RootTree) {
    forall ty :: SameEntry(t, u, ty) || NewEntry(h, t, subs.Get(ty), ty)
  }

  /** `t` is `u` with the beginning of the batch written, and root entries that are old or already new. */
  ghost predicate PartOf(h: Hasher, u: Supply, es: seq<SupplyEvent>, t: Supply) {
    && (exists k :: 0 <= k <= |es| && t.subs == Write(u.subs, es[..k]))
    && EntriesBetween(h, u.root, Write(u.subs, es), t.root)
  }

  lemma {:induction false} LastWritePrefix(es: seq<SupplyEvent>, k: nat, ty: SubTree, key: TreeKey)
    requires k <= |es|
    ensures LastWrite(es, ty, key).None? ==> LastWrite(es[..k], ty, key).None?
    ensures UniquePlaces(es) && LastWrite(es[..k], ty, key).Some? ==>
      LastWrite(es, ty, key) == LastWrite(es[..k], ty, key)
    ensures LastWrite(es[..k], ty, key).Some? ==> (ty, key) in Places(es[..k])
    decreases |es|
  {
    if k < |es| {
      var front, last := es[..|es| - 1], es[|es| - 1];
      assert front[..k] == es[..k];
      LastWritePrefix(front, k, ty, key);
      assert forall e :: e in es[..k] ==> e in front by {
        assert front == es[..k] + front[k..];
      }
    } else {
      assert es[..k] == es;
      if es != [] {
        var front, last := es[..|es| - 1], es[|es| - 1];
        assert es == front + [last] && front[..|front|] == front;
        LastWritePrefix(front, |front|, ty, key);
      }
    }
  }

  /** Writing a batch over a part of itself gives what writing it once gives. */
  lemma WriteResumes(s: SubTrees, es: seq<SupplyEvent>, k: nat)
    requires k <= |es|
    ensures Write(Write(s, es[..k]), es) == Write(s, es)
  {
    var torn := Write(s, es[..k]);
    forall ty, key
      ensures key in Write(torn, es).Get(ty) <==> key in Write(s, es).Get(ty)
      ensures key in Write(s, es).Get(ty) ==> Write(torn, es).Get(ty)[key] == Write(s, es).Get(ty)[key]
    {
      WriteEffect(s, es, ty, key);
      WriteEffect(torn, es, ty, key);
      WriteEffect(s, es[..k], ty, key);
      LastWritePrefix(es, k, ty, key);
    }
    SubTreesEqual(Write(torn, es), Write(s, es));
  }

  /** And writing a part of it over a larger part changes nothing. */
  lemma WriteBehind(s: SubTrees, es: seq<SupplyEvent>, k: nat)
    requires k <= |es| && UniquePlaces(es)
    ensures Write(Write(s, es), es[..k]) == Write(s, es)
  {
    var done := Write(s, es);
    forall ty, key
      ensures key in Write(done, es[..k]).Get(ty) <==> key in done.Get(ty)
      ensures key in done.Get(ty) ==> Write(done, es[..k]).Get(ty)[key] == done.Get(ty)[key]
    {
      WriteEffect(s, es, ty, key);
      WriteEffect(done, es[..k], ty, key);
      LastWritePrefix(es, k, ty, key);
    }
    SubTreesEqual(Write(done, es[..k]), done);
  }

  lemma {:induction false} UniquePrefix(es: seq<SupplyEvent>, k: nat)
    requires UniquePlaces(es) && k <= |es|
    ensures UniquePlaces(es[..k])
    decreases |es|
  {
    if k < |es| {
      assert es[..|es| - 1][..k] == es[..k];
      UniquePrefix(es[..|es| - 1], k);
    } else {
      assert es[..k] == es;
    }
  }

  /** Two beginnings of a batch, one over the other, are the longer one. */
  lemma WritesJoin(s: SubTrees, es: seq<SupplyEvent>, k: nat, m: nat)
    requires UniquePlaces(es) && k <= |es| && m <= |es|
    ensures Write(Write(s, es[..k]), es[..m]) == Write(s, es[..if k < m then m else k])
  {
    if k < m {
      assert es[..m][..k] == es[..k];
      WriteResumes(s, es[..m], k);
    } else {
      assert es[..k][..m] == es[..m];
      UniquePrefix(es, k);
      WriteBehind(s, es[..k], m);
    }
  }

  /** The inserts that were made are a beginning of the batch. */
  lemma {:induction false} InsertsWrite(s: SubTrees, es: seq<SupplyEvent>) returns (m: nat)
    ensures m <= |es| && InsertEach(s, es).1 == Write(s, es[..m])
    ensures InsertEach(s, es).0 ==> InsertEach(s, es).1 == Write(s, es)
    decreases |es|
  {
    if es == [] {
      m := 0;
    } else {
      var front := es[..|es| - 1];
      m := InsertsWrite(s, front);
      assert front[..m] == es[..m];
      if InsertEach(s, es).0 {
        m := |es|;
        assert es[..m] == es;
        InsertEachApplies(s, es);
        ApplyWrites(s, es);
      }
    }
  }

  lemma {:induction false} UpsertEntries(h: Hasher, u: RootTree, root: RootTree, subs: SubTrees, tys: seq<SubTree>)
    requires EntriesBetween(h, u, subs, root)
    ensures EntriesBetween(h, u, subs, Upsert(h, root, subs, tys).root)
    decreases |tys|
  {
    if tys != [] {
      UpsertEntries(h, u, root, subs, tys[..|tys| - 1]);
    }
  }

  lemma PartWhole(u: SubTrees, es: seq<SupplyEvent>, t: SubTrees)
    requires exists k :: 0 <= k <= |es| && t == Write(u, es[..k])
    ensures Write(t, es) == Write(u, es)
  {
    var k :| 0 <= k <= |es| && t == Write(u, es[..k]);
    WriteResumes(u, es, k);
  }

  lemma PartSubs(u: SubTrees, es: seq<SupplyEvent>, t: SubTrees, n: nat)
    requires UniquePlaces(es) && n <= |es| && exists k :: 0 <= k <= |es| && t == Write(u, es[..k])
    ensures exists k :: 0 <= k <= |es| && InsertEach(t, es[..n]).1 == Write(u, es[..k])
  {
    var k :| 0 <= k <= |es| && t == Write(u, es[..k]);
    var m := InsertsWrite(t, es[..n]);
    assert es[..n][..m] == es[..m];
    WritesJoin(u, es, k, m);
  }

  /** However often the step is tried, and wherever it fails, what is stored is a part of the batch. */
  lemma PartStays(h: Hasher, u: Supply, es: seq<SupplyEvent>, t: Supply, n: nat)
    requires UniquePlaces(es) && PartOf(h, u, es, t)
    ensures PartOf(h, u, es, Partial(h, t, es, n))
  {
    var m := if n < |es| then n else |es|;
    assert es[..|es|] == es;
    PartSubs(u.subs, es, t.subs, m);
    if n >= |es| && InsertEach(t.subs, es).0 {
      var tys := Touched(es);
      var _ := InsertsWrite(t.subs, es);
      PartWhole(u.subs, es, t.subs);
      UpsertEntries(h, u.root, t.root, Write(u.subs, es), if n - |es| < |tys| then tys[..n - |es|] else tys);
    }
  }

  /** The step that fails by itself has made all the writes it could. */
  lemma AppliedIsPartial(h: Hasher, t: Supply, es: seq<SupplyEvent>)
    ensures SqliteApply(h, t, es).supply == Partial(h, t, es, |es| + |Touched(es)|)
  {
    assert Touched(es)[..|Touched(es)|] == Touched(es);
  }

  lemma RootsEqual(r: RootTree, s: RootTree)
    requires forall ty :: SameEntry(r, s, ty)
    ensures r == s
  {
    forall ty
      ensures ty in r <==> ty in s
      ensures ty in r ==> r[ty] == s[ty]
    {
      assert SameEntry(r, s, ty);
    }
  }

  /** The entry a complete step leaves for one sub-tree, from a part of the batch and from none of it. */
  lemma CompletedEntry(h: Hasher, u: Supply, es: seq<SupplyEvent>, t: RootTree, ty: SubTree)
    requires RootTracks(h, u) && Apply(u.subs, es).Some?
    requires EntriesBetween(h, u.root, Write(u.subs, es), t)
    requires Upsert(h, u.root, Write(u.subs, es), ALL_SUB_TREES).ok && Upsert(h, t, Write(u.subs, es), Touched(es)).ok
    ensures SameEntry(Upsert(h, t, Write(u.subs, es), Touched(es)).root,
                      Upsert(h, u.root, Write(u.subs, es), ALL_SUB_TREES).root, ty)
  {
    var subs := Write(u.subs, es);
    ApplyWrites(u.subs, es);
    AllListed(ty);
    UpsertEffect(h, u.root, subs, ALL_SUB_TREES, ty);
    UpsertEffect(h, t, subs, Touched(es), ty);
    assert SameEntry(t, u.root, ty) || NewEntry(h, t, subs.Get(ty), ty);
    if ty !in Touched(es) {
      UntouchedUnchanged(u.subs, es, ty);
    }
  }

  /** A retry that succeeds leaves what the memory store would have left without any failure. */
  lemma RetryCompletes(h: Hasher, u: Supply, es: seq<SupplyEvent>, t: Supply)
    requires RootTracks(h, u) && PartOf(h, u, es, t) && MemoryApply(h, u, es).ok && SqliteApply(h, t, es).ok
    ensures SqliteApply(h, t, es).supply == MemoryApply(h, u, es).supply
  {
    ApplyWrites(u.subs, es);
    var _ := InsertsWrite(t.subs, es);
    PartWhole(u.subs, es, t.subs);
    forall ty
      ensures SameEntry(SqliteApply(h, t, es).supply.root, MemoryApply(h, u, es).supply.root, ty)
    {
      CompletedEntry(h, u, es, t.root, ty);
    }
    RootsEqual(SqliteApply(h, t, es).supply.root, MemoryApply(h, u, es).supply.root);
  }

  lemma PreviewEntry(h: Hasher, u: RootTree, subs: SubTrees, t: RootTree, ty: SubTree)
    requires EntriesBetween(h, u, subs, t)
    requires Upsert(h, u, subs, ALL_SUB_TREES).ok && Upsert(h, t, subs, ALL_SUB_TREES).ok
    ensures SameEntry(Upsert(h, t, subs, ALL_SUB_TREES).root, Upsert(h, u, subs, ALL_SUB_TREES).root, ty)
  {
    AllListed(ty);
    UpsertEffect(h, u, subs, ALL_SUB_TREES, ty);
    UpsertEffect(h, t, subs, ALL_SUB_TREES, ty);
    assert SameEntry(t, u, ty) || NewEntry(h, t, subs.Get(ty), ty);
  }

  /** And the root the verifier reconstructs from a part of the batch is the one the author computed. */
  lemma PreviewAgrees(h: Hasher, u: Supply, es: seq<SupplyEvent>, t: Supply)
    requires PartOf(h, u, es, t) && MemoryApply(h, u, es).ok && MemoryApply(h, t, es).ok
    ensures MemoryApply(h, t, es).supply == MemoryApply(h, u, es).supply
  {
    ApplyWrites(u.subs, es);
    ApplyWrites(t.subs, es);
    PartWhole(u.subs, es, t.subs);
    forall ty
      ensures SameEntry(MemoryApply(h, t, es).supply.root, MemoryApply(h, u, es).supply.root, ty)
    {
      PreviewEntry(h, u.root, Write(u.subs, es), t.root, ty);
    }
    RootsEqual(MemoryApply(h, t, es).supply.root, MemoryApply(h, u, es).supply.root);
  }

  /** A batch that is in the trees already leaves them alone, however far the step gets. */
  lemma HeldStays(h: Hasher, u: Supply, es: seq<SupplyEvent>, n: nat)
    requires RootTracks(h, u) && Holds(u.subs, es)
    ensures Partial(h, u, es, n) == u
  {
    var part := if n < |es| then es[..n] else es;
    assert forall e :: e in part ==> e in es;
    InsertsHeld(u.subs, part);
    var tys := Touched(es);
    UpsertCurrent(h, u, if n >= |es| && n - |es| < |tys| then tys[..n - |es|] else tys);
  }

  lemma {:induction false} InsertsHeld(s: SubTrees, es: seq<SupplyEvent>)
    requires Holds(s, es)
    ensures InsertEach(s, es).1 == s
    decreases |es|
  {
    if es != [] {
      var front, last := es[..|es| - 1], es[|es| - 1];
      assert es == front + [last];
      InsertsHeld(s, front);
      assert WriteOne(s, last) == s by {
        assert s.Get(last.ty)[last.key := last.leaf] == s.Get(last.ty);
      }
    }
  }

  // ----- runs -----

  /** A step of the pipeline; `writes` is how many tree writes are made when a finish fails in the tree step. */
  datatype SqliteStep = SqliteStep(step: Step, writes: nat)

  /** The finish gets past the trees. */
  ghost predicate SqliteWrites(h: Hasher, g: Group, step: Step) {
    && step.Finish? && step.i < |g.watch| && step.leavesAccepted && Accepts(h, g, g.watch[step.i], step.block)
    && step.stop != 0 && SqliteApply(h, g.supply, g.watch[step.i].events).ok
  }

  ghost function SqliteNext(h: Hasher, g: Group, step: SqliteStep): Group
    requires Enabled(g, step.step)
  {
    if !step.step.Finish? then Next(h, g, step.step)
    else
      var a := g.watch[step.step.i];
      if !step.step.leavesAccepted || !Accepts(h, g, a, step.step.block) then g
      else if step.step.stop == 0 then g.(supply := Partial(h, g.supply, a.events, step.writes))
      else if !SqliteApply(h, g.supply, a.events).ok then g.(supply := SqliteApply(h, g.supply, a.events).supply)
      else AfterTrees(g, step.step.i, step.step.block, step.step.stop, step.step.marks,
                      SqliteApply(h, g.supply, a.events).supply)
  }

  ghost function SqliteNextHistory(h: Hasher, s: History, step: SqliteStep): History
    requires Enabled(s.g, step.step)
  {
    var g' := SqliteNext(h, s.g, step);
    if SqliteWrites(h, s.g, step.step) then
      var a := s.g.watch[step.step.i];
      var known := Known(s.g.commits, a.commitment.point);
      History(g', if s.half || known then s.batches else s.batches + [a.events], step.step.stop == 1 && !known, s.ever)
    else if step.step.Stage? then s.(g := g', ever := s.ever + {(step.step.e.ty, step.step.e.key)})
    else s.(g := g')
  }

  ghost predicate SqliteRun(h: Hasher, steps: seq<SqliteStep>)
    decreases |steps|, 0
  {
    steps == [] ||
    (SqliteRun(h, steps[..|steps| - 1]) && Enabled(SqliteAfter(h, steps[..|steps| - 1]).g, steps[|steps| - 1].step))
  }

  ghost function SqliteAfter(h: Hasher, steps: seq<SqliteStep>): History
    requires SqliteRun(h, steps)
    decreases |steps|, 1
  {
    if steps == [] then START else SqliteNextHistory(h, SqliteAfter(h, steps[..|steps| - 1]), steps[|steps| - 1])
  }

  // ----- the invariant: but for the part of a batch, it is that of the memory store -----

  /** The group with the trees as the applied batches leave them. */
  ghost function Clean(h: Hasher, s: History): History {
    s.(g := s.g.(supply := Fold(h, s.batches)))
  }

  ghost predicate SqliteInv(h: Hasher, s: History) {
    && Inv(h, Clean(h, s))
    && (s.g.supply == Fold(h, s.batches) ||
        (|s.g.watch| == 1 && Fresh(h, Clean(h, s), s.g.watch[0])
         && PartOf(h, Fold(h, s.batches), s.g.watch[0].events, s.g.supply)))
  }

  lemma {:induction false} FoldTracks(h: Hasher, bs: seq<seq<SupplyEvent>>)
    requires Applied(h, bs)
    ensures RootTracks(h, Fold(h, bs))
    decreases |bs|
  {
    if bs != [] {
      MemoryTracks(h, Fold(h, bs[..|bs| - 1]), bs[|bs| - 1]);
    } else {
      forall ty
        ensures TreeSum(EMPTY_SUPPLY.subs.Get(ty)) == 0
      {
        match ty
        case Mint =>
        case Burn =>
        case Ignore =>
      }
    }
  }

  /** Nothing of the batch yet is a part of it. */
  lemma NonePart(h: Hasher, u: Supply, es: seq<SupplyEvent>)
    ensures PartOf(h, u, es, u)
  {
    assert es[..0] == [] && Write(u.subs, es[..0]) == u.subs;
  }

  /** With nothing in flight, or something of it stored, the trees are clean. */
  lemma CleanUnlessFresh(h: Hasher, s: History)
    requires SqliteInv(h, s) && (s.g.watch == [] || !Fresh(h, Clean(h, s), s.g.watch[0]))
    ensures s.g.supply == Fold(h, s.batches) && Clean(h, s) == s
  {
  }

  /** Steps that leave trees, watch list and commitments alone. */
  lemma FrameKeeps(h: Hasher, s: History, s': History)
    requires SqliteInv(h, s) && s'.batches == s.batches && s'.half == s.half && Inv(h, Clean(h, s'))
    requires s'.g == s.g.(staged := s'.g.staged, preCommits := s'.g.preCommits)
    ensures SqliteInv(h, s')
  {
  }

  lemma SqliteStageKeeps(h: Hasher, s: History, e: SupplyEvent, writes: nat)
    requires SqliteInv(h, s)
    ensures SqliteInv(h, SqliteNextHistory(h, s, SqliteStep(Stage(e), writes)))
  {
    var s' := SqliteNextHistory(h, s, SqliteStep(Stage(e), writes));
    StageKeeps(h, Clean(h, s), e);
    assert Clean(h, s') == NextHistory(h, Clean(h, s), Stage(e));
    FrameKeeps(h, s, s');
  }

  lemma SqliteAddKeeps(h: Hasher, s: History, point: Point, height: nat, writes: nat)
    requires SqliteInv(h, s) && Enabled(s.g, AddPreCommit(point, height))
    ensures SqliteInv(h, SqliteNextHistory(h, s, SqliteStep(AddPreCommit(point, height), writes)))
  {
    var s' := SqliteNextHistory(h, s, SqliteStep(AddPreCommit(point, height), writes));
    assert Enabled(Clean(h, s).g, AddPreCommit(point, height));
    AddPreCommitKeeps(h, Clean(h, s), point, height);
    assert Clean(h, s') == NextHistory(h, Clean(h, s), AddPreCommit(point, height));
    FrameKeeps(h, s, s');
  }

  lemma SqliteCommitKeeps(h: Hasher, s: History, point: Point, broadcast: bool, writes: nat)
    requires SqliteInv(h, s) && Enabled(s.g, Commit(point, broadcast))
    ensures SqliteInv(h, SqliteNextHistory(h, s, SqliteStep(Commit(point, broadcast), writes)))
  {
    if s.g.watch == [] {
      CleanUnlessFresh(h, s);
      CommitKeeps(h, s, point, broadcast);
    }
  }

  lemma SqliteRestartKeeps(h: Hasher, s: History, writes: nat)
    requires SqliteInv(h, s)
    ensures SqliteNextHistory(h, s, SqliteStep(Restart, writes)) == s
  {
    RestartKeeps(h, Clean(h, s));
    assert Next(h, s.g, Restart).watch == Next(h, Clean(h, s).g, Restart).watch;
  }

  /** A tree step that fails, of itself or of a write, leaves a part of the batch; or nothing new, if it was there. */
  lemma FailedStepKeeps(h: Hasher, s: History, a: SupplyAnchor, n: nat)
    requires SqliteInv(h, s) && s.g.watch == [a]
    ensures SqliteInv(h, s.(g := s.g.(supply := Partial(h, s.g.supply, a.events, n))))
  {
    var u := Fold(h, s.batches);
    assert Clean(h, s).g.watch == [a];
    if Fresh(h, Clean(h, s), a) {
      NonePart(h, u, a.events);
      PartStays(h, u, a.events, s.g.supply, n);
    } else {
      CleanUnlessFresh(h, s);
      FoldTracks(h, s.batches);
      ReplayLast(h, s.batches);
      HeldStays(h, u, a.events, n);
    }
  }

  /** A tree step that succeeds leaves what the memory store's would. */
  lemma StepCompletes(h: Hasher, s: History, a: SupplyAnchor)
    requires SqliteInv(h, s) && s.g.watch == [a] && SqliteApply(h, s.g.supply, a.events).ok
    ensures SqliteApply(h, s.g.supply, a.events).supply == MemoryApply(h, Fold(h, s.batches), a.events).supply
  {
    var u := Fold(h, s.batches);
    assert Clean(h, s).g.watch == [a];
    FoldTracks(h, s.batches);
    if Fresh(h, Clean(h, s), a) {
      NonePart(h, u, a.events);
      RetryCompletes(h, u, a.events, s.g.supply);
    } else {
      CleanUnlessFresh(h, s);
      ReplayLast(h, s.batches);
      HeldStays(h, u, a.events, |a.events| + |Touched(a.events)|);
      AppliedIsPartial(h, u, a.events);
    }
  }

  lemma SqliteFinishFields(h: Hasher, s: History, step: SqliteStep, a: SupplyAnchor)
    requires SqliteInv(h, s) && s.g.watch == [a] && Enabled(s.g, step.step) && SqliteWrites(h, s.g, step.step)
    ensures Finished(h, Clean(h, s), a, step.step.block, step.step.stop, SqliteNextHistory(h, s, step))
  {
    StepCompletes(h, s, a);
    var s' := SqliteNextHistory(h, s, step);
    assert s.g.durable == map[a.commitment.point.txid := a];
    if step.step.stop > 4 {
      assert s'.g.watch == [];
      assert s'.g.durable == map[];
    } else if step.step.stop == 1 {
      assert s'.g.commits == s.g.commits + [];
    }
  }

  lemma SqliteFinishKeeps(h: Hasher, s: History, step: SqliteStep)
    requires SqliteInv(h, s) && Enabled(s.g, step.step) && step.step.Finish?
    ensures SqliteInv(h, SqliteNextHistory(h, s, step))
  {
    var a, s' := s.g.watch[0], SqliteNextHistory(h, s, step);
    assert s.g.watch == [a] && Clean(h, s).g.watch == [a];
    if SqliteWrites(h, s.g, step.step) {
      SqliteFinishFields(h, s, step, a);
      FinishedKeeps(h, Clean(h, s), a, step.step.block, step.step.stop, s');
    } else if step.step.stop == 0 {
      FailedStepKeeps(h, s, a, step.writes);
    } else {
      FailedStepKeeps(h, s, a, |a.events| + |Touched(a.events)|);
      AppliedIsPartial(h, s.g.supply, a.events);
    }
  }

  lemma SqliteStepKeeps(h: Hasher, s: History, step: SqliteStep)
    requires SqliteInv(h, s) && Enabled(s.g, step.step)
    ensures SqliteInv(h, SqliteNextHistory(h, s, step))
  {
    match step.step
    case Stage(e) => SqliteStageKeeps(h, s, e, step.writes);
    case AddPreCommit(point, height) => SqliteAddKeeps(h, s, point, height, step.writes);
    case Commit(point, broadcast) => SqliteCommitKeeps(h, s, point, broadcast, step.writes);
    case Finish(_, _, _, _, _) => SqliteFinishKeeps(h, s, step);
    case Restart => SqliteRestartKeeps(h, s, step.writes);
  }

  /** Over every run, with failures after any write of any tree step, the invariant of the memory store holds. */
  lemma {:induction false} SqliteRunKeeps(h: Hasher, steps: seq<SqliteStep>)
    requires SqliteRun(h, steps)
    ensures SqliteInv(h, SqliteAfter(h, steps))
    decreases |steps|
  {
    if steps != [] {
      SqliteRunKeeps(h, steps[..|steps| - 1]);
      SqliteStepKeeps(h, SqliteAfter(h, steps[..|steps| - 1]), steps[|steps| - 1]);
    }
  }

  // ----- what follows for every run -----

  /**
   * With nothing in flight the stored trees are the fold of the applied batches and the latest commitment carries their
   * root; at all times the stored commitments are one chain.
   */
  lemma SqliteRootsAgree(h: Hasher, steps: seq<SqliteStep>)
    requires SqliteRun(h, steps)
    ensures var s := SqliteAfter(h, steps);
      && Chain(h, s.g.commits, Committed(s))
      && (s.g.watch == [] ==> s.g.supply == Fold(h, s.batches))
      && (s.g.watch == [] && s.g.commits != [] ==>
            s.g.commits[|s.g.commits| - 1].rootHash == h.root(s.g.supply.root))
  {
    SqliteRunKeeps(h, steps);
    var s := SqliteAfter(h, steps);
    ChainLast(h, s.g.commits, Committed(s));
  }

  /** Every place ever staged is still staged or in the stored trees, whatever part of a batch they hold. */
  lemma SqliteNothingVanishes(h: Hasher, steps: seq<SqliteStep>, p: (SubTree, TreeKey))
    requires SqliteRun(h, steps) && p in SqliteAfter(h, steps).ever
    ensures p in Places(SqliteAfter(h, steps).g.staged) || Placed(SqliteAfter(h, steps).g.supply.subs, p)
  {
    SqliteRunKeeps(h, steps);
    var s := SqliteAfter(h, steps);
    if s.g.supply != Fold(h, s.batches) && p !in Places(s.g.staged) {
      var es := s.g.watch[0].events;
      var k :| 0 <= k <= |es| && s.g.supply.subs == Write(Fold(h, s.batches).subs, es[..k]);
      PlacedStays(Fold(h, s.batches).subs, es[..k], p);
    }
  }

  /**
   * In every reachable state, a commitment that is not stored yet and whose tree step may have failed any number of
   * times is accepted, besides the pre-commitments, exactly when it is the first of the group, or the part of the batch
   * that is stored has not changed the root hash and the batch fits once more on top of it.
   */
  lemma TornRetryAcceptedIff(h: Hasher, steps: seq<SqliteStep>, a: SupplyAnchor, block: nat)
    requires SqliteRun(h, steps) && SqliteAfter(h, steps).g.watch == [a]
    requires Fresh(h, Clean(h, SqliteAfter(h, steps)), a)
    ensures var s := SqliteAfter(h, steps);
      Accepts(h, s.g, a, block) <==>
        && RowsAccept(s.g.preCommits, a, block)
        && (|| s.g.commits == []
            || (h.root(s.g.supply.root) == h.root(Fold(h, s.batches).root) && MemoryApply(h, s.g.supply, a.events).ok))
  {
    SqliteRunKeeps(h, steps);
    TornAcceptedIff(h, SqliteAfter(h, steps), a, block);
  }

  /** In particular it is accepted again after failures that came before the first root upsert, while the sums fit. */
  lemma TornInsertsRetried(h: Hasher, steps: seq<SqliteStep>, a: SupplyAnchor, block: nat)
    requires SqliteRun(h, steps) && SqliteAfter(h, steps).g.watch == [a]
    requires Fresh(h, Clean(h, SqliteAfter(h, steps)), a) && RowsAccept(SqliteAfter(h, steps).g.preCommits, a, block)
    requires SqliteAfter(h, steps).g.supply.root == Fold(h, SqliteAfter(h, steps).batches).root
    requires MemoryApply(h, SqliteAfter(h, steps).g.supply, a.events).ok
    ensures Accepts(h, SqliteAfter(h, steps).g, a, block)
  {
    TornRetryAcceptedIff(h, steps, a, block);
  }

  lemma TornAcceptedIff(h: Hasher, s: History, a: SupplyAnchor, block: nat)
    requires SqliteInv(h, s) && s.g.watch == [a] && Fresh(h, Clean(h, s), a)
    ensures Accepts(h, s.g, a, block) <==>
      && RowsAccept(s.g.preCommits, a, block)
      && (|| s.g.commits == []
          || (h.root(s.g.supply.root) == h.root(Fold(h, s.batches).root) && MemoryApply(h, s.g.supply, a.events).ok))
  {
    var u := Fold(h, s.batches);
    ChainLast(h, s.g.commits, s.batches);
    RootAfterIs(h, s.g.supply, a.events);
    RootAfterIs(h, EMPTY_SUPPLY, a.events);
    if MemoryApply(h, s.g.supply, a.events).ok {
      NonePart(h, u, a.events);
      PreviewAgrees(h, u, a.events, s.g.supply);
    }
    if s.g.commits != [] {
      PredecessorRoot(h, Clean(h, s), a);
    }
  }

  /** A follow-up commitment whose tree step failed after it had changed the stored root. */
  ghost predicate TornStuck(h: Hasher, s: History) {
    && SqliteInv(h, s) && |s.g.watch| == 1 && Fresh(h, Clean(h, s), s.g.watch[0]) && s.g.commits != []
    && h.root(s.g.supply.root) != h.root(Fold(h, s.batches).root)
  }

  lemma TornStuckStep(h: Hasher, s: History, step: SqliteStep)
    requires TornStuck(h, s) && Enabled(s.g, step.step)
    ensures var s' := SqliteNextHistory(h, s, step);
      TornStuck(h, s') && s'.g.commits == s.g.commits && s'.g.supply == s.g.supply && s'.g.watch == s.g.watch
  {
    SqliteStepKeeps(h, s, step);
    var a := s.g.watch[0];
    assert s.g.watch == [a];
    match step.step
    case Finish(_, _, block, _, _) => TornAcceptedIff(h, s, a, block);
    case Restart => SqliteRestartKeeps(h, s, step.writes);
    case _ =>
  }

  ghost predicate SqliteRunFrom(h: Hasher, s: History, steps: seq<SqliteStep>)
    decreases |steps|
  {
    steps == [] || (Enabled(s.g, steps[0].step) && SqliteRunFrom(h, SqliteNextHistory(h, s, steps[0]), steps[1..]))
  }

  ghost function SqliteAfterFrom(h: Hasher, s: History, steps: seq<SqliteStep>): History
    requires SqliteRunFrom(h, s, steps)
    decreases |steps|
  {
    if steps == [] then s else SqliteAfterFrom(h, SqliteNextHistory(h, s, steps[0]), steps[1..])
  }

  /** From there no run leads out: the verifier keeps comparing a part of the batch with the commitment before it. */
  lemma {:induction false} TornStuckForever(h: Hasher, s: History, steps: seq<SqliteStep>)
    requires TornStuck(h, s) && SqliteRunFrom(h, s, steps)
    ensures var s' := SqliteAfterFrom(h, s, steps);
      TornStuck(h, s') && s'.g.commits == s.g.commits && s'.g.supply == s.g.supply && s'.g.watch == s.g.watch
    decreases |steps|
  {
    if steps != [] {
      TornStuckStep(h, s, steps[0]);
      TornStuckForever(h, SqliteNextHistory(h, s, steps[0]), steps[1..]);
    }
  }

  /** One failed write gets there: any that comes after an upsert which changes the root hash. */
  lemma FailedUpsertSticks(h: Hasher, s: History, a: SupplyAnchor, block: nat, n: nat)
    requires SqliteInv(h, s) && s.g.watch == [a] && Fresh(h, Clean(h, s), a) && s.g.commits != []
    requires Accepts(h, s.g, a, block)
    requires h.root(Partial(h, s.g.supply, a.events, n).root) != h.root(Fold(h, s.batches).root)
    ensures TornStuck(h, SqliteNextHistory(h, s, SqliteStep(Finish(0, true, block, 0, 0), n)))
  {
    FailedStepKeeps(h, s, a, n);
  }
}
