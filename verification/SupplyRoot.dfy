/**
 * Applying a batch to the stored trees of a group, in the two ways the stores do it: the in-memory store refreshes
 * every sub-tree root in the root tree, the SQLite store only those the batch touched.
 */
module SupplyRoot {
  import opened Prelude
  import opened SupplyTree

  /** The root-tree leaf that commits to a sub-tree. */
  ghost function SubLeaf(h: Hasher, t: Tree): Leaf {
    TreeSumNonNegative(t);
    Leaf(h.sub(t), TreeSum(t))
  }

  datatype RootOutcome = RootOutcome(ok: bool, root: RootTree)

  /** Upserts one sub-tree root unless an earlier upsert failed; an empty sub-tree is skipped. */
  ghost function UpsertOne(h: Hasher, r: RootOutcome, sub: Tree, ty: SubTree): RootOutcome {
    if !r.ok || TreeSum(sub) == 0 then r
    else if Fits(r.root, SubLeaf(h, sub)) then RootOutcome(true, r.root[ty := SubLeaf(h, sub)])
    else RootOutcome(false, r.root)
  }

  /** Upserts the listed sub-tree roots in turn, stopping at the first overflow. */
  ghost function Upsert(h: Hasher, root: RootTree, subs: SubTrees, tys: seq<SubTree>): RootOutcome {
    if tys == [] then RootOutcome(true, root)
    else
      var ty := tys[|tys| - 1];
      UpsertOne(h, Upsert(h, root, subs, tys[..|tys| - 1]), subs.Get(ty), ty)
  }

  const ALL_SUB_TREES := [Mint, Burn, Ignore]

  lemma AllListed(ty: SubTree)
    ensures ty in ALL_SUB_TREES
  {
    match ty
    case Mint => assert ALL_SUB_TREES[0] == ty;
    case Burn => assert ALL_SUB_TREES[1] == ty;
    case Ignore => assert ALL_SUB_TREES[2] == ty;
  }

  lemma UpsertAll(h: Hasher, root: RootTree, subs: SubTrees)
    ensures Upsert(h, root, subs, ALL_SUB_TREES)
         == UpsertOne(h, UpsertOne(h, UpsertOne(h, RootOutcome(true, root), subs.mint, Mint), subs.burn, Burn),
                      subs.ignore, Ignore)
  {
    assert [Mint][..0] == [] && [Mint, Burn][..1] == [Mint] && ALL_SUB_TREES[..2] == [Mint, Burn];
    assert Upsert(h, root, subs, [Mint]) == UpsertOne(h, Upsert(h, root, subs, []), subs.mint, Mint);
    assert Upsert(h, root, subs, [Mint, Burn]) == UpsertOne(h, Upsert(h, root, subs, [Mint]), subs.burn, Burn);
  }

  /** Whether the batch was applied, and what is stored afterwards either way. */
  datatype Outcome = Outcome(ok: bool, supply: Supply)

  ghost function MemoryApply(h: Hasher, s: Supply, es: seq<SupplyEvent>): Outcome {
    match Apply(s.subs, es)
    case None => Outcome(false, s)
    case Some(subs) =>
      var r := Upsert(h, s.root, subs, ALL_SUB_TREES);
      if r.ok then Outcome(true, Supply(r.root, subs)) else Outcome(false, Supply(r.root, s.subs))
  }

  /** Each leaf is persisted as it is inserted, so a failure keeps the inserts before it. */
  ghost function InsertEach(s: SubTrees, es: seq<SupplyEvent>): (bool, SubTrees) {
    if es == [] then (true, s)
    else
      var r := InsertEach(s, es[..|es| - 1]);
      match (if r.0 then ApplyOne(r.1, es[|es| - 1]) else None)
      case None => (false, r.1)
      case Some(t) => (true, t)
  }

  /** The sub-tree types of a batch, in order of first occurrence. */
  function Touched(es: seq<SupplyEvent>): seq<SubTree> {
    if es == [] then []
    else
      var t := Touched(es[..|es| - 1]);
      if es[|es| - 1].ty in t then t else t + [es[|es| - 1].ty]
  }

  ghost function SqliteApply(h: Hasher, s: Supply, es: seq<SupplyEvent>): Outcome {
    var (ok, subs) := InsertEach(s.subs, es);
    if !ok then Outcome(false, s.(subs := subs))
    else
      var r := Upsert(h, s.root, subs, Touched(es));
      Outcome(r.ok, Supply(r.root, subs))
  }

  /** The root tree is current: it commits to every sub-tree that holds anything. */
  ghost predicate RootTracks(h: Hasher, s: Supply) {
    forall ty :: TreeSum(s.subs.Get(ty)) != 0 ==> ty in s.root && s.root[ty] == SubLeaf(h, s.subs.Get(ty))
  }

  lemma {:induction false} UpsertEffect(h: Hasher, root: RootTree, subs: SubTrees, tys: seq<SubTree>, ty: SubTree)
    requires Upsert(h, root, subs, tys).ok
    ensures var after := Upsert(h, root, subs, tys).root;
      if ty in tys && TreeSum(subs.Get(ty)) != 0 then ty in after && after[ty] == SubLeaf(h, subs.Get(ty))
      else (ty in after <==> ty in root) && (ty in after ==> after[ty] == root[ty])
    decreases |tys|
  {
    if tys != [] {
      var front, last := tys[..|tys| - 1], tys[|tys| - 1];
      assert tys == front + [last];
      UpsertEffect(h, root, subs, front, ty);
    }
  }

  /** Upserting roots that are already there changes nothing, even when it stops half way. */
  lemma {:induction false} UpsertCurrent(h: Hasher, s: Supply, tys: seq<SubTree>)
    requires RootTracks(h, s)
    ensures Upsert(h, s.root, s.subs, tys).root == s.root
    ensures Upsert(h, s.root, s.subs, tys).ok <==>
      forall ty :: ty in tys && TreeSum(s.subs.Get(ty)) != 0 ==> Fits(s.root, SubLeaf(h, s.subs.Get(ty)))
    decreases |tys|
  {
    if tys != [] {
      var front, last := tys[..|tys| - 1], tys[|tys| - 1];
      assert tys == front + [last];
      UpsertCurrent(h, s, front);
    }
  }

  lemma {:induction false} InsertEachApplies(s: SubTrees, es: seq<SupplyEvent>)
    ensures InsertEach(s, es).0 <==> Apply(s, es).Some?
    ensures Apply(s, es).Some? ==> InsertEach(s, es).1 == Apply(s, es).value
    decreases |es|
  {
    if es != [] {
      InsertEachApplies(s, es[..|es| - 1]);
    }
  }

  /** A sub-tree a batch does not touch stays as it was. */
  lemma {:induction false} UntouchedUnchanged(s: SubTrees, es: seq<SupplyEvent>, ty: SubTree)
    requires Apply(s, es).Some? && ty !in Touched(es)
    ensures Apply(s, es).value.Get(ty) == s.Get(ty)
    decreases |es|
  {
    if es != [] {
      UntouchedUnchanged(s, es[..|es| - 1], ty);
    }
  }

  /** The memory store always leaves a current root behind. */
  lemma MemoryTracks(h: Hasher, s: Supply, es: seq<SupplyEvent>)
    requires MemoryApply(h, s, es).ok
    ensures RootTracks(h, MemoryApply(h, s, es).supply)
    ensures MemoryApply(h, s, es).supply.subs == Write(s.subs, es)
  {
    var subs := Apply(s.subs, es).value;
    ApplyWrites(s.subs, es);
    forall ty
      ensures TreeSum(subs.Get(ty)) != 0 ==>
        ty in MemoryApply(h, s, es).supply.root
        && MemoryApply(h, s, es).supply.root[ty] == SubLeaf(h, subs.Get(ty))
    {
      UpsertEffect(h, s.root, subs, ALL_SUB_TREES, ty);
      AllListed(ty);
    }
  }

  /**
   * The two stores agree: from a current root, whenever both accept a batch they end with the same sub-trees and the
   * same root tree, hence the same hash and sum, and the root is current again.
   */
  lemma StoresAgree(h: Hasher, s: Supply, es: seq<SupplyEvent>)
    requires RootTracks(h, s)
    requires MemoryApply(h, s, es).ok && SqliteApply(h, s, es).ok
    ensures MemoryApply(h, s, es) == SqliteApply(h, s, es)
    ensures RootTracks(h, SqliteApply(h, s, es).supply)
  {
    InsertEachApplies(s.subs, es);
    MemoryTracks(h, s, es);
    var subs := Apply(s.subs, es).value;
    var m, q := Upsert(h, s.root, subs, ALL_SUB_TREES).root, Upsert(h, s.root, subs, Touched(es)).root;
    forall ty
      ensures (ty in m <==> ty in q) && (ty in m ==> m[ty] == q[ty])
    {
      UpsertEffect(h, s.root, subs, ALL_SUB_TREES, ty);
      UpsertEffect(h, s.root, subs, Touched(es), ty);
      if ty !in Touched(es) {
        UntouchedUnchanged(s.subs, es, ty);
      }
    }
    assert m == q;
  }

  /**
   * Replaying an applied batch never changes what is stored. It succeeds exactly when every leaf, and every sub-tree
   * root, still fits on top of the finished sums.
   */
  lemma ReplayOutcome(h: Hasher, s: Supply, es: seq<SupplyEvent>)
    requires UniquePlaces(es) && MemoryApply(h, s, es).ok
    ensures var done := MemoryApply(h, s, es).supply;
      && MemoryApply(h, done, es).supply == done
      && (MemoryApply(h, done, es).ok <==>
            ReplayFits(done.subs, es)
            && forall ty :: TreeSum(done.subs.Get(ty)) != 0 ==> Fits(done.root, SubLeaf(h, done.subs.Get(ty))))
  {
    var done := MemoryApply(h, s, es).supply;
    MemoryTracks(h, s, es);
    WriteHolds(s.subs, es);
    ReplayIff(done.subs, es);
    UpsertCurrent(h, done, ALL_SUB_TREES);
    forall ty: SubTree
      ensures ty in ALL_SUB_TREES
    {
      AllListed(ty);
    }
  }
}
