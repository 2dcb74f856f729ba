/** When the 64-bit sums cannot overflow: then both tree stores accept a batch, and agree on it. */
module SupplyHeadroom {
  import opened Prelude
  import opened Sums
  import opened Listings
  import opened SupplyTree
  import opened SupplyRoot

  ghost function AllSums(s: SubTrees): int {
    TreeSum(s.mint) + TreeSum(s.burn) + TreeSum(s.ignore)
  }

  function LeafSum(e: SupplyEvent): int {
    e.leaf.sum
  }

  /** Writing a leaf raises the sum of its tree by at most the leaf's. */
  lemma WriteRaisesSum<K>(t: map<K, Leaf>, k: K, leaf: Leaf)
    ensures TreeSum(t[k := leaf]) <= TreeSum(t) + leaf.sum
  {
    var t' := t[k := leaf];
    var w, w' := (x: K) => if x in t then t[x].sum else 0, (x: K) => if x in t' then t'[x].sum else 0;
    SumSplit(t'.Keys, w', k);
    SumCongruent(t'.Keys - {k}, w', w);
    if k in t {
      SumSplit(t.Keys, w, k);
      assert t'.Keys == t.Keys;
    } else {
      assert t'.Keys - {k} == t.Keys;
    }
  }

  lemma WriteOneRaises(s: SubTrees, e: SupplyEvent)
    ensures AllSums(WriteOne(s, e)) <= AllSums(s) + e.leaf.sum
    ensures TreeSum(s.Get(e.ty)) <= AllSums(s)
  {
    WriteRaisesSum(s.Get(e.ty), e.key, e.leaf);
    TreeSumNonNegative(s.mint);
    TreeSumNonNegative(s.burn);
    TreeSumNonNegative(s.ignore);
  }

  lemma {:induction false} ApplyFits(s: SubTrees, es: seq<SupplyEvent>)
    requires AllSums(s) + Total(es, LeafSum) < U64_LIMIT
    ensures Apply(s, es).Some? && AllSums(Apply(s, es).value) <= AllSums(s) + Total(es, LeafSum)
    decreases |es|
  {
    if es != [] {
      ApplyFits(s, es[..|es| - 1]);
      WriteOneRaises(Apply(s, es[..|es| - 1]).value, es[|es| - 1]);
    }
  }

  ghost predicate RootBelow(root: RootTree, m: int) {
    forall ty :: ty in root ==> root[ty].sum <= m
  }

  lemma RootSum(root: RootTree, m: nat)
    requires RootBelow(root, m)
    ensures TreeSum(root) <= 3 * m
  {
    RootTotal(root);
  }

  lemma {:induction false} UpsertFits(h: Hasher, root: RootTree, subs: SubTrees, tys: seq<SubTree>, m: nat)
    requires RootBelow(root, m) && 4 * m < U64_LIMIT && forall ty :: TreeSum(subs.Get(ty)) <= m
    ensures Upsert(h, root, subs, tys).ok && RootBelow(Upsert(h, root, subs, tys).root, m)
    decreases |tys|
  {
    if tys != [] {
      UpsertFits(h, root, subs, tys[..|tys| - 1], m);
      RootSum(Upsert(h, root, subs, tys[..|tys| - 1]).root, m);
    }
  }

  /** While four times everything stored and to be stored fits in 64 bits, both stores accept, and they agree. */
  lemma BothStoresAccept(h: Hasher, s: Supply, es: seq<SupplyEvent>, m: nat)
    requires RootTracks(h, s) && RootBelow(s.root, m)
    requires AllSums(s.subs) + Total(es, LeafSum) <= m && 4 * m < U64_LIMIT
    ensures MemoryApply(h, s, es).ok && SqliteApply(h, s, es) == MemoryApply(h, s, es)
  {
    ApplyFits(s.subs, es);
    InsertEachApplies(s.subs, es);
    var subs := Apply(s.subs, es).value;
    forall ty
      ensures TreeSum(subs.Get(ty)) <= m
    {
      TreeSumNonNegative(subs.mint);
      TreeSumNonNegative(subs.burn);
      TreeSumNonNegative(subs.ignore);
    }
    UpsertFits(h, s.root, subs, ALL_SUB_TREES, m);
    UpsertFits(h, s.root, subs, Touched(es), m);
    StoresAgree(h, s, es);
  }

  // ----- exactly when a store accepts a batch -----

  /** What the root tree counts for a sub-tree. */
  function EntrySum(root: RootTree, ty: SubTree): nat {
    if ty in root then root[ty].sum else 0
  }

  lemma RootTotal(root: RootTree)
    ensures TreeSum(root) == EntrySum(root, Mint) + EntrySum(root, Burn) + EntrySum(root, Ignore)
  {
    var w := (ty: SubTree) => if ty in root then root[ty].sum else 0;
    var all := {Mint, Burn, Ignore};
    assert root.Keys <= all by {
      forall ty | ty in root
        ensures ty in all
      {
        AllListed(ty);
      }
    }
    SumSupport(root.Keys, all, w);
    SumSplit(all, w, Mint);
    SumSplit(all - {Mint}, w, Burn);
    assert all - {Mint} - {Burn} == {Ignore};
    SumSplit({Ignore}, w, Ignore);
    assert {Ignore} - {Ignore} == {};
  }

  /** What it counts for a sub-tree once the listed ones are upserted: empty sub-trees are skipped. */
  ghost function SumAfter(root: RootTree, subs: SubTrees, done: seq<SubTree>, ty: SubTree): int {
    if ty in done && TreeSum(subs.Get(ty)) != 0 then TreeSum(subs.Get(ty)) else EntrySum(root, ty)
  }

  ghost function RootSumAfter(root: RootTree, subs: SubTrees, done: seq<SubTree>): int {
    SumAfter(root, subs, done, Mint) + SumAfter(root, subs, done, Burn) + SumAfter(root, subs, done, Ignore)
  }

  /** Every upsert finds room: the sum at the time, and the new sum on top of the old one it replaces. */
  ghost predicate FitInTurn(root: RootTree, subs: SubTrees, tys: seq<SubTree>) {
    forall j :: 0 <= j < |tys| && TreeSum(subs.Get(tys[j])) != 0 ==>
      RootSumAfter(root, subs, tys[..j]) + TreeSum(subs.Get(tys[j])) < U64_LIMIT
  }

  lemma FitSnoc(root: RootTree, subs: SubTrees, front: seq<SubTree>, ty: SubTree)
    ensures FitInTurn(root, subs, front + [ty]) <==>
      && FitInTurn(root, subs, front)
      && (TreeSum(subs.Get(ty)) != 0 ==> RootSumAfter(root, subs, front) + TreeSum(subs.Get(ty)) < U64_LIMIT)
  {
    var tys := front + [ty];
    assert forall j :: 0 <= j < |front| ==> tys[..j] == front[..j] && tys[j] == front[j];
    assert tys[..|front|] == front && tys[|front|] == ty;
    if FitInTurn(root, subs, tys) {
      forall j | 0 <= j < |front| && TreeSum(subs.Get(front[j])) != 0
        ensures RootSumAfter(root, subs, front[..j]) + TreeSum(subs.Get(front[j])) < U64_LIMIT
      {
        assert tys[j] == front[j];
      }
    }
  }

  lemma UpsertedSum(h: Hasher, root: RootTree, subs: SubTrees, tys: seq<SubTree>)
    requires Upsert(h, root, subs, tys).ok
    ensures TreeSum(Upsert(h, root, subs, tys).root) == RootSumAfter(root, subs, tys)
  {
    var after := Upsert(h, root, subs, tys).root;
    RootTotal(after);
    forall ty
      ensures EntrySum(after, ty) == SumAfter(root, subs, tys, ty)
    {
      UpsertEffect(h, root, subs, tys, ty);
    }
  }

  lemma {:induction false} UpsertOkIff(h: Hasher, root: RootTree, subs: SubTrees, tys: seq<SubTree>)
    ensures Upsert(h, root, subs, tys).ok <==> FitInTurn(root, subs, tys)
    decreases |tys|
  {
    if tys != [] {
      var front, last := tys[..|tys| - 1], tys[|tys| - 1];
      assert tys == front + [last];
      UpsertOkIff(h, root, subs, front);
      FitSnoc(root, subs, front, last);
      if Upsert(h, root, subs, front).ok {
        UpsertedSum(h, root, subs, front);
      }
    }
  }

  /**
   * Exactly when each store accepts a batch. They insert the same leaves under the same checks; the memory store then
   * upserts every sub-tree in a fixed order, the SQLite store those of the batch in the order of the batch.
   */
  lemma StoresAcceptIff(h: Hasher, s: Supply, es: seq<SupplyEvent>)
    ensures MemoryApply(h, s, es).ok <==>
      Apply(s.subs, es).Some? && FitInTurn(s.root, Write(s.subs, es), ALL_SUB_TREES)
    ensures SqliteApply(h, s, es).ok <==>
      Apply(s.subs, es).Some? && FitInTurn(s.root, Write(s.subs, es), Touched(es))
  {
    InsertEachApplies(s.subs, es);
    if Apply(s.subs, es).Some? {
      ApplyWrites(s.subs, es);
      UpsertOkIff(h, s.root, Write(s.subs, es), ALL_SUB_TREES);
      UpsertOkIff(h, s.root, Write(s.subs, es), Touched(es));
    }
  }

  /**
   * So the stores can differ: with as much minted as fits twice, a burn is accepted by the SQLite store, and the memory
   * store refuses it because it counts the mints once more.
   */
  lemma StoresDiffer(h: Hasher) returns (s: Supply, es: seq<SupplyEvent>)
    ensures RootTracks(h, s) && SqliteApply(h, s, es).ok && !MemoryApply(h, s, es).ok
  {
    var half := U64_LIMIT / 2;
    var t, burns := map[TreeKey(1) := Leaf(0, half)], map[TreeKey(2) := Leaf(0, 1)];
    s := Supply(map[Mint := Leaf(h.sub(t), half)], SubTrees(t, map[], map[]));
    es := [SupplyEvent(Burn, TreeKey(2), Leaf(0, 1))];
    OneLeaf(TreeKey(1), Leaf(0, half));
    OneLeaf(TreeKey(2), Leaf(0, 1));
    MintsTracked(h, s);
    OneInsert(s.subs, es[0]);
    StoresAcceptIff(h, s, es);
    MintsCountTwice(s.root, SubTrees(t, burns, map[]), half);
  }

  lemma MintsTracked(h: Hasher, s: Supply)
    requires s.subs.burn == map[] && s.subs.ignore == map[]
    requires Mint in s.root && s.root[Mint] == SubLeaf(h, s.subs.mint)
    ensures RootTracks(h, s)
  {
    forall ty
      ensures TreeSum(s.subs.Get(ty)) != 0 ==> ty == Mint
    {
      match ty
      case Mint =>
      case Burn =>
      case Ignore =>
    }
  }

  lemma OneInsert(s: SubTrees, e: SupplyEvent)
    requires Fits(s.Get(e.ty), e.leaf)
    ensures Apply(s, [e]) == Some(WriteOne(s, e)) && Write(s, [e]) == WriteOne(s, e) && Touched([e]) == [e.ty]
  {
    assert [e][..0] == [];
  }

  lemma MintsCountTwice(root: RootTree, subs: SubTrees, m: nat)
    requires root.Keys == {Mint} && root[Mint].sum == m && TreeSum(subs.mint) == m && TreeSum(subs.burn) == 1
    requires U64_LIMIT <= 2 * m && m + 1 < U64_LIMIT
    ensures !FitInTurn(root, subs, ALL_SUB_TREES) && FitInTurn(root, subs, [Burn])
  {
    assert RootSumAfter(root, subs, []) == m;
    assert ALL_SUB_TREES[0] == Mint && ALL_SUB_TREES[..0] == [] && [Burn][..0] == [];
  }

  lemma OneLeaf<K>(k: K, leaf: Leaf)
    ensures TreeSum(map[k := leaf]) == leaf.sum
  {
    var t := map[k := leaf];
    SumSplit(t.Keys, x => if x in t then t[x].sum else 0, k);
    assert t.Keys - {k} == {};
  }
}
