/**
 * The supply trees of one asset group: mint, burn and ignore sub-trees, and the root tree that commits to them.
 * A merkle-sum tree is the map of its leaves; its hash is a function of that map, supplied from outside.
 */
module SupplyTree {
  import opened Prelude
  import opened Sums

  datatype SubTree = Mint | Burn | Ignore

  datatype TreeKey = TreeKey(id: nat)

  // The value bytes of a supply leaf are an encoded proof or tuple, hence never the empty leaf that deletes.
  datatype Leaf = Leaf(value: nat, sum: nat)

  type Tree = map<TreeKey, Leaf>
  type RootTree = map<SubTree, Leaf>

  /** The hashes of sub-trees and of root trees. */
  datatype Hasher = Hasher(sub: Tree -> nat, root: RootTree -> nat)

  datatype SubTrees = SubTrees(mint: Tree, burn: Tree, ignore: Tree) {
    function Get(ty: SubTree): Tree {
      match ty case Mint => mint case Burn => burn case Ignore => ignore
    }
    function Put(ty: SubTree, t: Tree): SubTrees {
      match ty case Mint => this.(mint := t) case Burn => this.(burn := t) case Ignore => this.(ignore := t)
    }
  }

  /** Everything stored for a group. */
  datatype Supply = Supply(root: RootTree, subs: SubTrees)

  datatype SupplyEvent = SupplyEvent(ty: SubTree, key: TreeKey, leaf: Leaf)

  const EMPTY_SUBS := SubTrees(map[], map[], map[])
  const EMPTY_SUPPLY := Supply(map[], EMPTY_SUBS)

  // ----- sums -----

  ghost function TreeSum<K>(t: map<K, Leaf>): int {
    Sum(t.Keys, k => if k in t then t[k].sum else 0)
  }

  lemma TreeSumNonNegative<K>(t: map<K, Leaf>)
    ensures 0 <= TreeSum(t)
  {
    SumNonNegative(t.Keys, k => if k in t then t[k].sum else 0);
  }

  /** The sum a root node carries. */
  method NodeSum<K(==)>(t: map<K, Leaf>) returns (s: nat)
    ensures s == TreeSum(t)
  {
    ghost var w := k => if k in t then t[k].sum else 0;
    s := 0;
    var todo := t.Keys;
    while todo != {}
      invariant todo <= t.Keys
      invariant s == Sum(t.Keys, w) - Sum(todo, w)
    {
      var k :| k in todo;
      SumSplit(todo, w, k);
      s := s + t[k].sum;
      todo := todo - {k};
    }
  }

  // ----- inserting leaves -----

  /** The overflow check adds the new leaf to the current sum, even when it replaces a leaf. */
  ghost predicate Fits<K>(t: map<K, Leaf>, leaf: Leaf) {
    TreeSum(t) + leaf.sum < U64_LIMIT
  }

  function WriteOne(s: SubTrees, e: SupplyEvent): SubTrees {
    s.Put(e.ty, s.Get(e.ty)[e.key := e.leaf])
  }

  ghost function ApplyOne(s: SubTrees, e: SupplyEvent): Option<SubTrees> {
    if Fits(s.Get(e.ty), e.leaf) then Some(WriteOne(s, e)) else None
  }

  /** The sub-trees after a batch of updates, or nothing if some sum overflows on the way. */
  ghost function Apply(s: SubTrees, es: seq<SupplyEvent>): Option<SubTrees> {
    if es == [] then Some(s)
    else
      match Apply(s, es[..|es| - 1])
      case None => None
      case Some(t) => ApplyOne(t, es[|es| - 1])
  }

  /** The same without the overflow check. */
  function Write(s: SubTrees, es: seq<SupplyEvent>): SubTrees {
    if es == [] then s else WriteOne(Write(s, es[..|es| - 1]), es[|es| - 1])
  }

  lemma {:induction false} ApplyWrites(s: SubTrees, es: seq<SupplyEvent>)
    requires Apply(s, es).Some?
    ensures Apply(s, es).value == Write(s, es)
    decreases |es|
  {
    if es != [] {
      ApplyWrites(s, es[..|es| - 1]);
    }
  }

  /** Applying one batch and then another is applying the two in one go, overflow included. */
  lemma {:induction false} ApplyConcat(s: SubTrees, a: seq<SupplyEvent>, b: seq<SupplyEvent>)
    ensures Apply(s, a + b) == match Apply(s, a) case None => None case Some(t) => Apply(t, b)
    decreases |b|
  {
    if b == [] {
      assert a + b == a;
    } else {
      ApplyConcat(s, a, b[..|b| - 1]);
      assert (a + b)[..|a + b| - 1] == a + b[..|b| - 1];
    }
  }

  // ----- what a batch leaves behind -----

  /** The leaf a batch leaves at a place: that of the last update to it. */
  function LastWrite(es: seq<SupplyEvent>, ty: SubTree, k: TreeKey): Option<Leaf> {
    if es == [] then None
    else if es[|es| - 1].ty == ty && es[|es| - 1].key == k then Some(es[|es| - 1].leaf)
    else LastWrite(es[..|es| - 1], ty, k)
  }

  lemma {:induction false} WriteEffect(s: SubTrees, es: seq<SupplyEvent>, ty: SubTree, k: TreeKey)
    ensures var t := Write(s, es).Get(ty);
      match LastWrite(es, ty, k)
      case Some(leaf) => k in t && t[k] == leaf
      case None => (k in t <==> k in s.Get(ty)) && (k in t ==> t[k] == s.Get(ty)[k])
    decreases |es|
  {
    if es != [] {
      WriteEffect(s, es[..|es| - 1], ty, k);
    }
  }

  lemma SubTreesEqual(a: SubTrees, b: SubTrees)
    requires forall ty, k :: (k in a.Get(ty) <==> k in b.Get(ty)) && (k in a.Get(ty) ==> a.Get(ty)[k] == b.Get(ty)[k])
    ensures a == b
  {
    assert a.Get(Mint) == b.Get(Mint);
    assert a.Get(Burn) == b.Get(Burn);
    assert a.Get(Ignore) == b.Get(Ignore);
  }

  /** Writing a batch again changes nothing. */
  lemma WriteTwice(s: SubTrees, es: seq<SupplyEvent>)
    ensures Write(Write(s, es), es) == Write(s, es)
  {
    forall ty, k
      ensures (k in Write(Write(s, es), es).Get(ty) <==> k in Write(s, es).Get(ty))
      ensures k in Write(s, es).Get(ty) ==> Write(Write(s, es), es).Get(ty)[k] == Write(s, es).Get(ty)[k]
    {
      WriteEffect(s, es, ty, k);
      WriteEffect(Write(s, es), es, ty, k);
    }
    SubTreesEqual(Write(Write(s, es), es), Write(s, es));
  }

  // ----- batches with one update per place, as the staging queue holds them -----

  function Places(es: seq<SupplyEvent>): set<(SubTree, TreeKey)> {
    set e | e in es :: (e.ty, e.key)
  }

  ghost predicate UniquePlaces(es: seq<SupplyEvent>) {
    es == [] ||
    (UniquePlaces(es[..|es| - 1]) && (es[|es| - 1].ty, es[|es| - 1].key) !in Places(es[..|es| - 1]))
  }

  /** The updates are already in the trees. */
  ghost predicate Holds(s: SubTrees, es: seq<SupplyEvent>) {
    forall e :: e in es ==> e.key in s.Get(e.ty) && s.Get(e.ty)[e.key] == e.leaf
  }

  lemma {:induction false} WriteHolds(s: SubTrees, es: seq<SupplyEvent>)
    requires UniquePlaces(es)
    ensures Holds(Write(s, es), es)
    decreases |es|
  {
    if es != [] {
      var front, last := es[..|es| - 1], es[|es| - 1];
      WriteHolds(s, front);
      assert es == front + [last];
      forall e | e in front
        ensures (e.ty, e.key) != (last.ty, last.key)
      {
        assert (e.ty, e.key) in Places(front);
      }
    }
  }

  /** A replayed batch still has room for every one of its leaves on top of the finished sums. */
  ghost predicate ReplayFits(s: SubTrees, es: seq<SupplyEvent>) {
    forall e :: e in es ==> Fits(s.Get(e.ty), e.leaf)
  }

  /** Replaying a batch that is already in the trees changes nothing, and succeeds exactly when it fits once more. */
  lemma {:induction false} ReplayIff(s: SubTrees, es: seq<SupplyEvent>)
    requires Holds(s, es)
    ensures Apply(s, es) == if ReplayFits(s, es) then Some(s) else None
    decreases |es|
  {
    if es != [] {
      var front, last := es[..|es| - 1], es[|es| - 1];
      assert es == front + [last];
      ReplayIff(s, front);
      assert WriteOne(s, last) == s by {
        assert s.Get(last.ty)[last.key := last.leaf] == s.Get(last.ty);
      }
    }
  }

  // ----- one sub-tree at a time: the order across sub-trees does not matter -----

  function OfType(es: seq<SupplyEvent>, ty: SubTree): seq<SupplyEvent> {
    if es == [] then []
    else OfType(es[..|es| - 1], ty) + (if es[|es| - 1].ty == ty then [es[|es| - 1]] else [])
  }

  ghost function ApplyTree(t: Tree, es: seq<SupplyEvent>): Option<Tree> {
    if es == [] then Some(t)
    else
      match ApplyTree(t, es[..|es| - 1])
      case None => None
      case Some(u) => if Fits(u, es[|es| - 1].leaf) then Some(u[es[|es| - 1].key := es[|es| - 1].leaf]) else None
  }

  ghost function Join(mint: Option<Tree>, burn: Option<Tree>, ignore: Option<Tree>): Option<SubTrees> {
    if mint.Some? && burn.Some? && ignore.Some? then Some(SubTrees(mint.value, burn.value, ignore.value)) else None
  }

  lemma ApplyTreeSnoc(t: Tree, es: seq<SupplyEvent>, e: SupplyEvent)
    ensures ApplyTree(t, es + [e]) ==
      match ApplyTree(t, es)
      case None => None
      case Some(u) => if Fits(u, e.leaf) then Some(u[e.key := e.leaf]) else None
  {
    assert (es + [e])[..|es|] == es;
  }

  /** A batch acts on each sub-tree through its own updates only, in their own order. */
  lemma {:induction false} ApplyByType(s: SubTrees, es: seq<SupplyEvent>)
    ensures Apply(s, es)
         == Join(ApplyTree(s.mint, OfType(es, Mint)), ApplyTree(s.burn, OfType(es, Burn)),
                 ApplyTree(s.ignore, OfType(es, Ignore)))
    decreases |es|
  {
    if es != [] {
      var front, last := es[..|es| - 1], es[|es| - 1];
      ApplyByType(s, front);
      ApplyTreeSnoc(s.Get(last.ty), OfType(front, last.ty), last);
      match last.ty
      case Mint =>
        assert OfType(es, Burn) == OfType(front, Burn) && OfType(es, Ignore) == OfType(front, Ignore);
      case Burn =>
        assert OfType(es, Mint) == OfType(front, Mint) && OfType(es, Ignore) == OfType(front, Ignore);
      case Ignore =>
        assert OfType(es, Mint) == OfType(front, Mint) && OfType(es, Burn) == OfType(front, Burn);
    }
  }

  lemma {:induction false} OfTypeConcat(a: seq<SupplyEvent>, b: seq<SupplyEvent>, ty: SubTree)
    ensures OfType(a + b, ty) == OfType(a, ty) + OfType(b, ty)
    decreases |b|
  {
    if b == [] {
      assert a + b == a;
    } else {
      OfTypeConcat(a, b[..|b| - 1], ty);
      assert (a + b)[..|a + b| - 1] == a + b[..|b| - 1];
    }
  }

  lemma {:induction false} OfTypeTwice(es: seq<SupplyEvent>, ty: SubTree, other: SubTree)
    ensures OfType(OfType(es, ty), other) == if ty == other then OfType(es, ty) else []
    decreases |es|
  {
    if es != [] {
      var last := es[|es| - 1];
      OfTypeTwice(es[..|es| - 1], ty, other);
      if last.ty == ty {
        OfTypeConcat(OfType(es[..|es| - 1], ty), [last], other);
        assert [last][..0] == [];
      } else {
        assert OfType(es, ty) == OfType(es[..|es| - 1], ty);
      }
    }
  }

  /** The order in which the verifier lists a batch: mints, then burns, then ignores. */
  function Grouped(es: seq<SupplyEvent>): seq<SupplyEvent> {
    OfType(es, Mint) + OfType(es, Burn) + OfType(es, Ignore)
  }

  lemma GroupedOfType(es: seq<SupplyEvent>, ty: SubTree)
    ensures OfType(Grouped(es), ty) == OfType(es, ty)
  {
    var mints, burns, ignores := OfType(es, Mint), OfType(es, Burn), OfType(es, Ignore);
    OfTypeConcat(mints + burns, ignores, ty);
    OfTypeConcat(mints, burns, ty);
    OfTypeTwice(es, Mint, ty);
    OfTypeTwice(es, Burn, ty);
    OfTypeTwice(es, Ignore, ty);
    match ty
    case Mint => assert mints + [] + [] == mints;
    case Burn => assert [] + burns + [] == burns;
    case Ignore => assert [] + [] + ignores == ignores;
  }

  /** Grouping a batch by type does not change what applying it does, nor whether it overflows. */
  lemma GroupedApplies(s: SubTrees, es: seq<SupplyEvent>)
    ensures Apply(s, Grouped(es)) == Apply(s, es)
  {
    GroupedOfType(es, Mint);
    GroupedOfType(es, Burn);
    GroupedOfType(es, Ignore);
    ApplyByType(s, es);
    ApplyByType(s, Grouped(es));
  }
}
