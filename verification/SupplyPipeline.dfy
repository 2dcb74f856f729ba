/**
 * The supply commitment pipeline of one asset group as a state machine: updates are staged, frozen into a broadcast
 * commitment, and applied once it confirms. Every persistence step of the confirmation may fail and be replayed, and
 * the node may restart at any point; the watch list is then reloaded from the durable anchors.
 */
module SupplyPipeline {
  import opened Prelude
  import opened SupplyTree
  import opened SupplyRoot
  import opened SupplyStores

  datatype Point = Point(txid: nat, vout: nat)

  datatype Commitment = Commitment(
    point: Point, inputs: seq<Point>, rootHash: nat, rootSum: int, spent: Option<Point>, block: Option<nat>)

  /** A pre-commitment row: the outpoint, the block of its mint, and the commitment that spent it. */
  datatype PreCommit = PreCommit(point: Point, height: nat, spentBy: Option<Point>)

  /** A broadcast commitment awaiting confirmation, with the updates frozen into it. */
  datatype SupplyAnchor = SupplyAnchor(commitment: Commitment, events: seq<SupplyEvent>)

  datatype Group = Group(
    supply: Supply,
    commits: seq<Commitment>,
    preCommits: seq<PreCommit>,
    staged: seq<SupplyEvent>,
    watch: seq<SupplyAnchor>,
    durable: map<nat, SupplyAnchor>)

  const EMPTY_GROUP := Group(EMPTY_SUPPLY, [], [], [], [], map[])

  // ----- the stores, as the pipeline reads them -----

  function LatestPoint(cs: seq<Commitment>): Option<Point> {
    if cs == [] then None else Some(cs[|cs| - 1].point)
  }

  predicate Known(cs: seq<Commitment>, p: Point) {
    exists i :: 0 <= i < |cs| && cs[i].point == p
  }

  /** The first stored commitment with that commit point. */
  function Find(cs: seq<Commitment>, p: Point): Option<Commitment> {
    if cs == [] then None else if cs[0].point == p then Some(cs[0]) else Find(cs[1..], p)
  }

  /** The outpoints of the unspent rows, one for each row. */
  function Unspent(pcs: seq<PreCommit>): seq<Point> {
    if pcs == [] then []
    else
      var last := pcs[|pcs| - 1];
      Unspent(pcs[..|pcs| - 1]) + (if last.spentBy.None? then [last.point] else [])
  }

  predicate NoRepeats(ps: seq<Point>) {
    forall i, j :: 0 <= i < j < |ps| ==> ps[i] != ps[j]
  }

  /** Marks the first row with that outpoint, whatever it says already. */
  function MarkPoint(pcs: seq<PreCommit>, p: Point, spender: Point): seq<PreCommit> {
    if pcs == [] then []
    else if pcs[0].point == p then [pcs[0].(spentBy := Some(spender))] + pcs[1..]
    else [pcs[0]] + MarkPoint(pcs[1..], p, spender)
  }

  function MarkEach(pcs: seq<PreCommit>, ps: seq<Point>, spender: Point): seq<PreCommit> {
    if ps == [] then pcs else MarkPoint(MarkEach(pcs, ps[..|ps| - 1], spender), ps[|ps| - 1], spender)
  }

  /** The outpoints of the unspent rows that the transaction of `c` spends, in order. */
  function ToMark(pcs: seq<PreCommit>, c: Commitment): seq<Point> {
    if pcs == [] then []
    else
      var last := pcs[|pcs| - 1];
      ToMark(pcs[..|pcs| - 1], c) + (if last.spentBy.None? && last.point in c.inputs then [last.point] else [])
  }

  /** The rows after the first `n` marks of the marking loop, or all of them. */
  function MarkFirst(pcs: seq<PreCommit>, c: Commitment, n: nat): seq<PreCommit> {
    var ps := ToMark(pcs, c);
    MarkEach(pcs, if n < |ps| then ps[..n] else ps, c.point)
  }

  // ----- committing -----

  /** What a commitment spends: one input for every unspent row, and the latest commitment. */
  function InputsOf(g: Group): seq<Point> {
    var prev := LatestPoint(g.commits);
    Unspent(g.preCommits) + (if prev.Some? then [prev.value] else [])
  }

  ghost function NewCommitment(h: Hasher, g: Group, point: Point): Commitment {
    var after := MemoryApply(h, g.supply, g.staged).supply;
    var prev := LatestPoint(g.commits);
    Commitment(point, InputsOf(g),
               h.root(after.root), TreeSum(after.root), prev, None)
  }

  /**
   * `broadcast` is false when a key, the wallet or the chain backend refuses. A transaction that lists an input twice
   * cannot be signed.
   */
  ghost predicate Commits(h: Hasher, g: Group, broadcast: bool) {
    && broadcast && g.watch == [] && g.staged != []
    && MemoryApply(h, g.supply, g.staged).ok
    && InputsOf(g) != [] && NoRepeats(InputsOf(g))
  }

  ghost function CommitSupply(h: Hasher, g: Group, point: Point, broadcast: bool): Group {
    if !Commits(h, g, broadcast) then g
    else
      var a := SupplyAnchor(NewCommitment(h, g, point), g.staged);
      g.(watch := g.watch + [a], durable := g.durable[point.txid := a])
  }

  // ----- verifying and applying a confirmed commitment -----

  /** The root hash the verifier reconstructs, listing the leaves by type. */
  ghost function RootAfter(h: Hasher, s: Supply, es: seq<SupplyEvent>): Option<nat> {
    var o := MemoryApply(h, s, Grouped(es));
    if o.ok then Some(h.root(o.supply.root)) else None
  }

  /** The verifier's checks of an unknown commitment against the stored commitments and trees. */
  ghost predicate RootsAccept(h: Hasher, g: Group, a: SupplyAnchor) {
    var c := a.commitment;
    match c.spent
    case None => g.commits == [] && RootAfter(h, EMPTY_SUPPLY, a.events) == Some(c.rootHash)
    case Some(p) =>
      var prev := Find(g.commits, p);
      && prev.Some? && p in c.inputs
      && h.root(g.supply.root) == prev.value.rootHash
      && RootAfter(h, g.supply, a.events) == Some(c.rootHash)
  }

  /** The outpoints of the unspent rows up to a height, one for each row. */
  function Eligible(pcs: seq<PreCommit>, block: nat): seq<Point> {
    if pcs == [] then []
    else
      var last := pcs[|pcs| - 1];
      Eligible(pcs[..|pcs| - 1], block) + (if last.spentBy.None? && last.height <= block then [last.point] else [])
  }

  /** The eligible outpoints among the inputs, each counted once. */
  function Matched(inputs: seq<Point>, eligible: seq<Point>): set<Point> {
    set p | p in inputs && p in eligible
  }

  /** The verifier counts the eligible rows against the inputs that match one. */
  predicate SpendsEligible(pcs: seq<PreCommit>, c: Commitment, block: nat) {
    && (c.spent.None? ==> Unspent(pcs) != [])
    && |Matched(c.inputs, Eligible(pcs, block))| == |Eligible(pcs, block)|
  }

  function Mints(es: seq<SupplyEvent>): nat {
    if es == [] then 0 else Mints(es[..|es| - 1]) + (if es[|es| - 1].ty == Mint then 1 else 0)
  }

  /** Its checks against the pre-commitments: a row for every mint, and every eligible row spent. */
  predicate RowsAccept(pcs: seq<PreCommit>, a: SupplyAnchor, block: nat) {
    Mints(a.events) <= |Unspent(pcs)| && SpendsEligible(pcs, a.commitment, block)
  }

  /** What the verifier says of a confirmed commitment; a stored one has been verified before. */
  ghost predicate Accepts(h: Hasher, g: Group, a: SupplyAnchor, block: nat) {
    Known(g.commits, a.commitment.point) || (RowsAccept(g.preCommits, a, block) && RootsAccept(h, g, a))
  }

  /**
   * The persistence steps in order: trees, commitment, pre-commitments, staging queue, watch list. `stop` is the step
   * that fails, or 5 when none does; `marks` is how many rows a failing marking loop got to mark.
   */
  ghost function Persist(h: Hasher, g: Group, i: nat, block: nat, stop: nat, marks: nat): Group
    requires i < |g.watch|
  {
    var o := MemoryApply(h, g.supply, g.watch[i].events);
    if stop == 0 then g
    else if !o.ok then g.(supply := o.supply)
    else AfterTrees(g, i, block, stop, marks, o.supply)
  }

  /** The steps once the trees are written. */
  ghost function AfterTrees(g: Group, i: nat, block: nat, stop: nat, marks: nat, supply: Supply): Group
    requires i < |g.watch|
  {
    var a := g.watch[i];
    var g1 := g.(supply := supply);
    if stop == 1 then g1
    else
      var g2 := g1.(commits := g1.commits + [a.commitment.(block := Some(block))],
                    preCommits := MarkFirst(g1.preCommits, a.commitment, if stop == 2 then marks else |g1.preCommits|));
      if stop <= 3 then g2
      else
        var g3 := g2.(staged := Unstaged(g2.staged, a.events));
        if stop == 4 then g3
        else g3.(watch := g3.watch[..i] + g3.watch[i + 1..], durable := g3.durable - {a.commitment.point.txid})
  }

  // ----- runs -----

  datatype Step =
    | Stage(e: SupplyEvent)
    | AddPreCommit(point: Point, height: nat)
    | Commit(point: Point, broadcast: bool)
    | Finish(i: nat, leavesAccepted: bool, block: nat, stop: nat, marks: nat)
    | Restart

  /** The output of a commitment that is stored or in flight. */
  ghost predicate IsCommitPoint(g: Group, p: Point) {
    Known(g.commits, p) || exists a :: a in g.watch && a.commitment.point == p
  }

  /** A new commitment is a new transaction, and a pre-commitment is the output of a mint. */
  ghost predicate Enabled(g: Group, step: Step) {
    match step
    case AddPreCommit(point, _) => !IsCommitPoint(g, point)
    case Commit(point, _) => !IsCommitPoint(g, point) && forall pc :: pc in g.preCommits ==> pc.point != point
    case Finish(i, _, _, _, _) => i < |g.watch|
    case _ => true
  }

  ghost function Next(h: Hasher, g: Group, step: Step): Group
    requires Enabled(g, step)
  {
    match step
    case Stage(e) => g.(staged := Staged(g.staged, e))
    case AddPreCommit(point, height) => g.(preCommits := g.preCommits + [PreCommit(point, height, None)])
    case Commit(point, broadcast) => CommitSupply(h, g, point, broadcast)
    case Finish(i, leavesAccepted, block, stop, marks) =>
      if leavesAccepted && Accepts(h, g, g.watch[i], block) then Persist(h, g, i, block, stop, marks) else g
    case Restart => g.(watch := Reload(g.durable))
  }

  /** The durable anchors, one per transaction, in some order. */
  ghost function Reload(durable: map<nat, SupplyAnchor>): seq<SupplyAnchor>
    decreases |durable|
  {
    if durable == map[] then []
    else
      assert durable.Keys != {} by { assert durable != map[]; }
      var txid :| txid in durable;
      assert |durable - {txid}| < |durable| by { assert (durable - {txid}).Keys == durable.Keys - {txid}; }
      [durable[txid]] + Reload(durable - {txid})
  }

  lemma ReloadOne(txid: nat, a: SupplyAnchor)
    ensures Reload(map[txid := a]) == [a]
  {
    var m := map[txid := a];
    assert txid in m && forall t :: t in m ==> t == txid;
    assert m - {txid} == map[];
    assert Reload(m) == [m[txid]] + Reload(map[]);
  }

  lemma {:induction false} FindKnown(cs: seq<Commitment>, p: Point)
    ensures Find(cs, p).Some? <==> Known(cs, p)
    ensures Find(cs, p).Some? ==> exists i :: 0 <= i < |cs| && cs[i] == Find(cs, p).value && cs[i].point == p
    decreases |cs|
  {
    if cs != [] {
      FindKnown(cs[1..], p);
      if Known(cs, p) && cs[0].point != p {
        var i :| 0 <= i < |cs| && cs[i].point == p;
        assert cs[1..][i - 1].point == p;
      }
      if Find(cs, p).Some? && cs[0].point != p {
        var i :| 0 <= i < |cs[1..]| && cs[1..][i] == Find(cs[1..], p).value && cs[1..][i].point == p;
        assert cs[i + 1] == Find(cs, p).value;
      }
    }
  }

  /** Grouping by type changes nothing, so the verifier reconstructs the root the author computed. */
  lemma RootAfterIs(h: Hasher, s: Supply, es: seq<SupplyEvent>)
    ensures MemoryApply(h, s, Grouped(es)) == MemoryApply(h, s, es)
  {
    GroupedApplies(s.subs, es);
  }
}
