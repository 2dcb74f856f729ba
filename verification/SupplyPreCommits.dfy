/**
 * The pre-commitment rows over every run: which commitment a marked row belongs to, what a commitment in flight says
 * about the rows, and exactly when a commitment names an input that an earlier one has spent.
 */
module SupplyPreCommits {
  import opened Prelude
  import opened SupplyTree
  import opened SupplyPipeline
  import opened SupplyInvariant
  import opened SupplySafety

  function Points(pcs: seq<PreCommit>): set<Point> {
    set pc | pc in pcs :: pc.point
  }

  /** No earlier row has the same outpoint. */
  ghost predicate IsFirst(pcs: seq<PreCommit>, i: nat)
    requires i < |pcs|
  {
    forall j :: 0 <= j < i ==> pcs[j].point != pcs[i].point
  }

  /** No other row has the same outpoint. */
  ghost predicate Once(pcs: seq<PreCommit>, i: nat)
    requires i < |pcs|
  {
    forall j :: 0 <= j < |pcs| && j != i ==> pcs[j].point != pcs[i].point
  }

  // ----- what the marking loop does -----

  lemma {:induction false} MarkPointEffect(pcs: seq<PreCommit>, p: Point, spender: Point, i: nat)
    requires i < |pcs|
    ensures |MarkPoint(pcs, p, spender)| == |pcs|
    ensures MarkPoint(pcs, p, spender)[i] ==
      if pcs[i].point == p && IsFirst(pcs, i) then pcs[i].(spentBy := Some(spender)) else pcs[i]
    decreases |pcs|
  {
    if pcs[0].point == p {
      assert i > 0 && pcs[i].point == p ==> !IsFirst(pcs, i);
    } else if i > 0 {
      MarkPointEffect(pcs[1..], p, spender, i - 1);
      assert IsFirst(pcs[1..], i - 1) && pcs[i].point == p <==> IsFirst(pcs, i) && pcs[i].point == p by {
        assert forall j :: 0 <= j < i - 1 ==> pcs[1..][j] == pcs[j + 1];
        if IsFirst(pcs, i) {
          forall j | 0 <= j < i - 1
            ensures pcs[1..][j].point != pcs[1..][i - 1].point
          {
            assert pcs[j + 1].point != pcs[i].point;
          }
        }
        if IsFirst(pcs[1..], i - 1) && pcs[i].point == p {
          forall j | 0 <= j < i
            ensures pcs[j].point != pcs[i].point
          {
            assert j > 0 ==> pcs[1..][j - 1].point != pcs[1..][i - 1].point;
          }
        }
      }
    } else {
      MarkPointLength(pcs[1..], p, spender);
    }
  }

  lemma {:induction false} MarkPointLength(pcs: seq<PreCommit>, p: Point, spender: Point)
    ensures |MarkPoint(pcs, p, spender)| == |pcs|
    decreases |pcs|
  {
    if pcs != [] {
      MarkPointLength(pcs[1..], p, spender);
    }
  }

  /** Each listed outpoint marks its first row, and nothing else changes. */
  lemma {:induction false} MarkEachEffect(pcs: seq<PreCommit>, ps: seq<Point>, spender: Point, i: nat)
    requires i < |pcs|
    ensures |MarkEach(pcs, ps, spender)| == |pcs|
    ensures MarkEach(pcs, ps, spender)[i] ==
      if pcs[i].point in ps && IsFirst(pcs, i) then pcs[i].(spentBy := Some(spender)) else pcs[i]
    decreases |ps|
  {
    if ps != [] {
      var front, last := ps[..|ps| - 1], ps[|ps| - 1];
      assert ps == front + [last];
      var r := MarkEach(pcs, front, spender);
      forall j | 0 <= j < |pcs|
        ensures |r| == |pcs| && r[j].point == pcs[j].point
      {
        MarkEachEffect(pcs, front, spender, j);
      }
      MarkEachEffect(pcs, front, spender, i);
      MarkPointEffect(r, last, spender, i);
      assert IsFirst(r, i) <==> IsFirst(pcs, i);
    }
  }

  lemma {:induction false} ToMarkIs(pcs: seq<PreCommit>, c: Commitment, p: Point)
    ensures p in ToMark(pcs, c) <==> p in Unspent(pcs) && p in c.inputs
    decreases |pcs|
  {
    if pcs != [] {
      ToMarkIs(pcs[..|pcs| - 1], c, p);
    }
  }

  /** The unspent outpoints are those of the unspent rows. */
  lemma {:induction false} UnspentIs(pcs: seq<PreCommit>, p: Point)
    ensures p in Unspent(pcs) <==> exists i :: 0 <= i < |pcs| && pcs[i].spentBy.None? && pcs[i].point == p
    decreases |pcs|
  {
    if pcs != [] {
      var front, last := pcs[..|pcs| - 1], pcs[|pcs| - 1];
      UnspentIs(front, p);
      if p in Unspent(front) {
        var i :| 0 <= i < |front| && front[i].spentBy.None? && front[i].point == p;
        assert pcs[i] == front[i];
      }
      if i :| 0 <= i < |pcs| && pcs[i].spentBy.None? && pcs[i].point == p {
        assert i < |front| ==> front[i] == pcs[i];
      }
    }
  }

  /** A marking loop that got as far as it got: some first rows of spent inputs are marked, and nothing else changes. */
  lemma MarkFirstEffect(pcs: seq<PreCommit>, c: Commitment, n: nat, i: nat)
    requires i < |pcs|
    ensures var r := MarkFirst(pcs, c, n);
      && |r| == |pcs| && r[i].point == pcs[i].point
      && (r[i] == pcs[i] || (r[i].spentBy == Some(c.point) && r[i].point in c.inputs))
  {
    var all := ToMark(pcs, c);
    var ps := if n < |all| then all[..n] else all;
    MarkEachEffect(pcs, ps, c.point, i);
    ToMarkIs(pcs, c, pcs[i].point);
    assert pcs[i].point in ps ==> pcs[i].point in all;
  }

  /** A complete marking loop leaves a spent input unspent exactly when an earlier row has the same outpoint. */
  lemma LeftUnspentIff(pcs: seq<PreCommit>, c: Commitment, i: nat)
    requires i < |pcs| && pcs[i].point in c.inputs
    ensures |MarkFirst(pcs, c, |pcs|)| == |pcs|
    ensures MarkFirst(pcs, c, |pcs|)[i].spentBy.None? <==> pcs[i].spentBy.None? && !IsFirst(pcs, i)
  {
    MarkAll(pcs, c);
    MarkEachEffect(pcs, ToMark(pcs, c), c.point, i);
    ToMarkIs(pcs, c, pcs[i].point);
    assert pcs[i].spentBy.None? ==> pcs[i].point in Unspent(pcs) by {
      UnspentIs(pcs, pcs[i].point);
    }
  }

  lemma MarkAll(pcs: seq<PreCommit>, c: Commitment)
    ensures MarkFirst(pcs, c, |pcs|) == MarkEach(pcs, ToMark(pcs, c), c.point)
  {
    ToMarkShort(pcs, c);
  }

  lemma {:induction false} ToMarkShort(pcs: seq<PreCommit>, c: Commitment)
    ensures |ToMark(pcs, c)| <= |pcs|
    decreases |pcs|
  {
    if pcs != [] {
      ToMarkShort(pcs[..|pcs| - 1], c);
    }
  }

  // ----- the invariant -----

  /** A marked row names a stored commitment that spends it. */
  ghost predicate MarksBelong(g: Group) {
    forall pc :: pc in g.preCommits && pc.spentBy.Some? ==>
      exists c :: c in g.commits && c.point == pc.spentBy.value && pc.point in c.inputs
  }

  /** What a commitment spends: pre-commitments the node stores, and the commitment before it. */
  ghost predicate InputsKnown(pcs: seq<PreCommit>, c: Commitment) {
    forall p :: p in c.inputs ==> p in Points(pcs) || Some(p) == c.spent
  }

  /** Some row with the outpoint is marked. */
  ghost predicate Marked(pcs: seq<PreCommit>, p: Point) {
    exists i :: 0 <= i < |pcs| && pcs[i].point == p && pcs[i].spentBy.Some?
  }

  /** What a stored commitment spends is marked, unless that commitment is still being finished. */
  ghost predicate SpentAreMarked(g: Group) {
    forall c, p :: c in g.commits && p in c.inputs ==> Settled(g, c, p)
  }

  ghost predicate Settled(g: Group, c: Commitment, p: Point) {
    || Some(p) == c.spent || Marked(g.preCommits, p)
    || exists a :: a in g.watch && a.commitment.point == c.point
  }

  /** The inputs of a commitment that are pre-commitments: all but the commitment it spends, which comes last. */
  function Own(c: Commitment): seq<Point> {
    if c.spent.Some? && c.inputs != [] then c.inputs[..|c.inputs| - 1] else c.inputs
  }

  /** Until a commitment in flight is stored, the rows it spends stay unspent, and come before those added since. */
  ghost predicate Reserved(g: Group, a: SupplyAnchor) {
    && a.commitment.inputs != [] && NoRepeats(a.commitment.inputs)
    && (a.commitment.spent.Some? ==> a.commitment.inputs[|a.commitment.inputs| - 1] == a.commitment.spent.value)
    && (Known(g.commits, a.commitment.point) || Own(a.commitment) <= Unspent(g.preCommits))
  }

  /** No pre-commitment is the output of a commitment. */
  ghost predicate RowsAreMints(g: Group) {
    forall p :: p in Points(g.preCommits) ==> !IsCommitPoint(g, p)
  }

  ghost predicate PreInv(g: Group) {
    && MarksBelong(g) && SpentAreMarked(g) && RowsAreMints(g)
    && (forall c :: c in g.commits ==> InputsKnown(g.preCommits, c))
    && (forall a :: a in g.watch ==> InputsKnown(g.preCommits, a.commitment) && Reserved(g, a))
  }

  lemma MarkedPoints(pcs: seq<PreCommit>, c: Commitment, n: nat)
    ensures |MarkFirst(pcs, c, n)| == |pcs| && Points(MarkFirst(pcs, c, n)) == Points(pcs)
    ensures forall i :: 0 <= i < |pcs| ==> MarkFirst(pcs, c, n)[i].point == pcs[i].point
  {
    var r := MarkFirst(pcs, c, n);
    if pcs == [] {
      assert ToMark(pcs, c) == [];
    }
    forall i | 0 <= i < |pcs|
      ensures |r| == |pcs| && r[i].point == pcs[i].point
    {
      MarkFirstEffect(pcs, c, n, i);
    }
    forall p
      ensures p in Points(r) <==> p in Points(pcs)
    {
      if p in Points(pcs) {
        var i :| 0 <= i < |pcs| && pcs[i].point == p;
        assert r[i] in r;
      }
      if p in Points(r) {
        var i :| 0 <= i < |r| && r[i].point == p;
        assert pcs[i] in pcs;
      }
    }
  }

  lemma MarksStay(pcs: seq<PreCommit>, pc: PreCommit, p: Point)
    requires Marked(pcs, p)
    ensures Marked(pcs + [pc], p)
  {
    var i :| 0 <= i < |pcs| && pcs[i].point == p && pcs[i].spentBy.Some?;
    assert (pcs + [pc])[i] == pcs[i];
  }

  lemma AddPreCommitKeepsRows(h: Hasher, g: Group, point: Point, height: nat)
    requires PreInv(g) && Enabled(g, AddPreCommit(point, height))
    ensures PreInv(Next(h, g, AddPreCommit(point, height)))
  {
    var g' := Next(h, g, AddPreCommit(point, height));
    var pcs, pc := g.preCommits, PreCommit(point, height, None);
    assert g'.preCommits[..|pcs|] == pcs;
    assert Unspent(g'.preCommits) == Unspent(pcs) + [point];
    assert forall x :: x in g'.preCommits <==> x in pcs || x == pc;
    assert Points(g'.preCommits) == Points(pcs) + {point};
    forall c, p | c in g'.commits && p in c.inputs
      ensures Settled(g', c, p)
    {
      assert Settled(g, c, p);
      if Marked(pcs, p) {
        MarksStay(pcs, pc, p);
      }
    }
  }

  /** What a new commitment spends: every unspent row, and the latest commitment last. */
  lemma NewCommitmentRows(h: Hasher, g: Group, point: Point, broadcast: bool)
    requires Commits(h, g, broadcast)
    ensures var c := NewCommitment(h, g, point);
      InputsKnown(g.preCommits, c) && Reserved(g, SupplyAnchor(c, g.staged))
  {
    var c := NewCommitment(h, g, point);
    assert Own(c) == Unspent(g.preCommits);
    forall p | p in c.inputs
      ensures p in Points(g.preCommits) || Some(p) == c.spent
    {
      UnspentIs(g.preCommits, p);
    }
  }

  lemma CommitKeepsMints(g: Group, a: SupplyAnchor, g': Group)
    requires RowsAreMints(g) && g'.preCommits == g.preCommits && g'.commits == g.commits && g'.watch == [a]
    requires forall pc :: pc in g.preCommits ==> pc.point != a.commitment.point
    ensures RowsAreMints(g')
  {
    forall p | p in Points(g'.preCommits)
      ensures !IsCommitPoint(g', p)
    {
      assert !IsCommitPoint(g, p);
    }
  }

  lemma CommitKeepsRows(h: Hasher, g: Group, point: Point, broadcast: bool)
    requires PreInv(g) && Enabled(g, Commit(point, broadcast))
    ensures PreInv(CommitSupply(h, g, point, broadcast))
  {
    if Commits(h, g, broadcast) {
      var g', a := CommitSupply(h, g, point, broadcast), SupplyAnchor(NewCommitment(h, g, point), g.staged);
      assert g'.watch == [a];
      NewCommitmentRows(h, g, point, broadcast);
      CommitKeepsMints(g, a, g');
      forall c, p | c in g'.commits && p in c.inputs
        ensures Settled(g', c, p)
      {
        assert Settled(g, c, p);
      }
    }
  }

  /** What a finish does to the commitments, the rows and the watch list. */
  ghost predicate FinishedRows(g: Group, a: SupplyAnchor, block: nat, stop: nat, marks: nat, g': Group) {
    && stop >= 2
    && g'.commits == g.commits + [a.commitment.(block := Some(block))]
    && g'.preCommits == MarkFirst(g.preCommits, a.commitment, if stop == 2 then marks else |g.preCommits|)
    && g'.watch == (if stop <= 4 then g.watch else [])
  }

  lemma FinishKeepsMarks(g: Group, a: SupplyAnchor, block: nat, stop: nat, marks: nat, g': Group)
    requires PreInv(g) && g.watch == [a] && FinishedRows(g, a, block, stop, marks, g')
    ensures MarksBelong(g')
    ensures forall c :: c in g'.commits ==> InputsKnown(g'.preCommits, c)
    ensures forall b :: b in g'.watch ==> InputsKnown(g'.preCommits, b.commitment)
  {
    var n := if stop == 2 then marks else |g.preCommits|;
    var c' := a.commitment.(block := Some(block));
    MarkedPoints(g.preCommits, a.commitment, n);
    assert a in g.watch;
    assert forall c :: c in g'.commits <==> c in g.commits || c == c';
    forall pc | pc in g'.preCommits && pc.spentBy.Some?
      ensures exists c :: c in g'.commits && c.point == pc.spentBy.value && pc.point in c.inputs
    {
      var i :| 0 <= i < |g'.preCommits| && g'.preCommits[i] == pc;
      MarkFirstEffect(g.preCommits, a.commitment, n, i);
      if pc == g.preCommits[i] {
        assert pc in g.preCommits;
        var c :| c in g.commits && c.point == pc.spentBy.value && pc.point in c.inputs;
        assert c in g'.commits;
      } else {
        assert c' in g'.commits;
      }
    }
  }

  /** A complete marking loop marks every row a commitment spends. */
  lemma InputsMarked(pcs: seq<PreCommit>, c: Commitment, p: Point)
    requires p in c.inputs && p in Points(pcs)
    ensures Marked(MarkFirst(pcs, c, |pcs|), p)
  {
    var pc :| pc in pcs && pc.point == p;
    var k :| 0 <= k < |pcs| && pcs[k] == pc;
    var i := FirstRow(pcs, k);
    LeftUnspentIff(pcs, c, i);
    MarkFirstEffect(pcs, c, |pcs|, i);
  }

  lemma FirstRow(pcs: seq<PreCommit>, k: nat) returns (i: nat)
    requires k < |pcs|
    ensures i < |pcs| && pcs[i].point == pcs[k].point && IsFirst(pcs, i)
  {
    i := 0;
    while pcs[i].point != pcs[k].point
      invariant i <= k && forall j :: 0 <= j < i ==> pcs[j].point != pcs[k].point
      decreases k - i
    {
      i := i + 1;
    }
  }

  lemma MarkingKeepsMarks(pcs: seq<PreCommit>, c: Commitment, n: nat, p: Point)
    requires Marked(pcs, p)
    ensures Marked(MarkFirst(pcs, c, n), p)
  {
    var i :| 0 <= i < |pcs| && pcs[i].point == p && pcs[i].spentBy.Some?;
    MarkFirstEffect(pcs, c, n, i);
  }

  lemma FinishKeepsSettled(g: Group, a: SupplyAnchor, block: nat, stop: nat, marks: nat, g': Group,
                           c: Commitment, p: Point)
    requires PreInv(g) && g.watch == [a] && FinishedRows(g, a, block, stop, marks, g')
    requires forall d :: d in g.commits && d.point == a.commitment.point ==> Same(d, a.commitment)
    requires c in g'.commits && p in c.inputs
    ensures Settled(g', c, p)
  {
    var n := if stop == 2 then marks else |g.preCommits|;
    if c in g.commits && Marked(g.preCommits, p) {
      MarkingKeepsMarks(g.preCommits, a.commitment, n, p);
    } else if stop <= 4 {
      assert a in g'.watch;
      assert c in g.commits ==> Settled(g, c, p);
    } else if c.point == a.commitment.point {
      assert a in g.watch;
      if Some(p) != c.spent {
        InputsMarked(g.preCommits, a.commitment, p);
      }
    } else {
      assert Settled(g, c, p);
    }
  }

  lemma FinishKeepsMints(g: Group, a: SupplyAnchor, block: nat, stop: nat, marks: nat, g': Group)
    requires PreInv(g) && g.watch == [a] && FinishedRows(g, a, block, stop, marks, g')
    ensures RowsAreMints(g')
  {
    MarkedPoints(g.preCommits, a.commitment, if stop == 2 then marks else |g.preCommits|);
    forall p | p in Points(g'.preCommits)
      ensures !IsCommitPoint(g', p)
    {
      assert !IsCommitPoint(g, p);
      assert a in g.watch;
    }
  }

  lemma PersistRows(h: Hasher, s: History, step: Step)
    requires Inv(h, s) && Enabled(s.g, step) && Writes(h, s.g, step) && step.stop != 1
    ensures |s.g.watch| == 1
    ensures FinishedRows(s.g, s.g.watch[0], step.block, step.stop, step.marks, Next(h, s.g, step))
  {
    if step.stop > 4 {
      assert Next(h, s.g, step).watch == [];
    }
  }

  lemma FinishKeepsRows(h: Hasher, s: History, step: Step)
    requires Inv(h, s) && PreInv(s.g) && Enabled(s.g, step) && step.Finish?
    ensures PreInv(Next(h, s.g, step))
  {
    var g' := Next(h, s.g, step);
    if !Writes(h, s.g, step) {
      FinishWithoutWrites(h, s, step);
    } else if step.stop == 1 {
      assert g' == s.g.(supply := g'.supply);
      SameRows(s.g, g');
    } else {
      var a := s.g.watch[0];
      PersistRows(h, s, step);
      assert s.g.watch == [a];
      SamePointSame(h, s, a);
      FinishKeepsMarks(s.g, a, step.block, step.stop, step.marks, g');
      FinishKeepsMints(s.g, a, step.block, step.stop, step.marks, g');
      forall c, p | c in g'.commits && p in c.inputs
        ensures Settled(g', c, p)
      {
        FinishKeepsSettled(s.g, a, step.block, step.stop, step.marks, g', c, p);
      }
      assert g'.commits[|s.g.commits|].point == a.commitment.point;
    }
  }

  lemma SameRows(g: Group, g': Group)
    requires PreInv(g) && g'.preCommits == g.preCommits && g'.commits == g.commits && g'.watch == g.watch
    ensures PreInv(g')
  {
    forall c, p | c in g'.commits && p in c.inputs
      ensures Settled(g', c, p)
    {
      assert Settled(g, c, p);
    }
    forall p | p in Points(g'.preCommits)
      ensures !IsCommitPoint(g', p)
    {
      assert !IsCommitPoint(g, p);
    }
  }

  /** A stored commitment with the point of the anchor in flight is that anchor's. */
  lemma SamePointSame(h: Hasher, s: History, a: SupplyAnchor)
    requires Inv(h, s) && s.g.watch == [a]
    ensures forall d :: d in s.g.commits && d.point == a.commitment.point ==> Same(d, a.commitment)
  {
    KnownIffRecorded(h, s, a);
    forall d | d in s.g.commits && d.point == a.commitment.point
      ensures Same(d, a.commitment)
    {
      var i :| 0 <= i < |s.g.commits| && s.g.commits[i] == d;
      assert Known(s.g.commits, a.commitment.point);
      ChainSamePoint(h, s.g.commits, Committed(s), i);
    }
  }

  lemma StepKeepsRows(h: Hasher, s: History, step: Step)
    requires Inv(h, s) && PreInv(s.g) && Enabled(s.g, step)
    ensures PreInv(NextHistory(h, s, step).g)
  {
    match step
    case Stage(e) => SameRows(s.g, Next(h, s.g, step));
    case AddPreCommit(point, height) => AddPreCommitKeepsRows(h, s.g, point, height);
    case Commit(point, broadcast) => CommitKeepsRows(h, s.g, point, broadcast);
    case Finish(_, _, _, _, _) => FinishKeepsRows(h, s, step);
    case Restart => RestartKeeps(h, s);
  }

  lemma {:induction false} RunKeepsRows(h: Hasher, steps: seq<Step>)
    requires Run(h, steps)
    ensures PreInv(After(h, steps).g)
    decreases |steps|
  {
    if steps != [] {
      RunKeeps(h, steps[..|steps| - 1]);
      RunKeepsRows(h, steps[..|steps| - 1]);
      StepKeepsRows(h, After(h, steps[..|steps| - 1]), steps[|steps| - 1]);
    }
  }

  // ----- what follows for every run -----

  /** A marked pre-commitment is an input of the stored commitment it names. */
  lemma MarkedIsSpent(h: Hasher, steps: seq<Step>, pc: PreCommit)
    requires Run(h, steps) && pc in After(h, steps).g.preCommits && pc.spentBy.Some?
    ensures exists c :: c in After(h, steps).g.commits && c.point == pc.spentBy.value && pc.point in c.inputs
  {
    RunKeepsRows(h, steps);
  }

  /** With nothing in flight, every pre-commitment a stored commitment spends is marked. */
  lemma SpentIsMarked(h: Hasher, steps: seq<Step>, c: Commitment, p: Point)
    requires Run(h, steps) && After(h, steps).g.watch == []
    requires c in After(h, steps).g.commits && p in c.inputs && Some(p) != c.spent
    ensures Marked(After(h, steps).g.preCommits, p)
  {
    RunKeepsRows(h, steps);
    assert Settled(After(h, steps).g, c, p);
  }

  /** So no unspent pre-commitment that is stored once is an input of a stored commitment. */
  lemma UnspentIsNoInput(h: Hasher, steps: seq<Step>, i: nat, c: Commitment)
    requires Run(h, steps) && After(h, steps).g.watch == []
    requires i < |After(h, steps).g.preCommits| && Once(After(h, steps).g.preCommits, i)
    requires After(h, steps).g.preCommits[i].spentBy.None? && c in After(h, steps).g.commits
    ensures After(h, steps).g.preCommits[i].point !in c.inputs
  {
    RunKeeps(h, steps);
    RunKeepsRows(h, steps);
    var s := After(h, steps);
    var p := s.g.preCommits[i].point;
    if p in c.inputs {
      NoRowIsSpentCommit(h, s, i, c);
      SpentIsMarked(h, steps, c, p);
    }
  }

  /** The commitment that a stored one spends is no pre-commitment. */
  lemma NoRowIsSpentCommit(h: Hasher, s: History, i: nat, c: Commitment)
    requires Inv(h, s) && PreInv(s.g) && c in s.g.commits && i < |s.g.preCommits|
    ensures Some(s.g.preCommits[i].point) != c.spent
  {
    LatestUnspent(h, s.g.commits, Committed(s), c);
    assert s.g.preCommits[i] in s.g.preCommits;
    assert s.g.preCommits[i].point in Points(s.g.preCommits);
  }

  /** The new commitment names an input that a stored one has spent. */
  ghost predicate NamesSpent(g: Group) {
    exists c, p :: c in g.commits && p in c.inputs && p in InputsOf(g)
  }

  /** An unspent row has the outpoint of a marked one: the pre-commitment was stored again after it was spent. */
  ghost predicate StoredAgain(pcs: seq<PreCommit>) {
    exists i, j :: 0 <= i < |pcs| && 0 <= j < |pcs| && Again(pcs[i], pcs[j])
  }

  predicate Again(pc: PreCommit, spent: PreCommit) {
    pc.spentBy.None? && spent.spentBy.Some? && pc.point == spent.point
  }

  /**
   * Over every run, and whatever is stored how often: with nothing in flight the next commitment names an input that a
   * stored one has spent exactly when a pre-commitment was stored again after it was spent.
   */
  lemma NamesSpentIff(h: Hasher, steps: seq<Step>)
    requires Run(h, steps) && After(h, steps).g.watch == []
    ensures NamesSpent(After(h, steps).g) <==> StoredAgain(After(h, steps).g.preCommits)
  {
    RunKeeps(h, steps);
    RunKeepsRows(h, steps);
    var s := After(h, steps);
    if StoredAgain(s.g.preCommits) {
      AgainIsNamed(s.g);
    }
    if c, p :| c in s.g.commits && p in c.inputs && p in InputsOf(s.g) {
      NamedIsUnspent(h, s, c, p);
      UnspentIs(s.g.preCommits, p);
      var i :| 0 <= i < |s.g.preCommits| && s.g.preCommits[i].spentBy.None? && s.g.preCommits[i].point == p;
      NoRowIsSpentCommit(h, s, i, c);
      SpentIsMarked(h, steps, c, p);
      var j :| 0 <= j < |s.g.preCommits| && s.g.preCommits[j].point == p && s.g.preCommits[j].spentBy.Some?;
      assert Again(s.g.preCommits[i], s.g.preCommits[j]);
    }
  }

  lemma AgainIsNamed(g: Group)
    requires PreInv(g) && StoredAgain(g.preCommits)
    ensures NamesSpent(g)
  {
    var pcs := g.preCommits;
    var i, j :| 0 <= i < |pcs| && 0 <= j < |pcs| && Again(pcs[i], pcs[j]);
    UnspentIs(pcs, pcs[i].point);
    assert pcs[j] in pcs;
    var c :| c in g.commits && c.point == pcs[j].spentBy.value && pcs[j].point in c.inputs;
    assert pcs[i].point in InputsOf(g);
  }

  /** A named input that a stored commitment has spent is not the latest commitment. */
  lemma NamedIsUnspent(h: Hasher, s: History, c: Commitment, p: Point)
    requires Inv(h, s) && PreInv(s.g) && c in s.g.commits && p in c.inputs && p in InputsOf(s.g)
    ensures p in Unspent(s.g.preCommits)
  {
    LatestUnspent(h, s.g.commits, Committed(s), c);
    assert InputsKnown(s.g.preCommits, c);
    var cs := s.g.commits;
    assert Known(cs, cs[|cs| - 1].point);
  }

  /** In particular, while every outpoint is stored once, no commitment names an input that a stored one has spent. */
  lemma NoInputTwice(h: Hasher, steps: seq<Step>, point: Point, c: Commitment, p: Point)
    requires Run(h, steps) && After(h, steps).g.watch == [] && c in After(h, steps).g.commits
    requires forall i :: 0 <= i < |After(h, steps).g.preCommits| ==> Once(After(h, steps).g.preCommits, i)
    requires p in NewCommitment(h, After(h, steps).g, point).inputs
    ensures p !in c.inputs
  {
    NamesSpentIff(h, steps);
    var pcs := After(h, steps).g.preCommits;
    forall i, j | 0 <= i < |pcs| && 0 <= j < |pcs|
      ensures !Again(pcs[i], pcs[j])
    {
      assert Once(pcs, i);
    }
  }
}
