/**
 * When the verifier accepts the pre-commitments of a confirmed commitment. It counts the rows that were there by the
 * time of the confirmation, so a row stored after the broadcast can keep a commitment from ever being accepted.
 */
module SupplyAcceptance {
  import opened Prelude
  import opened SupplyTree
  import opened SupplyPipeline
  import opened SupplyInvariant
  import opened SupplySafety
  import opened SupplyReplay
  import opened SupplyPreCommits

  // ----- what the count of matched inputs amounts to -----

  predicate Counts(pc: PreCommit, block: nat) {
    pc.spentBy.None? && pc.height <= block
  }

  /** Every unspent row up to the height is an input, and no two of them have one outpoint. */
  ghost predicate AllSpent(pcs: seq<PreCommit>, inputs: seq<Point>, block: nat) {
    && (forall i :: 0 <= i < |pcs| && Counts(pcs[i], block) ==> pcs[i].point in inputs)
    && (forall i, j :: 0 <= i < j < |pcs| && Counts(pcs[i], block) && Counts(pcs[j], block) ==>
          pcs[i].point != pcs[j].point)
  }

  function Elements(ps: seq<Point>): set<Point> {
    set p | p in ps
  }

  lemma {:induction false} EligibleHas(pcs: seq<PreCommit>, block: nat, i: nat)
    requires i < |pcs| && Counts(pcs[i], block)
    ensures pcs[i].point in Eligible(pcs, block)
    decreases |pcs|
  {
    if i < |pcs| - 1 {
      EligibleHas(pcs[..|pcs| - 1], block, i);
    }
  }

  lemma {:induction false} EligibleRow(pcs: seq<PreCommit>, block: nat, p: Point) returns (i: nat)
    requires p in Eligible(pcs, block)
    ensures i < |pcs| && Counts(pcs[i], block) && pcs[i].point == p
    decreases |pcs|
  {
    if p in Eligible(pcs[..|pcs| - 1], block) {
      i := EligibleRow(pcs[..|pcs| - 1], block, p);
    } else {
      i := |pcs| - 1;
    }
  }

  /** The eligible outpoints are those of the rows that count. */
  lemma EligibleIs(pcs: seq<PreCommit>, block: nat, p: Point)
    ensures p in Eligible(pcs, block) <==> exists i :: 0 <= i < |pcs| && Counts(pcs[i], block) && pcs[i].point == p
  {
    if i :| 0 <= i < |pcs| && Counts(pcs[i], block) && pcs[i].point == p {
      EligibleHas(pcs, block, i);
    }
    if p in Eligible(pcs, block) {
      var i := EligibleRow(pcs, block, p);
    }
  }

  lemma NoRepeatsSnoc(ps: seq<Point>, p: Point)
    ensures NoRepeats(ps + [p]) <==> NoRepeats(ps) && p !in ps
  {
    var qs := ps + [p];
    if NoRepeats(qs) {
      forall i, j | 0 <= i < j < |ps|
        ensures ps[i] != ps[j]
      {
        assert qs[i] != qs[j];
      }
      forall i | 0 <= i < |ps|
        ensures ps[i] != p
      {
        assert qs[i] != qs[|ps|];
      }
    }
  }

  /** No two rows up to the height have one outpoint. */
  ghost predicate RowsApart(pcs: seq<PreCommit>, block: nat) {
    forall i, j :: 0 <= i < j < |pcs| && Counts(pcs[i], block) && Counts(pcs[j], block) ==> pcs[i].point != pcs[j].point
  }

  lemma RowsApartSnoc(pcs: seq<PreCommit>, pc: PreCommit, block: nat)
    ensures RowsApart(pcs + [pc], block) <==>
      RowsApart(pcs, block) && (Counts(pc, block) ==> pc.point !in Eligible(pcs, block))
  {
    var all := pcs + [pc];
    EligibleIs(pcs, block, pc.point);
    if RowsApart(all, block) {
      forall i, j | 0 <= i < j < |pcs| && Counts(pcs[i], block) && Counts(pcs[j], block)
        ensures pcs[i].point != pcs[j].point
      {
        assert all[i] == pcs[i] && all[j] == pcs[j];
      }
      forall i | 0 <= i < |pcs| && Counts(pcs[i], block) && Counts(pc, block)
        ensures pcs[i].point != pc.point
      {
        assert all[i] == pcs[i] && all[|pcs|] == pc;
      }
    }
  }

  lemma {:induction false} EligibleApart(pcs: seq<PreCommit>, block: nat)
    ensures NoRepeats(Eligible(pcs, block)) <==> RowsApart(pcs, block)
    decreases |pcs|
  {
    if pcs != [] {
      var front, last := pcs[..|pcs| - 1], pcs[|pcs| - 1];
      assert pcs == front + [last];
      EligibleApart(front, block);
      RowsApartSnoc(front, last, block);
      NoRepeatsSnoc(Eligible(front, block), last.point);
      assert !Counts(last, block) ==> Eligible(pcs, block) == Eligible(front, block);
    }
  }

  lemma {:induction false} CountedOnce(ps: seq<Point>)
    ensures |Elements(ps)| <= |ps|
    ensures |Elements(ps)| == |ps| <==> NoRepeats(ps)
    decreases |ps|
  {
    if ps != [] {
      var front, last := ps[..|ps| - 1], ps[|ps| - 1];
      assert ps == front + [last];
      CountedOnce(front);
      NoRepeatsSnoc(front, last);
      assert Elements(ps) == Elements(front) + {last};
    }
  }

  lemma SmallerSet(a: set<Point>, b: set<Point>)
    requires a <= b
    ensures |a| <= |b| && (|a| == |b| <==> a == b)
  {
    assert b == a + (b - a);
    assert |b| == |a| + |b - a|;
    assert b - a == {} <==> a == b;
  }

  /** The verifier's count comes out even exactly when every row up to the height is spent, and none twice. */
  lemma MatchedIff(pcs: seq<PreCommit>, inputs: seq<Point>, block: nat)
    ensures |Matched(inputs, Eligible(pcs, block))| == |Eligible(pcs, block)| <==> AllSpent(pcs, inputs, block)
  {
    var ps := Eligible(pcs, block);
    CountedOnce(ps);
    SmallerSet(Matched(inputs, ps), Elements(ps));
    EligibleApart(pcs, block);
    AllMatched(inputs, ps);
    RowsIn(pcs, inputs, block);
  }

  lemma AllMatched(inputs: seq<Point>, ps: seq<Point>)
    ensures Matched(inputs, ps) == Elements(ps) <==> forall p :: p in ps ==> p in inputs
  {
    if Matched(inputs, ps) == Elements(ps) {
      forall p | p in ps
        ensures p in inputs
      {
        assert p in Elements(ps);
      }
    }
  }

  lemma RowsIn(pcs: seq<PreCommit>, inputs: seq<Point>, block: nat)
    ensures (forall p :: p in Eligible(pcs, block) ==> p in inputs) <==>
      forall i :: 0 <= i < |pcs| && Counts(pcs[i], block) ==> pcs[i].point in inputs
  {
    forall i | 0 <= i < |pcs| && Counts(pcs[i], block)
      ensures pcs[i].point in Eligible(pcs, block)
    {
      EligibleIs(pcs, block, pcs[i].point);
    }
    forall p | p in Eligible(pcs, block)
      ensures exists i :: 0 <= i < |pcs| && Counts(pcs[i], block) && pcs[i].point == p
    {
      EligibleIs(pcs, block, p);
    }
  }

  // ----- when a first confirmation is accepted -----

  /**
   * In every reachable state, a commitment that nothing has been persisted of is accepted at a height exactly when
   * there is a row for every mint it froze, every unspent row up to the height is one of its inputs, and no two of
   * them have one outpoint.
   */
  lemma FirstAcceptedIff(h: Hasher, steps: seq<Step>, a: SupplyAnchor, block: nat)
    requires Run(h, steps) && After(h, steps).g.watch == [a] && Fresh(h, After(h, steps), a)
    ensures var g := After(h, steps).g;
      Accepts(h, g, a, block) <==>
        Mints(a.events) <= |Unspent(g.preCommits)| && AllSpent(g.preCommits, a.commitment.inputs, block)
  {
    RunKeeps(h, steps);
    RunKeepsRows(h, steps);
    var g := After(h, steps).g;
    FirstVerificationAccepts(h, After(h, steps), a, block);
    assert a in g.watch && Reserved(g, a);
    MatchedIff(g.preCommits, a.commitment.inputs, block);
  }

  /** As long as no row was stored since the broadcast, that is a matter of the mints alone. */
  lemma UndisturbedAcceptedIff(h: Hasher, steps: seq<Step>, a: SupplyAnchor, block: nat)
    requires Run(h, steps) && After(h, steps).g.watch == [a] && Fresh(h, After(h, steps), a)
    requires Unspent(After(h, steps).g.preCommits) == Own(a.commitment)
    ensures Accepts(h, After(h, steps).g, a, block) <==> Mints(a.events) <= |Own(a.commitment)|
  {
    RunKeepsRows(h, steps);
    var g := After(h, steps).g;
    assert a in g.watch && Reserved(g, a);
    FirstAcceptedIff(h, steps, a, block);
    OwnApart(a.commitment);
    OwnRowsSpent(g.preCommits, a.commitment.inputs, Own(a.commitment), block);
  }

  lemma OwnApart(c: Commitment)
    requires NoRepeats(c.inputs)
    ensures NoRepeats(Own(c)) && forall p :: p in Own(c) ==> p in c.inputs
  {
  }

  lemma {:induction false} EligibleAmongUnspent(pcs: seq<PreCommit>, block: nat)
    ensures forall p :: p in Eligible(pcs, block) ==> p in Unspent(pcs)
    ensures NoRepeats(Unspent(pcs)) ==> NoRepeats(Eligible(pcs, block))
    decreases |pcs|
  {
    if pcs != [] {
      var front, last := pcs[..|pcs| - 1], pcs[|pcs| - 1];
      EligibleAmongUnspent(front, block);
      NoRepeatsSnoc(Unspent(front), last.point);
      NoRepeatsSnoc(Eligible(front, block), last.point);
      assert last.spentBy.Some? ==> Unspent(pcs) == Unspent(front);
      assert !Counts(last, block) ==> Eligible(pcs, block) == Eligible(front, block);
    }
  }

  lemma OwnRowsSpent(pcs: seq<PreCommit>, inputs: seq<Point>, own: seq<Point>, block: nat)
    requires Unspent(pcs) == own && NoRepeats(own) && forall p :: p in own ==> p in inputs
    ensures AllSpent(pcs, inputs, block)
  {
    EligibleAmongUnspent(pcs, block);
    EligibleApart(pcs, block);
    RowsIn(pcs, inputs, block);
  }

  /**
   * A commitment that froze more mints than it has rows to spend is never accepted, as long as no row is of a later
   * block: a row stored since the broadcast is not among its inputs.
   */
  lemma ShortNeverAccepted(h: Hasher, steps: seq<Step>, a: SupplyAnchor, block: nat)
    requires Run(h, steps) && After(h, steps).g.watch == [a] && !Known(After(h, steps).g.commits, a.commitment.point)
    requires Mints(a.events) > |Own(a.commitment)|
    requires forall pc :: pc in After(h, steps).g.preCommits ==> pc.height <= block
    ensures !Accepts(h, After(h, steps).g, a, block)
  {
    RunKeeps(h, steps);
    RunKeepsRows(h, steps);
    var g := After(h, steps).g;
    assert a in g.watch && Reserved(g, a);
    if RowsAccept(g.preCommits, a, block) {
      AllCount(g.preCommits, block);
      MatchedIff(g.preCommits, a.commitment.inputs, block);
      EligibleApart(g.preCommits, block);
      RowsIn(g.preCommits, a.commitment.inputs, block);
      OneTooMany(h, After(h, steps), a);
    }
  }

  lemma {:induction false} AllCount(pcs: seq<PreCommit>, block: nat)
    requires forall pc :: pc in pcs ==> pc.height <= block
    ensures Eligible(pcs, block) == Unspent(pcs)
    decreases |pcs|
  {
    if pcs != [] {
      var front, last := pcs[..|pcs| - 1], pcs[|pcs| - 1];
      assert pcs == front + [last];
      assert last in pcs && forall pc :: pc in front ==> pc in pcs;
      AllCount(front, block);
    }
  }

  lemma LastOrOwn(c: Commitment, p: Point)
    ensures p in c.inputs ==> p in Own(c) || (c.spent.Some? && p == c.inputs[|c.inputs| - 1])
  {
    if c.spent.Some? && c.inputs != [] {
      assert c.inputs == Own(c) + [c.inputs[|c.inputs| - 1]];
    }
  }

  /** A row among the inputs of a commitment in flight is not the commitment it spends. */
  lemma RowIsOwn(h: Hasher, s: History, a: SupplyAnchor, p: Point)
    requires Inv(h, s) && PreInv(s.g) && s.g.watch == [a] && !Known(s.g.commits, a.commitment.point)
    requires p in Points(s.g.preCommits)
    ensures p in a.commitment.inputs ==> p in Own(a.commitment)
  {
    assert a in s.g.watch && Reserved(s.g, a);
    LastOrOwn(a.commitment, p);
    KnownIffRecorded(h, s, a);
    var cs := s.g.commits;
    assert cs != [] ==> Known(cs, cs[|cs| - 1].point);
  }

  /** More rows than a commitment has pre-commitment inputs: one is not among them, or is there twice. */
  lemma OneTooMany(h: Hasher, s: History, a: SupplyAnchor)
    requires Inv(h, s) && PreInv(s.g) && s.g.watch == [a] && !Known(s.g.commits, a.commitment.point)
    requires |Unspent(s.g.preCommits)| > |Own(a.commitment)|
    ensures !NoRepeats(Unspent(s.g.preCommits)) || exists p :: p in Unspent(s.g.preCommits) && p !in a.commitment.inputs
  {
    var ps, own := Unspent(s.g.preCommits), Own(a.commitment);
    assert a in s.g.watch && Reserved(s.g, a);
    var p := ps[|own|];
    assert p in ps;
    UnspentIs(s.g.preCommits, p);
    RowIsOwn(h, s, a, p);
    if p in own {
      var k :| 0 <= k < |own| && own[k] == p;
      assert ps[k] == own[k];
    }
  }

  // ----- a row that comes too late -----

  /** A commitment in flight that is not stored, with rows up to the height that it does not spend, or not singly. */
  ghost predicate Blocked(h: Hasher, s: History, block: nat) {
    && Inv(h, s) && |s.g.watch| == 1 && !Known(s.g.commits, s.g.watch[0].commitment.point)
    && !AllSpent(s.g.preCommits, s.g.watch[0].commitment.inputs, block)
  }

  /** Neither more rows nor a greater height help. */
  lemma StaysUnspent(pcs: seq<PreCommit>, more: seq<PreCommit>, inputs: seq<Point>, block: nat, later: nat)
    requires !AllSpent(pcs, inputs, block) && block <= later
    ensures !AllSpent(pcs + more, inputs, later)
  {
    var all := pcs + more;
    assert forall i :: 0 <= i < |pcs| ==> all[i] == pcs[i];
    assert forall pc :: Counts(pc, block) ==> Counts(pc, later);
    if i :| 0 <= i < |pcs| && Counts(pcs[i], block) && pcs[i].point !in inputs {
      assert Counts(all[i], later) && all[i].point !in inputs;
    } else {
      var i, j :| 0 <= i < j < |pcs| && Counts(pcs[i], block) && Counts(pcs[j], block) && pcs[i].point == pcs[j].point;
      assert Counts(all[i], later) && Counts(all[j], later) && all[i].point == all[j].point;
    }
  }

  lemma BlockedRefused(pcs: seq<PreCommit>, a: SupplyAnchor, block: nat, later: nat)
    requires !AllSpent(pcs, a.commitment.inputs, block) && block <= later
    ensures !RowsAccept(pcs, a, later)
  {
    StaysUnspent(pcs, [], a.commitment.inputs, block, later);
    assert pcs + [] == pcs;
    MatchedIff(pcs, a.commitment.inputs, later);
  }

  lemma BlockedFinish(h: Hasher, s: History, step: Step, block: nat)
    requires Blocked(h, s, block) && Enabled(s.g, step) && step.Finish? && block <= step.block
    ensures NextHistory(h, s, step) == s
  {
    BlockedRefused(s.g.preCommits, s.g.watch[0], block, step.block);
    assert !Writes(h, s.g, step);
    FinishWithoutWrites(h, s, step);
  }

  lemma BlockedStep(h: Hasher, s: History, step: Step, block: nat)
    requires Blocked(h, s, block) && Enabled(s.g, step) && (step.Finish? ==> block <= step.block)
    ensures var s' := NextHistory(h, s, step);
      Blocked(h, s', block) && s'.g.commits == s.g.commits && s'.g.supply == s.g.supply && s'.g.watch == s.g.watch
  {
    StepKeeps(h, s, step);
    match step
    case AddPreCommit(point, height) =>
      StaysUnspent(s.g.preCommits, [PreCommit(point, height, None)], s.g.watch[0].commitment.inputs, block, block);
    case Finish(_, _, _, _, _) => BlockedFinish(h, s, step, block);
    case Restart => RestartKeeps(h, s);
    case _ =>
  }

  /** Every confirmation is reported at the height or above it. */
  ghost predicate ConfirmsFrom(steps: seq<Step>, block: nat) {
    forall i :: 0 <= i < |steps| && steps[i].Finish? ==> block <= steps[i].block
  }

  /**
   * From there no run leads out, though no write ever fails: the commitment is confirmed on chain and never accepted,
   * and no other commitment of the group can be made.
   */
  lemma {:induction false} BlockedForever(h: Hasher, s: History, steps: seq<Step>, block: nat)
    requires Blocked(h, s, block) && RunFrom(h, s, steps) && ConfirmsFrom(steps, block)
    ensures var s' := AfterFrom(h, s, steps);
      Blocked(h, s', block) && s'.g.commits == s.g.commits && s'.g.supply == s.g.supply && s'.g.watch == s.g.watch
    decreases |steps|
  {
    if steps != [] {
      BlockedStep(h, s, steps[0], block);
      BlockedForever(h, NextHistory(h, s, steps[0]), steps[1..], block);
    }
  }

  /** It takes one pre-commitment, of a block up to the confirmation's, that is stored between the two. */
  lemma LateRowBlocks(h: Hasher, s: History, a: SupplyAnchor, point: Point, height: nat, block: nat)
    requires Inv(h, s) && PreInv(s.g) && s.g.watch == [a] && !Known(s.g.commits, a.commitment.point)
    requires Enabled(s.g, AddPreCommit(point, height)) && height <= block
    requires point in a.commitment.inputs ==> forall pc :: pc in s.g.preCommits ==> pc.height <= block
    ensures Blocked(h, NextHistory(h, s, AddPreCommit(point, height)), block)
  {
    var s' := NextHistory(h, s, AddPreCommit(point, height));
    StepKeeps(h, s, AddPreCommit(point, height));
    var pcs, n := s'.g.preCommits, |s.g.preCommits|;
    assert pcs[n] == PreCommit(point, height, None) && Counts(pcs[n], block);
    if point in a.commitment.inputs {
      var i := InputHasRow(h, s, a, point);
      assert pcs[i] == s.g.preCommits[i] && s.g.preCommits[i] in s.g.preCommits && Counts(pcs[i], block);
    }
  }

  /** Each pre-commitment a commitment in flight spends has its unspent row. */
  lemma InputHasRow(h: Hasher, s: History, a: SupplyAnchor, p: Point) returns (i: nat)
    requires Inv(h, s) && PreInv(s.g) && s.g.watch == [a] && !Known(s.g.commits, a.commitment.point)
    requires p in a.commitment.inputs && !IsCommitPoint(s.g, p)
    ensures i < |s.g.preCommits| && s.g.preCommits[i].spentBy.None? && s.g.preCommits[i].point == p
  {
    var own, ps := Own(a.commitment), Unspent(s.g.preCommits);
    assert a in s.g.watch && Reserved(s.g, a) && InputsKnown(s.g.preCommits, a.commitment);
    SpentIsKnown(h, s, a);
    RowIsOwn(h, s, a, p);
    var k :| 0 <= k < |own| && own[k] == p;
    assert ps[k] == p && p in ps;
    UnspentIs(s.g.preCommits, p);
    i :| 0 <= i < |s.g.preCommits| && s.g.preCommits[i].spentBy.None? && s.g.preCommits[i].point == p;
  }

  lemma SpentIsKnown(h: Hasher, s: History, a: SupplyAnchor)
    requires Inv(h, s) && s.g.watch == [a] && !Known(s.g.commits, a.commitment.point)
    ensures a.commitment.spent.Some? ==> Known(s.g.commits, a.commitment.spent.value)
  {
    KnownIffRecorded(h, s, a);
    var cs := s.g.commits;
    assert cs != [] ==> Known(cs, cs[|cs| - 1].point);
  }

  lemma RowArrives(h: Hasher, s: History, point: Point) returns (t: History)
    requires Reachable(h, s) && Inv(h, s) && |s.g.watch| == 1 && Fresh(h, s, s.g.watch[0])
    requires Enabled(s.g, AddPreCommit(point, 1)) && point !in s.g.watch[0].commitment.inputs
    ensures Reachable(h, t) && Blocked(h, t, 1)
  {
    ReachableStep(h, s, AddPreCommit(point, 1));
    t := NextHistory(h, s, AddPreCommit(point, 1));
    var n := |s.g.preCommits|;
    assert t.g.preCommits[n] == PreCommit(point, 1, None) && Counts(t.g.preCommits[n], 1);
  }

  /** And it happens: a mint is committed, and before that confirms a second mint of the group does. */
  lemma BlockedIsReachable() returns (s: History)
    ensures Reachable(WitnessHasher(), s) && Blocked(WitnessHasher(), s, 1)
  {
    var s1 := MintInFlight();
    s := RowArrives(WitnessHasher(), s1, Point(4, 0));
  }

  // ----- an outpoint stored twice before it is spent -----

  /** Two unspent rows have one outpoint, and nothing is in flight. */
  ghost predicate Repeated(h: Hasher, s: History) {
    Inv(h, s) && s.g.watch == [] && !NoRepeats(Unspent(s.g.preCommits))
  }

  lemma RepeatsStay(ps: seq<Point>, more: seq<Point>)
    requires !NoRepeats(ps)
    ensures !NoRepeats(ps + more)
  {
    var i, j :| 0 <= i < j < |ps| && ps[i] == ps[j];
    assert (ps + more)[i] == (ps + more)[j];
  }

  lemma RepeatedStep(h: Hasher, s: History, step: Step)
    requires Repeated(h, s) && Enabled(s.g, step)
    ensures var s' := NextHistory(h, s, step);
      Repeated(h, s') && s'.g.commits == s.g.commits && s'.g.supply == s.g.supply
  {
    StepKeeps(h, s, step);
    match step
    case AddPreCommit(point, height) =>
      assert NextHistory(h, s, step).g.preCommits[..|s.g.preCommits|] == s.g.preCommits;
      RepeatsStay(Unspent(s.g.preCommits), [point]);
    case Commit(_, _) =>
      var prev := LatestPoint(s.g.commits);
      RepeatsStay(Unspent(s.g.preCommits), if prev.Some? then [prev.value] else []);
    case Restart => RestartKeeps(h, s);
    case _ =>
  }

  /**
   * A batch of two assets of one group stores its one pre-commitment output twice. No commitment of the group can be
   * made from then on, because its transaction would list that output twice.
   */
  lemma {:induction false} RepeatedForever(h: Hasher, s: History, steps: seq<Step>)
    requires Repeated(h, s) && RunFrom(h, s, steps)
    ensures var s' := AfterFrom(h, s, steps);
      Repeated(h, s') && s'.g.commits == s.g.commits && s'.g.supply == s.g.supply
    decreases |steps|
  {
    if steps != [] {
      RepeatedStep(h, s, steps[0]);
      RepeatedForever(h, NextHistory(h, s, steps[0]), steps[1..]);
    }
  }

  lemma RepeatedIsReachable() returns (s: History)
    ensures Reachable(WitnessHasher(), s) && Repeated(WitnessHasher(), s)
  {
    var h, step := WitnessHasher(), AddPreCommit(Point(1, 0), 1);
    var s1 := RowStored();
    ReachableStep(h, s1, step);
    s := NextHistory(h, s1, step);
    assert s.g.preCommits[..1] == [MINT_ROW];
    OneRow(MINT_ROW, 1);
    var ps := Unspent(s.g.preCommits);
    assert ps == [Point(1, 0)] + [Point(1, 0)] && ps[0] == ps[1];
  }
}
