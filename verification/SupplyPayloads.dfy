/**
 * The payloads of staged updates over every run: an update stays queued until its place is staged again or a commitment
 * that froze it is finished, and the newest payload of a place is lost in one way only.
 */
module SupplyPayloads {
  import opened SupplyTree
  import opened SupplyRoot
  import opened SupplyStores
  import opened SupplyPipeline
  import opened SupplyInvariant
  import opened SupplySafety
  import opened SupplyReplay

  type Place = (SubTree, TreeKey)

  function PlaceOf(e: SupplyEvent): Place {
    (e.ty, e.key)
  }

  // ----- an update in the queue -----

  /** Staging keeps every update of another place, and puts in the new one. */
  lemma StagedElements(q: seq<SupplyEvent>, e: SupplyEvent)
    requires UniquePlaces(q)
    ensures forall x :: x in Staged(q, e) <==> x == e || (x in q && PlaceOf(x) != PlaceOf(e))
  {
    if i :| 0 <= i < |q| && q[i].ty == e.ty && q[i].key == e.key {
      StagedInPlace(q, i, e);
      UniquePlacesIndexed(q);
      ReplacedElements(q, i, e);
    } else {
      StagedNew(q, e);
      assert forall x :: x in q + [e] <==> x in q || x == e;
    }
  }

  lemma ReplacedElements(q: seq<SupplyEvent>, i: nat, e: SupplyEvent)
    requires i < |q| && PlaceOf(q[i]) == PlaceOf(e)
    requires forall j, k :: 0 <= j < k < |q| ==> q[j].ty != q[k].ty || q[j].key != q[k].key
    ensures forall x :: x in q[i := e] <==> x == e || (x in q && PlaceOf(x) != PlaceOf(e))
  {
    var r := q[i := e];
    forall x | x in r
      ensures x == e || (x in q && PlaceOf(x) != PlaceOf(e))
    {
      var j :| 0 <= j < |r| && r[j] == x;
    }
    forall x | x in q && PlaceOf(x) != PlaceOf(e)
      ensures x in r
    {
      var j :| 0 <= j < |q| && q[j] == x;
      assert r[j] == x;
    }
    assert r[i] == e;
  }

  /** The step neither stages the place again nor finishes an anchor that froze it. */
  ghost predicate Spares(g: Group, step: Step, p: Place)
    requires Enabled(g, step)
  {
    && (step.Stage? ==> PlaceOf(step.e) != p)
    && (step.Finish? ==> p !in Places(g.watch[step.i].events))
  }

  /** A finish leaves the queue alone or drops the places it froze. */
  lemma QueueAfterFinish(h: Hasher, g: Group, step: Step)
    requires Enabled(g, step) && step.Finish?
    ensures Next(h, g, step).staged == g.staged || Next(h, g, step).staged == Unstaged(g.staged, g.watch[step.i].events)
  {
  }

  /** Through every other step an update stays queued with its payload. */
  lemma StagedStays(h: Hasher, s: History, step: Step, e: SupplyEvent)
    requires UniquePlaces(s.g.staged) && Enabled(s.g, step) && e in s.g.staged && Spares(s.g, step, PlaceOf(e))
    ensures e in NextHistory(h, s, step).g.staged
  {
    assert NextHistory(h, s, step).g == Next(h, s.g, step);
    match step
    case Stage(x) => StagedElements(s.g.staged, x);
    case Finish(i, _, _, _, _) =>
      QueueAfterFinish(h, s.g, step);
      UnstagedElements(s.g.staged, s.g.watch[i].events);
    case _ =>
  }

  ghost predicate SparesAll(h: Hasher, s: History, steps: seq<Step>, p: Place)
    requires RunFrom(h, s, steps)
    decreases |steps|
  {
    steps == [] || (Spares(s.g, steps[0], p) && SparesAll(h, NextHistory(h, s, steps[0]), steps[1..], p))
  }

  /**
   * So from any reachable state, through commits, failed and replayed finishes of other updates and restarts, an update
   * stays queued with its payload until its place is staged again or an anchor that froze it is finished.
   */
  lemma {:induction false} StaysQueued(h: Hasher, s: History, steps: seq<Step>, e: SupplyEvent)
    requires Inv(h, s) && e in s.g.staged && RunFrom(h, s, steps) && SparesAll(h, s, steps, PlaceOf(e))
    ensures e in AfterFrom(h, s, steps).g.staged
    decreases |steps|
  {
    if steps != [] {
      StepKeeps(h, s, steps[0]);
      StagedStays(h, s, steps[0], e);
      StaysQueued(h, NextHistory(h, s, steps[0]), steps[1..], e);
    }
  }

  // ----- the newest payload of each place -----

  /** The payload last staged for each place. */
  function Newest(steps: seq<Step>): map<Place, Leaf> {
    if steps == [] then map[]
    else
      var before, last := Newest(steps[..|steps| - 1]), steps[|steps| - 1];
      if last.Stage? then before[PlaceOf(last.e) := last.e.leaf] else before
  }

  /** A commitment in flight has frozen another payload for the place of `e`. */
  ghost predicate FrozenOtherwise(g: Group, e: SupplyEvent) {
    exists a, x :: a in g.watch && x in a.events && PlaceOf(x) == PlaceOf(e) && x.leaf != e.leaf
  }

  /** The places whose newest payload was staged while a commitment in flight had frozen another one. */
  ghost function Overtaken(h: Hasher, steps: seq<Step>): set<Place>
    requires Run(h, steps)
  {
    if steps == [] then {}
    else
      var front, last := steps[..|steps| - 1], steps[|steps| - 1];
      if last.Stage? then OvertakenBy(After(h, front).g, last.e, Overtaken(h, front)) else Overtaken(h, front)
  }

  /** Staged updates carry the newest payload of their place. */
  ghost predicate QueueNewest(q: seq<SupplyEvent>, newest: map<Place, Leaf>) {
    forall e :: e in q ==> PlaceOf(e) in newest && newest[PlaceOf(e)] == e.leaf
  }

  /** Frozen updates carry the newest payload exactly where they were not overtaken. */
  ghost predicate FrozenNewest(watch: seq<SupplyAnchor>, newest: map<Place, Leaf>, over: set<Place>) {
    forall a, e :: a in watch && e in a.events ==>
      PlaceOf(e) in newest && (newest[PlaceOf(e)] == e.leaf <==> PlaceOf(e) !in over)
  }

  /** An overtaken place is only queued while the commitment that overtakes it is in flight. */
  ghost predicate OvertakenFrozen(g: Group, over: set<Place>) {
    forall p :: p in over && p in Places(g.staged) ==> exists a :: a in g.watch && p in Places(a.events)
  }

  /** Where nothing is queued, the trees hold the newest payload exactly if it was not overtaken. */
  ghost predicate TreesNewest(q: seq<SupplyEvent>, subs: SubTrees, newest: map<Place, Leaf>, over: set<Place>) {
    forall p :: p in newest && p !in Places(q) ==>
      Placed(subs, p) && (subs.Get(p.0)[p.1] == newest[p] <==> p !in over)
  }

  ghost predicate PayloadInv(g: Group, newest: map<Place, Leaf>, over: set<Place>) {
    && QueueNewest(g.staged, newest) && FrozenNewest(g.watch, newest, over)
    && OvertakenFrozen(g, over) && TreesNewest(g.staged, g.supply.subs, newest, over)
  }

  /** The overtaken places once `e` is staged. */
  ghost function OvertakenBy(g: Group, e: SupplyEvent, over: set<Place>): set<Place> {
    if FrozenOtherwise(g, e) then over + {PlaceOf(e)} else over - {PlaceOf(e)}
  }

  lemma QueueAfterStage(q: seq<SupplyEvent>, e: SupplyEvent, newest: map<Place, Leaf>)
    requires UniquePlaces(q) && QueueNewest(q, newest)
    ensures QueueNewest(Staged(q, e), newest[PlaceOf(e) := e.leaf])
  {
    StagedElements(q, e);
  }

  lemma OvertakenAfterStage(g: Group, e: SupplyEvent, over: set<Place>)
    requires UniquePlaces(g.staged) && OvertakenFrozen(g, over)
    ensures OvertakenFrozen(g.(staged := Staged(g.staged, e)), OvertakenBy(g, e, over))
  {
    StagedPlaces(g.staged, e);
    forall p | p in OvertakenBy(g, e, over) && p in Places(Staged(g.staged, e))
      ensures exists a :: a in g.watch && p in Places(a.events)
    {
      if p == PlaceOf(e) {
        var a, x :| a in g.watch && x in a.events && PlaceOf(x) == PlaceOf(e) && x.leaf != e.leaf;
        assert p in Places(a.events);
      }
    }
  }

  lemma TreesAfterStage(g: Group, e: SupplyEvent, newest: map<Place, Leaf>, over: set<Place>)
    requires UniquePlaces(g.staged) && TreesNewest(g.staged, g.supply.subs, newest, over)
    ensures TreesNewest(Staged(g.staged, e), g.supply.subs, newest[PlaceOf(e) := e.leaf], OvertakenBy(g, e, over))
  {
    StagedPlaces(g.staged, e);
  }

  lemma StageKeepsPayloads(h: Hasher, s: History, e: SupplyEvent, newest: map<Place, Leaf>, over: set<Place>)
    requires Inv(h, s) && PayloadInv(s.g, newest, over)
    ensures PayloadInv(Next(h, s.g, Stage(e)), newest[PlaceOf(e) := e.leaf], OvertakenBy(s.g, e, over))
  {
    QueueAfterStage(s.g.staged, e, newest);
    FrozenAfterStage(h, s, e, newest, over);
    OvertakenAfterStage(s.g, e, over);
    TreesAfterStage(s.g, e, newest, over);
  }

  lemma FrozenAfterStage(h: Hasher, s: History, e: SupplyEvent, newest: map<Place, Leaf>, over: set<Place>)
    requires Inv(h, s) && FrozenNewest(s.g.watch, newest, over)
    ensures FrozenNewest(s.g.watch, newest[PlaceOf(e) := e.leaf], OvertakenBy(s.g, e, over))
  {
    forall a, x, y | a in s.g.watch && x in a.events && y in a.events && PlaceOf(x) == PlaceOf(y)
      ensures x == y
    {
      SamePlaceSameEvent(a.events, x, y);
    }
    assert forall a, b :: a in s.g.watch && b in s.g.watch ==> a == b;
  }

  lemma SamePlaceSameEvent(es: seq<SupplyEvent>, x: SupplyEvent, y: SupplyEvent)
    requires UniquePlaces(es) && x in es && y in es && PlaceOf(x) == PlaceOf(y)
    ensures x == y
  {
    UniquePlacesIndexed(es);
    var i :| 0 <= i < |es| && es[i] == x;
    var j :| 0 <= j < |es| && es[j] == y;
  }

  lemma CommitKeepsPayloads(h: Hasher, g: Group, point: Point, broadcast: bool,
                            newest: map<Place, Leaf>, over: set<Place>)
    requires PayloadInv(g, newest, over)
    ensures PayloadInv(CommitSupply(h, g, point, broadcast), newest, over)
  {
    if Commits(h, g, broadcast) {
      var g' := CommitSupply(h, g, point, broadcast);
      assert forall e :: e in g.staged ==> PlaceOf(e) in Places(g.staged);
      assert forall p :: p in over ==> p !in Places(g.staged);
      assert forall a :: a in g'.watch ==> a.events == g.staged;
    }
  }

  lemma {:induction false} NotWritten(es: seq<SupplyEvent>, p: Place)
    requires p !in Places(es)
    ensures LastWrite(es, p.0, p.1).None?
    decreases |es|
  {
    if es != [] {
      var front, last := es[..|es| - 1], es[|es| - 1];
      assert es == front + [last] && last in es;
      assert forall x :: x in front ==> x in es;
      NotWritten(front, p);
    }
  }

  /** The trees after a batch: its places hold its leaves, and every other place what it held. */
  lemma TreesAfterBatch(h: Hasher, s: Supply, es: seq<SupplyEvent>, p: Place)
    requires UniquePlaces(es) && MemoryApply(h, s, es).ok
    ensures var subs := MemoryApply(h, s, es).supply.subs;
      && (forall e :: e in es && PlaceOf(e) == p ==> Placed(subs, p) && subs.Get(p.0)[p.1] == e.leaf)
      && (p !in Places(es) && Placed(s.subs, p) ==> Placed(subs, p) && subs.Get(p.0)[p.1] == s.subs.Get(p.0)[p.1])
  {
    MemoryTracks(h, s, es);
    WriteHolds(s.subs, es);
    if p !in Places(es) {
      NotWritten(es, p);
      WriteEffect(s.subs, es, p.0, p.1);
    }
  }

  lemma FinishKeepsTrees(h: Hasher, supply: Supply, a: SupplyAnchor, q: seq<SupplyEvent>, q': seq<SupplyEvent>,
                         newest: map<Place, Leaf>, over: set<Place>)
    requires UniquePlaces(a.events) && MemoryApply(h, supply, a.events).ok
    requires FrozenNewest([a], newest, over) && TreesNewest(q, supply.subs, newest, over)
    requires q' == q || q' == Unstaged(q, a.events)
    ensures TreesNewest(q', MemoryApply(h, supply, a.events).supply.subs, newest, over)
  {
    var subs := MemoryApply(h, supply, a.events).supply.subs;
    UnstagedPlaces(q, a.events);
    forall p | p in newest && p !in Places(q')
      ensures Placed(subs, p) && (subs.Get(p.0)[p.1] == newest[p] <==> p !in over)
    {
      TreesAfterBatch(h, supply, a.events, p);
      if p in Places(a.events) {
        var e :| e in a.events && PlaceOf(e) == p;
        assert a in [a];
      }
    }
  }

  lemma FinishKeepsPayloads(h: Hasher, s: History, step: Step, newest: map<Place, Leaf>, over: set<Place>)
    requires Inv(h, s) && PayloadInv(s.g, newest, over) && Enabled(s.g, step) && step.Finish?
    ensures PayloadInv(NextHistory(h, s, step).g, newest, over)
  {
    if !Writes(h, s.g, step) {
      FinishWithoutWrites(h, s, step);
    } else {
      var a, s' := s.g.watch[0], NextHistory(h, s, step);
      FinishFields(h, s, step);
      assert s.g.watch == [a];
      FinishKeepsTrees(h, s.g.supply, a, s.g.staged, s'.g.staged, newest, over);
      UnstagedElements(s.g.staged, a.events);
      UnstagedPlaces(s.g.staged, a.events);
      OvertakenAfterFinish(s.g, a, s'.g, over);
    }
  }

  lemma OvertakenAfterFinish(g: Group, a: SupplyAnchor, g': Group, over: set<Place>)
    requires g.watch == [a] && OvertakenFrozen(g, over)
    requires (g'.staged == g.staged && g'.watch == g.watch) || Places(g'.staged) == Places(g.staged) - Places(a.events)
    ensures OvertakenFrozen(g', over)
  {
    assert forall p :: p in over && p in Places(g.staged) ==> p in Places(a.events);
  }

  lemma {:induction false} RunKeepsPayloads(h: Hasher, steps: seq<Step>)
    requires Run(h, steps)
    ensures PayloadInv(After(h, steps).g, Newest(steps), Overtaken(h, steps))
    decreases |steps|
  {
    if steps != [] {
      var front, step := steps[..|steps| - 1], steps[|steps| - 1];
      var s := After(h, front);
      RunKeeps(h, front);
      RunKeepsPayloads(h, front);
      match step
      case Stage(e) => StageKeepsPayloads(h, s, e, Newest(front), Overtaken(h, front));
      case AddPreCommit(_, _) =>
      case Commit(point, broadcast) =>
        CommitKeepsPayloads(h, s.g, point, broadcast, Newest(front), Overtaken(h, front));
      case Finish(_, _, _, _, _) => FinishKeepsPayloads(h, s, step, Newest(front), Overtaken(h, front));
      case Restart => RestartKeeps(h, s);
    }
  }

  /** The payload is queued for its place, or the trees hold it there. */
  ghost predicate Kept(g: Group, p: Place, leaf: Leaf) {
    SupplyEvent(p.0, p.1, leaf) in g.staged || (Placed(g.supply.subs, p) && g.supply.subs.Get(p.0)[p.1] == leaf)
  }

  /**
   * Over every run the newest payload of a place is queued or in the trees, except when it was staged while another
   * payload for the place was frozen in flight and that commitment has since been finished.
   */
  lemma NewestKeptIff(h: Hasher, steps: seq<Step>, p: Place)
    requires Run(h, steps) && p in Newest(steps)
    ensures Kept(After(h, steps).g, p, Newest(steps)[p]) <==>
      p !in Overtaken(h, steps) || p in Places(After(h, steps).g.staged)
  {
    RunKeepsPayloads(h, steps);
    var g := After(h, steps).g;
    if p in Places(g.staged) {
      var e :| e in g.staged && PlaceOf(e) == p;
      assert e == SupplyEvent(p.0, p.1, Newest(steps)[p]);
    } else {
      assert SupplyEvent(p.0, p.1, Newest(steps)[p]) in g.staged ==> p in Places(g.staged);
    }
  }
}
