/**
 * The confirmation watcher: an in-memory list of pending anchors with a durable mirror. Registering appends to the
 * list and then writes the mirror; a tick drains the list, polls each anchor, and puts back what is not finished,
 * while other threads may register; the process may die at any point and reload the mirror.
 */
module AnchorWatcher {
  import opened Prelude
  import opened Listings

  datatype Anchor = Anchor(txid: nat, context: nat)

  /** What polling one anchor comes to. */
  datatype Poll =
    | LookupFailed
    | Unconfirmed
    | FinishFailed
    | Finished(removed: bool)   // the finish returned Ok; `removed` says whether the durable row went away

  /** The tick in progress: drained anchors still to poll, those to put back, and what it has counted. */
  datatype Tick = Idle | Polling(todo: seq<Anchor>, kept: seq<Anchor>, confirmed: nat, drained: nat, arrived: nat)

  /** The last three fields are history: anchors whose registration completed, and anchors finished or stored late. */
  datatype Watcher = Watcher(
    list: seq<Anchor>, store: map<nat, Anchor>, tick: Tick,
    registered: set<Anchor>, finished: set<nat>, leftover: set<nat>)

  const START := Watcher([], map[], Idle, {}, {}, {})

  datatype Step =
    | Push(a: Anchor)        // broadcast done, the anchor joins the list
    | Write(a: Anchor)       // and is written through to the mirror
    | Drain
    | PollNext(answer: Poll)
    | EndTick
    | Restart(order: seq<Anchor>)  // the process dies and reloads the mirror, in the order the store lists it

  /** Everything the process holds in memory. */
  function Held(w: Watcher): seq<Anchor> {
    match w.tick
    case Idle => w.list
    case Polling(todo, kept, _, _, _) => kept + todo + w.list
  }

  ghost predicate Enabled(w: Watcher, step: Step) {
    match step
    // a broadcast transaction is new
    case Push(a) => (forall b :: b in Held(w) || b in w.registered ==> b.txid != a.txid) && a.txid !in w.finished
    case Write(a) => a !in w.registered && (a in Held(w) || a.txid in w.finished)
                     && (forall b :: b in w.registered ==> b.txid != a.txid)
    case Drain => w.tick.Idle?
    case PollNext(_) => w.tick.Polling? && w.tick.todo != []
    case EndTick => w.tick.Polling? && w.tick.todo == []
    case Restart(order) => Enumerates(order, w.store.Values)
  }

  ghost function Next(w: Watcher, step: Step): Watcher
    requires Enabled(w, step)
  {
    match step
    case Push(a) =>
      w.(list := w.list + [a], tick := if w.tick.Polling? then w.tick.(arrived := w.tick.arrived + 1) else Idle)
    case Write(a) =>
      w.(store := w.store[a.txid := a], registered := w.registered + {a},
         leftover := if a.txid in w.finished then w.leftover + {a.txid} else w.leftover)
    case Drain => w.(list := [], tick := Polling(w.list, [], 0, |w.list|, 0))
    case PollNext(answer) =>
      var a, rest := w.tick.todo[0], w.tick.todo[1..];
      match answer {
        case Finished(removed) =>
          w.(tick := w.tick.(todo := rest, confirmed := w.tick.confirmed + 1),
             store := if removed then w.store - {a.txid} else w.store,
             finished := w.finished + {a.txid},
             leftover := if a.txid !in w.store then w.leftover
                         else if removed then w.leftover - {a.txid} else w.leftover + {a.txid})
        case _ => w.(tick := w.tick.(todo := rest, kept := w.tick.kept + [a]))
      }
    case EndTick => w.(list := w.tick.kept + w.list, tick := Idle)
    case Restart(order) => w.(list := order, tick := Idle)
  }

  // ----- the invariant -----

  ghost predicate DistinctTxids(s: seq<Anchor>) {
    forall i, j :: 0 <= i < j < |s| ==> s[i].txid != s[j].txid
  }

  /**
   * What is in memory: one anchor per transaction, every registered anchor that is not finished, and finished ones only
   * as reloaded leftovers.
   */
  ghost predicate MemoryOk(held: seq<Anchor>, registered: set<Anchor>, finished: set<nat>) {
    && DistinctTxids(held)
    && (forall a, b :: a in held && b in registered && a.txid == b.txid ==> a == b)
    && (forall a :: a in registered && a.txid !in finished ==> a in held)
    && (forall a :: a in held && a.txid in finished ==> a in registered)
  }

  /** What is in the mirror: the registered anchors that are not finished, and the leftovers. */
  ghost predicate MirrorOk(store: map<nat, Anchor>, registered: set<Anchor>, finished: set<nat>, leftover: set<nat>) {
    && (forall a, b :: a in registered && b in registered && a.txid == b.txid ==> a == b)
    && (forall t :: t in store ==> store[t] in registered && store[t].txid == t)
    && (forall a :: a in registered ==> (a.txid in store <==> a.txid !in finished || a.txid in leftover))
    && leftover <= finished
  }

  ghost predicate Inv(w: Watcher) {
    && MemoryOk(Held(w), w.registered, w.finished)
    && MirrorOk(w.store, w.registered, w.finished, w.leftover)
    && Books(w.tick, w.list)
  }

  ghost predicate Books(tick: Tick, list: seq<Anchor>) {
    tick.Polling? ==>
      tick.confirmed + |tick.kept| + |tick.todo| == tick.drained && |list| == tick.arrived
  }

  lemma SameTxidSameAnchor(s: seq<Anchor>, a: Anchor, b: Anchor)
    requires DistinctTxids(s) && a in s && b in s && a.txid == b.txid
    ensures a == b
  {
    var i :| 0 <= i < |s| && s[i] == a;
    var j :| 0 <= j < |s| && s[j] == b;
  }

  lemma HeldPush(w: Watcher, a: Anchor)
    requires Enabled(w, Push(a))
    ensures Held(Next(w, Push(a))) == Held(w) + [a]
  {
    if w.tick.Polling? {
      assert w.tick.kept + w.tick.todo + (w.list + [a]) == w.tick.kept + w.tick.todo + w.list + [a];
    }
  }

  lemma HeldDrain(w: Watcher)
    requires Enabled(w, Drain)
    ensures Held(Next(w, Drain)) == Held(w)
  {
    assert [] + w.list + [] == w.list;
  }

  lemma HeldEndTick(w: Watcher)
    requires Enabled(w, EndTick)
    ensures Held(Next(w, EndTick)) == Held(w)
  {
    assert w.tick.kept + [] + w.list == w.tick.kept + w.list;
  }

  lemma PushKeeps(w: Watcher, a: Anchor)
    requires Inv(w) && Enabled(w, Push(a))
    ensures Inv(Next(w, Push(a)))
  {
    HeldPush(w, a);
    assert forall i :: 0 <= i < |Held(w)| ==> Held(w)[i] in Held(w);
  }

  lemma WriteKeeps(w: Watcher, a: Anchor)
    requires Inv(w) && Enabled(w, Write(a))
    ensures Inv(Next(w, Write(a)))
  {
    var w' := Next(w, Write(a));
    assert Held(w') == Held(w);
    forall b | b in Held(w) && b.txid == a.txid
      ensures b == a
    {
      if a in Held(w) {
        SameTxidSameAnchor(Held(w), a, b);
      }
    }
  }

  /** Removing one anchor from the middle of the list. */
  lemma DropHead(kept: seq<Anchor>, a: Anchor, rest: seq<Anchor>, list: seq<Anchor>)
    requires DistinctTxids(kept + ([a] + rest) + list)
    ensures DistinctTxids(kept + rest + list)
    ensures forall b :: b in kept + rest + list <==> b in kept + ([a] + rest) + list && b.txid != a.txid
  {
    var s, t := kept + ([a] + rest) + list, kept + rest + list;
    var n := |kept|;
    assert s[n] == a;
    assert forall i :: 0 <= i < |t| ==> t[i] == s[if i < n then i else i + 1];
    forall b | b in s && b.txid != a.txid
      ensures b in t
    {
      var i :| 0 <= i < |s| && s[i] == b;
      assert t[if i < n then i else i - 1] == b;
    }
    forall b | b in t
      ensures b in s && b.txid != a.txid
    {
      var i :| 0 <= i < |t| && t[i] == b;
    }
  }

  lemma Shift(kept: seq<Anchor>, a: Anchor, rest: seq<Anchor>, list: seq<Anchor>)
    ensures kept + [a] + rest + list == kept + ([a] + rest) + list
  {
    assert kept + [a] + rest == kept + ([a] + rest);
  }

  /** Polling an anchor that is not finished moves it from one part of memory to another. */
  lemma HeldUnfinished(w: Watcher, answer: Poll)
    requires Enabled(w, PollNext(answer)) && !answer.Finished?
    ensures Held(Next(w, PollNext(answer))) == Held(w)
  {
    var a, rest := w.tick.todo[0], w.tick.todo[1..];
    assert w.tick.todo == [a] + rest;
    Shift(w.tick.kept, a, rest, w.list);
  }

  /** Finishing an anchor drops it from memory and nothing else. */
  lemma HeldFinished(w: Watcher, removed: bool)
    requires Enabled(w, PollNext(Finished(removed))) && DistinctTxids(Held(w))
    ensures w.tick.todo[0] in Held(w)
    ensures DistinctTxids(Held(Next(w, PollNext(Finished(removed)))))
    ensures forall b :: b in Held(Next(w, PollNext(Finished(removed)))) <==>
      b in Held(w) && b.txid != w.tick.todo[0].txid
  {
    var a, rest := w.tick.todo[0], w.tick.todo[1..];
    assert w.tick.todo == [a] + rest;
    assert a in w.tick.todo;
    DropHead(w.tick.kept, a, rest, w.list);
  }

  lemma PollKeepsUnfinished(w: Watcher, answer: Poll)
    requires Inv(w) && Enabled(w, PollNext(answer)) && !answer.Finished?
    ensures Inv(Next(w, PollNext(answer)))
  {
    HeldUnfinished(w, answer);
  }

  lemma MemoryAfterFinish(held: seq<Anchor>, held': seq<Anchor>, registered: set<Anchor>, finished: set<nat>, a: Anchor)
    requires MemoryOk(held, registered, finished) && a in held
    requires DistinctTxids(held') && forall b :: b in held' <==> b in held && b.txid != a.txid
    ensures MemoryOk(held', registered, finished + {a.txid})
  {
  }

  lemma MirrorAfterFinish(w: Watcher, a: Anchor, removed: bool)
    requires MirrorOk(w.store, w.registered, w.finished, w.leftover) && w.tick.Polling? && w.tick.todo != []
    requires a == w.tick.todo[0]
    ensures var w' := Next(w, PollNext(Finished(removed)));
      MirrorOk(w'.store, w'.registered, w'.finished, w'.leftover)
  {
  }

  lemma PollFinishes(w: Watcher, removed: bool)
    requires Inv(w) && Enabled(w, PollNext(Finished(removed)))
    ensures Inv(Next(w, PollNext(Finished(removed))))
  {
    var a := w.tick.todo[0];
    HeldFinished(w, removed);
    MemoryAfterFinish(Held(w), Held(Next(w, PollNext(Finished(removed)))), w.registered, w.finished, a);
    MirrorAfterFinish(w, a, removed);
  }

  lemma RestartKeeps(w: Watcher, order: seq<Anchor>)
    requires Inv(w) && Enabled(w, Restart(order))
    ensures Inv(Next(w, Restart(order)))
  {
    forall a | a in order
      ensures a.txid in w.store && w.store[a.txid] == a
    {
      assert a in Elements(order);
      var t :| t in w.store && w.store[t] == a;
    }
    forall a | a in w.registered && a.txid in w.store
      ensures a in order
    {
      assert w.store[a.txid] == a;
      assert a in Elements(order);
    }
    assert forall i :: 0 <= i < |order| ==> order[i] in order;
  }

  lemma StepKeeps(w: Watcher, step: Step)
    requires Inv(w) && Enabled(w, step)
    ensures Inv(Next(w, step))
  {
    match step
    case Push(a) => PushKeeps(w, a);
    case Write(a) => WriteKeeps(w, a);
    case Drain => HeldDrain(w);
    case PollNext(answer) =>
      if answer.Finished? {
        PollFinishes(w, answer.removed);
      } else {
        PollKeepsUnfinished(w, answer);
      }
    case EndTick => HeldEndTick(w);
    case Restart(order) => RestartKeeps(w, order);
  }

  // ----- whole runs -----

  ghost predicate Run(steps: seq<Step>)
    decreases |steps|, 0
  {
    steps == [] || (Run(steps[..|steps| - 1]) && Enabled(After(steps[..|steps| - 1]), steps[|steps| - 1]))
  }

  ghost function After(steps: seq<Step>): Watcher
    requires Run(steps)
    decreases |steps|, 1
  {
    if steps == [] then START else Next(After(steps[..|steps| - 1]), steps[|steps| - 1])
  }

  lemma {:induction false} RunKeeps(steps: seq<Step>)
    requires Run(steps)
    ensures Inv(After(steps))
    decreases |steps|
  {
    if steps != [] {
      RunKeeps(steps[..|steps| - 1]);
      StepKeeps(After(steps[..|steps| - 1]), steps[|steps| - 1]);
    }
  }

  /**
   * No anchor is lost: whatever the chain answers, whichever finishes fail and wherever the process dies, an anchor
   * whose registration completed is finished, or it is both in the mirror and in memory, there exactly once.
   */
  lemma NoAnchorLost(steps: seq<Step>, a: Anchor)
    requires Run(steps) && a in After(steps).registered && a.txid !in After(steps).finished
    ensures var w := After(steps);
      && a.txid in w.store && w.store[a.txid] == a
      && multiset(Held(w))[a] == 1
  {
    RunKeeps(steps);
    var w := After(steps);
    assert a in Held(w);
    DistinctOnce(Held(w), a);
  }

  lemma {:induction false} DistinctOnce(s: seq<Anchor>, a: Anchor)
    requires DistinctTxids(s) && a in s
    ensures multiset(s)[a] == 1
    decreases |s|
  {
    var front, last := s[..|s| - 1], s[|s| - 1];
    assert s == front + [last];
    if a in front {
      SameTxidSameAnchor(s, a, a);
      DistinctOnce(front, a);
      var i :| 0 <= i < |front| && front[i] == a;
      assert s[i].txid != s[|s| - 1].txid;
    }
  }

  /**
   * A restart watches every unfinished registered anchor once, and besides them exactly the leftovers: anchors whose
   * mirror row was written after they finished, or could not be removed.
   */
  lemma RestartReloads(steps: seq<Step>, order: seq<Anchor>)
    requires Run(steps) && Enabled(After(steps), Restart(order))
    ensures DistinctTxids(order)
    ensures var w := After(steps);
      forall a :: a in order <==> a in w.registered && (a.txid !in w.finished || a.txid in w.leftover)
  {
    RunKeeps(steps);
    var w := After(steps);
    RestartKeeps(w, order);
    forall a | a in w.registered && (a.txid !in w.finished || a.txid in w.leftover)
      ensures a in order
    {
      assert w.store[a.txid] == a;
      assert a in Elements(order);
    }
    forall a | a in order
      ensures a in w.registered && (a.txid !in w.finished || a.txid in w.leftover)
    {
      assert a in Elements(order);
      var t :| t in w.store && w.store[t] == a;
    }
  }

  /** The books of a tick: what it confirmed and what it leaves pending is what it found and what arrived meanwhile. */
  lemma TickBalances(steps: seq<Step>)
    requires Run(steps) && Enabled(After(steps), EndTick)
    ensures var w := After(steps);
      w.tick.confirmed + |Next(w, EndTick).list| == w.tick.drained + w.tick.arrived
  {
    RunKeeps(steps);
  }

  /** An anchor only leaves memory when its finish returned Ok, or when the process dies. */
  lemma LeavesOnlyFinished(w: Watcher, step: Step, a: Anchor)
    requires Inv(w) && Enabled(w, step) && a in Held(w)
    ensures a in Held(Next(w, step)) || step.Restart?
      || (step.PollNext? && step.answer.Finished? && a.txid in Next(w, step).finished)
  {
    match step
    case Push(b) => HeldPush(w, b);
    case Write(b) => assert Held(Next(w, step)) == Held(w);
    case Drain => HeldDrain(w);
    case EndTick => HeldEndTick(w);
    case Restart(_) =>
    case PollNext(answer) =>
      if answer.Finished? {
        HeldFinished(w, answer.removed);
      } else {
        HeldUnfinished(w, answer);
      }
  }

  /** The anchor was pushed, and the process has not died since. */
  ghost predicate PushedSince(steps: seq<Step>, a: Anchor) {
    && steps != []
    && (steps[|steps| - 1] == Push(a) || (!steps[|steps| - 1].Restart? && PushedSince(steps[..|steps| - 1], a)))
  }

  lemma WatchedStep(w: Watcher, step: Step, a: Anchor, since: bool)
    requires Inv(w) && Enabled(w, step) && a.txid !in Next(w, step).finished
    requires a in Held(w) <==> a in w.registered || since
    ensures a in Held(Next(w, step)) <==>
      a in Next(w, step).registered || step == Push(a) || (!step.Restart? && since)
  {
    match step
    case Push(b) => HeldPush(w, b);
    case Write(b) => assert Held(Next(w, step)) == Held(w);
    case Drain => HeldDrain(w);
    case EndTick => HeldEndTick(w);
    case Restart(order) => RestartHolds(w, order, a);
    case PollNext(answer) =>
      if answer.Finished? {
        HeldFinished(w, answer.removed);
      } else {
        HeldUnfinished(w, answer);
      }
  }

  lemma RestartHolds(w: Watcher, order: seq<Anchor>, a: Anchor)
    requires Inv(w) && Enabled(w, Restart(order)) && a.txid !in w.finished
    ensures a in order <==> a in w.registered
  {
    if a in w.registered {
      assert w.store[a.txid] == a;
      assert a in Elements(order);
    }
    if a in order {
      assert a in Elements(order);
      var t :| t in w.store && w.store[t] == a;
    }
  }

  /**
   * Exactly which unfinished anchors are watched: those whose mirror row was written, and those pushed since the last
   * restart. An anchor that was broadcast and pushed is lost if the process dies before the row is written.
   */
  lemma {:induction false} WatchedIff(steps: seq<Step>, a: Anchor)
    requires Run(steps) && a.txid !in After(steps).finished
    ensures a in Held(After(steps)) <==> a in After(steps).registered || PushedSince(steps, a)
    decreases |steps|
  {
    if steps != [] {
      var front := steps[..|steps| - 1];
      RunKeeps(front);
      FinishedGrows(After(front), steps[|steps| - 1]);
      WatchedIff(front, a);
      WatchedStep(After(front), steps[|steps| - 1], a, PushedSince(front, a));
    }
  }

  lemma FinishedGrows(w: Watcher, step: Step)
    requires Enabled(w, step)
    ensures w.finished <= Next(w, step).finished
  {
  }

  /** So it does happen that a broadcast anchor is gone from memory and mirror alike. */
  lemma LostBetweenWrites(a: Anchor) returns (steps: seq<Step>)
    ensures Run(steps) && Push(a) in steps && a.txid !in After(steps).finished
    ensures Held(After(steps)) == [] && After(steps).store == map[]
  {
    RunSnoc([], Push(a));
    var pushed := [] + [Push(a)];
    assert After(pushed).store == map[] && After(pushed).finished == {};
    assert Enumerates([], After(pushed).store.Values);
    RunSnoc(pushed, Restart([]));
    steps := pushed + [Restart([])];
    assert pushed[0] == Push(a) && steps[0] == Push(a);
  }

  lemma RunSnoc(steps: seq<Step>, step: Step)
    requires Run(steps) && Enabled(After(steps), step)
    ensures Run(steps + [step]) && After(steps + [step]) == Next(After(steps), step)
  {
    assert (steps + [step])[..|steps|] == steps;
  }

  /** An anchor can finish between the two writes of its registration. */
  lemma FinishedBeforeWrite(a: Anchor) returns (steps: seq<Step>)
    ensures Run(steps) && After(steps) == START.(tick := Polling([], [], 1, 1, 0), finished := {a.txid})
    ensures steps == [Push(a), Drain, PollNext(Finished(true))]
  {
    RunSnoc([], Push(a));
    var w1 := START.(list := [a]);
    assert Next(START, Push(a)) == w1 && [] + [Push(a)] == [Push(a)];
    RunSnoc([Push(a)], Drain);
    var w2 := START.(tick := Polling([a], [], 0, 1, 0));
    assert Next(w1, Drain) == w2 && [Push(a)] + [Drain] == [Push(a), Drain];
    RunSnoc([Push(a), Drain], PollNext(Finished(true)));
    assert [a][1..] == [] && START.store - {a.txid} == map[];
    steps := [Push(a), Drain] + [PollNext(Finished(true))];
  }

  /**
   * Leftovers do arise without any failure: the list is written before the mirror, so a tick in between finishes the
   * anchor, finds no row to remove, and the row written afterwards is reloaded by the next start.
   */
  lemma LateWriteIsReloaded(a: Anchor) returns (steps: seq<Step>)
    ensures Run(steps) && a.txid in After(steps).finished
    ensures Enabled(After(steps), Restart([a])) && Held(Next(After(steps), Restart([a]))) == [a]
    ensures forall step :: step in steps ==> step != PollNext(FinishFailed) && step != PollNext(Finished(false))
  {
    var early := FinishedBeforeWrite(a);
    RunSnoc(early, Write(a));
    steps := early + [Write(a)];
    assert After(steps).store == map[a.txid := a];
    assert map[a.txid := a].Values == {a} == Elements([a]);
  }

  // ----- the loops as the node runs them -----

  datatype Summary = Summary(confirmed: nat, pending: nat)

  /** What polling the anchors in turn puts back. */
  function Kept(s: seq<Anchor>, answer: Anchor -> Poll): seq<Anchor> {
    if s == [] then []
    else Kept(s[..|s| - 1], answer) + (if answer(s[|s| - 1]).Finished? then [] else [s[|s| - 1]])
  }

  /** The ids whose mirror row the tick removes. */
  function RemovedIds(s: seq<Anchor>, answer: Anchor -> Poll): set<nat> {
    set a | a in s && answer(a) == Finished(true) :: a.txid
  }

  class TapNode {
    var pending: seq<Anchor>
    var store: map<nat, Anchor>

    constructor ()
      ensures pending == [] && store == map[]
    {
      pending := [];
      store := map[];
    }

    method Register(a: Anchor)
      modifies this
      ensures pending == old(pending) + [a] && store == old(store)[a.txid := a]
    {
      pending := pending + [a];
      store := store[a.txid := a];
    }

    /** One tick; `arrivals` are the anchors other threads append to the list while it polls. */
    method PollConfirmations(answer: Anchor -> Poll, arrivals: seq<Anchor>) returns (summary: Summary)
      modifies this
      ensures pending == Kept(old(pending), answer) + arrivals
      ensures store == old(store) - RemovedIds(old(pending), answer)
      ensures summary.pending == |pending|
      ensures summary.confirmed + summary.pending == |old(pending)| + |arrivals|
    {
      var drained, rows := pending, store;
      pending := [];
      var stillPending: seq<Anchor> := [];
      var confirmed := 0;
      for n := 0 to |drained|
        invariant pending == []
        invariant stillPending == Kept(drained[..n], answer)
        invariant store == rows - RemovedIds(drained[..n], answer)
        invariant confirmed + |stillPending| == n
      {
        var a := drained[n];
        assert drained[..n + 1] == drained[..n] + [a];
        RemovedSnoc(drained[..n], a, answer);
        match answer(a) {
          case Finished(removed) =>
            confirmed := confirmed + 1;
            if removed {
              store := store - {a.txid};
            }
          case FinishFailed => stillPending := stillPending + [a];
          case Unconfirmed => stillPending := stillPending + [a];
          case LookupFailed => stillPending := stillPending + [a];
        }
      }
      assert drained[..|drained|] == drained;
      pending := pending + arrivals;
      pending := stillPending + pending;
      summary := Summary(confirmed, |pending|);
    }
  }

  /** A tick of the state machine that has polled the first `n` anchors of `list`, while `arrivals` were pushed. */
  ghost predicate Polled(w: Watcher, list: seq<Anchor>, store: map<nat, Anchor>, answer: Anchor -> Poll, n: nat,
                         arrivals: seq<Anchor>)
    requires n <= |list|
  {
    && w.tick.Polling? && w.list == arrivals
    && w.tick.todo == list[n..]
    && w.tick.kept == Kept(list[..n], answer)
    && w.store == store - RemovedIds(list[..n], answer)
  }

  lemma PollOnce(w: Watcher, list: seq<Anchor>, store: map<nat, Anchor>, answer: Anchor -> Poll, n: nat,
                 arrivals: seq<Anchor>)
    requires n < |list| && Polled(w, list, store, answer, n, arrivals)
    ensures Polled(Next(w, PollNext(answer(list[n]))), list, store, answer, n + 1, arrivals)
  {
    assert list[n..][1..] == list[n + 1..];
    assert list[..n + 1] == list[..n] + [list[n]];
    RemovedSnoc(list[..n], list[n], answer);
  }

  lemma DrainStarts(w: Watcher, answer: Anchor -> Poll)
    requires w.tick.Idle?
    ensures Polled(Next(w, Drain), w.list, w.store, answer, 0, [])
  {
    assert w.list[0..] == w.list && w.store - {} == w.store;
  }

  /** From place `k` on the run is a tick: it drains, and then polls in order and registers in any order. */
  ghost predicate Ticking(steps: seq<Step>, k: nat, answer: Anchor -> Poll)
    requires Run(steps)
    decreases |steps|
  {
    && k < |steps|
    && if |steps| == k + 1 then steps[k] == Drain
       else
         var front, last := steps[..|steps| - 1], steps[|steps| - 1];
         && Ticking(front, k, answer)
         && (last.Push? || (last.PollNext? && last.answer == answer(After(front).tick.todo[0])))
  }

  /** The anchors registered during it. */
  function Arrivals(steps: seq<Step>, k: nat): seq<Anchor>
    decreases |steps|
  {
    if |steps| <= k + 1 then []
    else
      var last := steps[|steps| - 1];
      Arrivals(steps[..|steps| - 1], k) + (if last.Push? then [last.a] else [])
  }

  function Polls(steps: seq<Step>, k: nat): nat
    decreases |steps|
  {
    if |steps| <= k + 1 then 0
    else Polls(steps[..|steps| - 1], k) + (if steps[|steps| - 1].PollNext? then 1 else 0)
  }

  lemma RunPrefix(steps: seq<Step>, k: nat)
    requires Run(steps) && k <= |steps|
    ensures Run(steps[..k])
    decreases |steps|
  {
    if k == |steps| {
      assert steps[..k] == steps;
    } else {
      RunPrefix(steps[..|steps| - 1], k);
      assert steps[..|steps| - 1][..k] == steps[..k];
    }
  }

  lemma {:induction false} TickSoFar(steps: seq<Step>, k: nat, answer: Anchor -> Poll)
    requires Run(steps) && Ticking(steps, k, answer)
    ensures Run(steps[..k]) && Polls(steps, k) <= |After(steps[..k]).list|
    ensures var w := After(steps[..k]);
      Polled(After(steps), w.list, w.store, answer, Polls(steps, k), Arrivals(steps, k))
    decreases |steps|
  {
    RunPrefix(steps, k);
    var front, last := steps[..|steps| - 1], steps[|steps| - 1];
    if |steps| == k + 1 {
      DrainStarts(After(front), answer);
    } else {
      TickSoFar(front, k, answer);
      assert front[..k] == steps[..k];
      var w, n := After(steps[..k]), Polls(front, k);
      if last.PollNext? {
        assert After(front).tick.todo == w.list[n..];
        assert w.list[n..][0] == w.list[n];
        PollOnce(After(front), w.list, w.store, answer, n, Arrivals(front, k));
        assert Arrivals(steps, k) == Arrivals(front, k);
      }
    }
  }

  /**
   * Whatever is registered while a tick polls, and in whatever order: the list ends up as what was not finished
   * followed by the arrivals, and exactly the removed rows are gone from the mirror.
   */
  lemma TickResult(steps: seq<Step>, k: nat, answer: Anchor -> Poll)
    requires Run(steps) && Ticking(steps, k, answer) && Enabled(After(steps), EndTick)
    ensures Run(steps[..k])
    ensures var w, w' := After(steps[..k]), Next(After(steps), EndTick);
      && w'.list == Kept(w.list, answer) + Arrivals(steps, k)
      && w'.store == w.store - RemovedIds(w.list, answer)
  {
    TickSoFar(steps, k, answer);
    var w := After(steps[..k]);
    assert Polls(steps, k) == |w.list|;
    assert w.list[..|w.list|] == w.list;
  }

  /** Such a run exists for every list and every answers. */
  lemma {:induction false} TickExists(before: seq<Step>, answer: Anchor -> Poll, n: nat) returns (steps: seq<Step>)
    requires Run(before) && After(before).tick.Idle? && n <= |After(before).list|
    ensures Run(steps) && |steps| == |before| + 1 + n && steps[..|before|] == before
    ensures Ticking(steps, |before|, answer) && Polls(steps, |before|) == n
    decreases n
  {
    var k, w := |before|, After(before);
    if n == 0 {
      RunSnoc(before, Drain);
      steps := before + [Drain];
    } else {
      var front := TickExists(before, answer, n - 1);
      TickSoFar(front, k, answer);
      var poll := PollNext(answer(w.list[n - 1]));
      RunSnoc(front, poll);
      steps := front + [poll];
      assert steps[..|steps| - 1] == front;
    }
  }

  lemma RemovedSnoc(s: seq<Anchor>, a: Anchor, answer: Anchor -> Poll)
    ensures (s + [a])[..|s|] == s
    ensures RemovedIds(s + [a], answer) ==
      RemovedIds(s, answer) + (if answer(a) == Finished(true) then {a.txid} else {})
  {
    assert forall x :: x in s + [a] <==> x in s || x == a;
  }

  /** A mirror row and the decoder for its payload. */
  datatype Row = Row(txid: nat, payload: nat)

  function Ids(rows: seq<Row>): set<nat> {
    set row | row in rows :: row.txid
  }

  /** The rows that are the first of their transaction. */
  function Firsts(rows: seq<Row>): seq<Row> {
    if rows == [] then []
    else
      var front, last := rows[..|rows| - 1], rows[|rows| - 1];
      Firsts(front) + (if last.txid in Ids(front) then [] else [last])
  }

  /** They are rows, one for each transaction that has any, and no transaction twice. */
  lemma {:induction false} FirstsCover(rows: seq<Row>)
    ensures Ids(Firsts(rows)) == Ids(rows)
    ensures forall row :: row in Firsts(rows) ==> row in rows
    ensures forall i, j :: 0 <= i < j < |Firsts(rows)| ==> Firsts(rows)[i].txid != Firsts(rows)[j].txid
    decreases |rows|
  {
    if rows != [] {
      var front, last := rows[..|rows| - 1], rows[|rows| - 1];
      assert rows == front + [last];
      FirstsCover(front);
      assert Ids(rows) == Ids(front) + {last.txid} by {
        assert forall row :: row in rows <==> row in front || row == last;
      }
      var kept := Firsts(front);
      if last.txid in Ids(front) {
        assert Firsts(rows) == kept;
      } else {
        assert forall row :: row in kept + [last] <==> row in kept || row == last;
        assert forall i :: 0 <= i < |kept| ==> kept[i] in kept && kept[i].txid in Ids(kept);
      }
    }
  }

  lemma FirstsStep(rows: seq<Row>, n: nat)
    requires n < |rows|
    ensures Ids(rows[..n + 1]) == Ids(rows[..n]) + {rows[n].txid}
    ensures Firsts(rows[..n + 1]) == Firsts(rows[..n]) + (if rows[n].txid in Ids(rows[..n]) then [] else [rows[n]])
  {
    assert rows[..n + 1][..n] == rows[..n] && rows[..n + 1] == rows[..n] + [rows[n]];
    assert forall x :: x in rows[..n + 1] <==> x in rows[..n] || x == rows[n];
  }

  /** Reloads the watch list: one anchor per transaction, in row order; an undecodable row fails the whole start. */
  method RestorePending(rows: seq<Row>, decode: Row -> Option<Anchor>) returns (r: Option<seq<Anchor>>)
    ensures r.None? <==> exists row :: row in Firsts(rows) && decode(row).None?
    ensures r.Some? ==> |r.value| == |Firsts(rows)|
    ensures r.Some? ==> forall i :: 0 <= i < |r.value| ==> decode(Firsts(rows)[i]) == Some(r.value[i])
  {
    var restored: seq<Anchor> := [];
    var seen: set<nat> := {};
    for n := 0 to |rows|
      invariant seen == Ids(rows[..n])
      invariant |restored| == |Firsts(rows[..n])|
      invariant forall i :: 0 <= i < |restored| ==> decode(Firsts(rows[..n])[i]) == Some(restored[i])
    {
      var row := rows[n];
      FirstsStep(rows, n);
      if row.txid in seen {
        continue;
      }
      seen := seen + {row.txid};
      var anchor := decode(row);
      if anchor.None? {
        FirstsPrefix(rows, n + 1);
        assert row in Firsts(rows[..n + 1]);
        return None;
      }
      restored := restored + [anchor.value];
    }
    assert rows[..|rows|] == rows;
    r := Some(restored);
  }

  lemma {:induction false} FirstsPrefix(rows: seq<Row>, n: nat)
    requires n <= |rows|
    ensures Firsts(rows[..n]) <= Firsts(rows)
    decreases |rows|
  {
    if n < |rows| {
      FirstsPrefix(rows[..|rows| - 1], n);
      assert rows[..|rows| - 1][..n] == rows[..n];
    } else {
      assert rows[..n] == rows;
    }
  }
}
