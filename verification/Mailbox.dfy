/**
 * Polling one receiver's mailbox: fetch what lies past the cursor, import the messages that check out, then move the
 * cursor and ask the server to drop what was processed. A failing proof check ends the poll with the cursor unmoved.
 */
module Mailbox {
  import opened Prelude

  /** The most outputs a send fragment may carry. */
  const MAX_OUTPUTS: nat := 256

  datatype Output = Output(assetId: nat, amount: nat)

  datatype Message = Message(id: nat, height: nat, outputs: seq<Output>)

  datatype Cursor = Cursor(lastId: nat, lastBlock: nat)

  /** What checking one output comes to; the first three leave the message for later, the fourth ends the poll. */
  datatype OutputCheck = NotDerived | KeyMismatch | NoProof | BadProof | Good

  datatype ChainCheck = Unavailable | OtherBlock | SameBlock

  /**
   * What the outside answers during one poll: decryption, the chain, the courier with the proof checks, how many of a
   * message's outputs the stores accept before a write fails, and whether the mailbox store takes the new cursor. The
   * transport lists the messages past the cursor in an order of its own.
   */
  datatype World = World(
    listing: seq<Message>, decrypts: Message -> bool, chain: Message -> ChainCheck,
    check: (Message, Output) -> OutputCheck, accepts: Message -> nat, takesCursor: bool)

  datatype Verdict = Take | Skip | Abort

  function OutputsVerdict(w: World, m: Message, outputs: seq<Output>): Verdict {
    if outputs == [] then Take
    else
      var before := OutputsVerdict(w, m, outputs[..|outputs| - 1]);
      if before != Take then before
      else
        match w.check(m, outputs[|outputs| - 1])
        case Good => Take
        case BadProof => Abort
        case _ => Skip
  }

  /** A fragment without outputs, or with too many, is refused together with what does not decrypt. */
  function MessageVerdict(w: World, m: Message): Verdict {
    if !w.decrypts(m) || m.outputs == [] || |m.outputs| > MAX_OUTPUTS then Skip
    else
      match w.chain(m)
      case Unavailable => Abort
      case OtherBlock => Skip
      case SameBlock => OutputsVerdict(w, m, m.outputs)
  }

  /** A message is taken when every one of its outputs checks out, and not otherwise. */
  lemma {:induction false} TakenIff(w: World, m: Message, outputs: seq<Output>)
    ensures OutputsVerdict(w, m, outputs) == Take <==> forall o :: o in outputs ==> w.check(m, o) == Good
    decreases |outputs|
  {
    if outputs != [] {
      var front, last := outputs[..|outputs| - 1], outputs[|outputs| - 1];
      assert outputs == front + [last];
      TakenIff(w, m, front);
      assert forall o :: o in outputs <==> o in front || o == last;
    }
  }

  function Greatest(a: nat, b: nat): nat {
    if a < b then b else a
  }

  function Advance(c: Cursor, m: Message): Cursor {
    Cursor(Greatest(c.lastId, m.id), Greatest(c.lastBlock, m.height))
  }

  /**
   * How far a poll got: the messages imported in full, the outputs of a last one whose import broke off, the cursor it
   * would store, and whether it ended early.
   */
  datatype Progress = Progress(imports: seq<Message>, partial: seq<Output>, cursor: Cursor, aborted: bool)

  /** What one more message does to a poll. */
  function Handle(w: World, p: Progress, m: Message): Progress {
    if p.aborted then p
    else
      match MessageVerdict(w, m)
      case Take =>
        if w.accepts(m) < |m.outputs| then p.(partial := m.outputs[..w.accepts(m)], aborted := true)
        else Progress(p.imports + [m], [], Advance(p.cursor, m), false)
      case Skip => p
      case Abort => p.(aborted := true)
  }

  function Process(w: World, messages: seq<Message>, c: Cursor): Progress {
    if messages == [] then Progress([], [], c, false)
    else Handle(w, Process(w, messages[..|messages| - 1], c), messages[|messages| - 1])
  }

  /** The whole poll: a cursor that has moved is stored at the end, and a failure to do so is an error as well. */
  function Polled(w: World, messages: seq<Message>, c: Cursor): Progress {
    var p := Process(w, messages, c);
    if p.cursor != c && !w.takesCursor then p.(aborted := true) else p
  }

  function Ids(messages: seq<Message>): set<nat> {
    set m | m in messages :: m.id
  }

  function WithoutIds(server: seq<Message>, ids: set<nat>): seq<Message> {
    if server == [] then []
    else
      var m := server[|server| - 1];
      WithoutIds(server[..|server| - 1], ids) + (if m.id in ids then [] else [m])
  }

  /** Every output of every imported message, in order. */
  function OutputsOf(imports: seq<Message>): seq<Output> {
    if imports == [] then [] else OutputsOf(imports[..|imports| - 1]) + imports[|imports| - 1].outputs
  }

  /** The imported assets once a poll has got that far. */
  function RowsAfter(rows: seq<Output>, p: Progress): seq<Output> {
    rows + OutputsOf(p.imports) + p.partial
  }

  // ----- whole runs -----

  /**
   * The mailbox with the assets imported from it. The last three fields are history: what arrived, what completed polls
   * imported, and all messages imported in full, in order.
   */
  datatype Box = Box(
    server: seq<Message>, cursor: Cursor, rows: seq<Output>,
    arrived: set<Message>, done: set<nat>, imports: seq<Message>)

  const EMPTY := Box([], Cursor(0, 0), [], {}, {}, [])

  datatype Step = Arrive(m: Message) | Poll(w: World, removed: bool)

  /** The message is on the server and past the cursor. */
  predicate Pending(b: Box, m: Message) {
    m in b.server && m.id > b.cursor.lastId
  }

  /** The transport lists exactly the messages past the cursor, each once. */
  ghost predicate Lists(b: Box, w: World) {
    DistinctIds(w.listing) && forall m :: m in w.listing <==> Pending(b, m)
  }

  ghost predicate DistinctIds(s: seq<Message>) {
    forall i, j :: 0 <= i < j < |s| ==> s[i].id != s[j].id
  }

  /** Ids are not used twice; they need not come in order. */
  ghost predicate Enabled(b: Box, step: Step) {
    match step
    case Arrive(m) => m.id >= 1 && forall a :: a in b.arrived ==> a.id != m.id
    case Poll(w, _) => Lists(b, w)
  }

  function PollResult(b: Box, w: World): Progress {
    Polled(w, w.listing, b.cursor)
  }

  function Next(b: Box, step: Step): Box {
    match step
    case Arrive(m) => b.(server := b.server + [m], arrived := b.arrived + {m})
    case Poll(w, removed) =>
      var p := PollResult(b, w);
      var b' := b.(rows := RowsAfter(b.rows, p), imports := b.imports + p.imports);
      if p.aborted then b'
      else
        b'.(server := if removed then WithoutIds(b.server, Ids(p.imports)) else b.server,
            cursor := p.cursor, done := b.done + Ids(p.imports))
  }

  ghost predicate Run(steps: seq<Step>) {
    steps == [] || (Run(steps[..|steps| - 1]) && Enabled(After(steps[..|steps| - 1]), steps[|steps| - 1]))
  }

  function After(steps: seq<Step>): Box {
    if steps == [] then EMPTY else Next(After(steps[..|steps| - 1]), steps[|steps| - 1])
  }

  /** Everything that arrived is still on the server or was imported for good, and the cursor is past the latter. */
  ghost predicate Inv(b: Box) {
    && (forall m, n :: m in b.arrived && n in b.arrived && m.id == n.id ==> m == n)
    && (forall m :: m in b.arrived ==> m.id >= 1)
    && (forall m :: m in b.server ==> m in b.arrived)
    && (forall m :: m in b.arrived ==> m in b.server || m.id in b.done)
    && (forall id :: id in b.done ==> id <= b.cursor.lastId)
    && (b.cursor.lastId == 0 || b.cursor.lastId in b.done)
    && (forall id :: id in b.done ==> exists m :: m in b.imports && m.id == id)
  }

  lemma {:induction false} KeptOnServer(server: seq<Message>, ids: set<nat>, m: Message)
    ensures m in WithoutIds(server, ids) <==> m in server && m.id !in ids
    decreases |server|
  {
    if server != [] {
      KeptOnServer(server[..|server| - 1], ids, m);
      assert server == server[..|server| - 1] + [server[|server| - 1]];
    }
  }

  lemma IdsSnoc(s: seq<Message>, m: Message)
    ensures Ids(s + [m]) == Ids(s) + {m.id}
  {
    assert forall x :: x in s + [m] <==> x in s || x == m;
  }

  /** The cursor a poll would store is the greatest of the old one and what it imported. */
  lemma {:induction false} ProcessAdvances(w: World, messages: seq<Message>, c: Cursor)
    ensures var p := Process(w, messages, c);
      && c.lastId <= p.cursor.lastId && c.lastBlock <= p.cursor.lastBlock
      && (forall id :: id in Ids(p.imports) ==> id <= p.cursor.lastId)
      && (p.cursor.lastId == c.lastId || p.cursor.lastId in Ids(p.imports))
    decreases |messages|
  {
    if messages != [] {
      var front, m := messages[..|messages| - 1], messages[|messages| - 1];
      ProcessAdvances(w, front, c);
      IdsSnoc(Process(w, front, c).imports, m);
    }
  }

  /** What a poll that ran to its end imports: exactly the fetched messages that were taken. */
  lemma {:induction false} ImportsAreTaken(w: World, messages: seq<Message>, c: Cursor, m: Message)
    ensures var p := Process(w, messages, c);
      && (m in p.imports ==> m in messages && MessageVerdict(w, m) == Take)
      && (!p.aborted && m in messages && MessageVerdict(w, m) == Take ==> m in p.imports)
      && (m in p.imports ==> m.outputs != [] && w.accepts(m) >= |m.outputs|)
    decreases |messages|
  {
    if messages != [] {
      var front, last := messages[..|messages| - 1], messages[|messages| - 1];
      assert messages == front + [last];
      ImportsAreTaken(w, front, c, m);
    }
  }

  /** The stores take every output of every message. */
  ghost predicate StoresAccept(w: World) {
    forall m :: w.accepts(m) >= |m.outputs|
  }

  /** An import breaks off in the middle of a message only when a store write fails, and then the poll ends. */
  lemma {:induction false} AllOrNothing(w: World, messages: seq<Message>, c: Cursor)
    ensures var p := Process(w, messages, c);
      && (p.partial != [] ==> p.aborted)
      && (StoresAccept(w) ==> p.partial == [])
    decreases |messages|
  {
    if messages != [] {
      AllOrNothing(w, messages[..|messages| - 1], c);
    }
  }

  lemma PollKeeps(b: Box, w: World, removed: bool)
    requires Inv(b) && Lists(b, w)
    ensures Inv(Next(b, Poll(w, removed)))
  {
    var p := PollResult(b, w);
    var b' := Next(b, Poll(w, removed));
    ProcessAdvances(w, w.listing, b.cursor);
    assert forall m :: m in b'.imports <==> m in b.imports || m in p.imports;
    if !p.aborted {
      forall m
        ensures m in b'.server ==> m in b.server
        ensures m in b.server ==> m in b'.server || m.id in Ids(p.imports)
      {
        KeptOnServer(b.server, Ids(p.imports), m);
      }
      forall id | id in b'.done
        ensures exists m :: m in b'.imports && m.id == id
      {
        if id in Ids(p.imports) {
          var m :| m in p.imports && m.id == id;
          assert m in b'.imports;
        } else {
          var m :| m in b.imports && m.id == id;
          assert m in b'.imports;
        }
      }
    } else {
      forall id | id in b'.done
        ensures exists m :: m in b'.imports && m.id == id
      {
        var m :| m in b.imports && m.id == id;
        assert m in b'.imports;
      }
    }
  }

  lemma ArriveKeeps(b: Box, m: Message)
    requires Inv(b) && Enabled(b, Arrive(m))
    ensures Inv(Next(b, Arrive(m)))
  {
    assert forall x :: x in b.server + [m] <==> x in b.server || x == m;
  }

  lemma {:induction false} RunKeeps(steps: seq<Step>)
    requires Run(steps)
    ensures Inv(After(steps))
    decreases |steps|
  {
    if steps != [] {
      var b, step := After(steps[..|steps| - 1]), steps[|steps| - 1];
      RunKeeps(steps[..|steps| - 1]);
      match step
      case Arrive(m) => ArriveKeeps(b, m);
      case Poll(w, removed) => PollKeeps(b, w, removed);
    }
  }

  // ----- what is promised -----

  /** The cursor never moves back. */
  lemma CursorNeverDecreases(b: Box, step: Step)
    ensures b.cursor.lastId <= Next(b, step).cursor.lastId
    ensures b.cursor.lastBlock <= Next(b, step).cursor.lastBlock
  {
    if step.Poll? {
      ProcessAdvances(step.w, step.w.listing, b.cursor);
    }
  }

  /** A message that arrived and was not imported for good is never dropped by the server. */
  lemma NothingDropped(steps: seq<Step>, m: Message)
    requires Run(steps) && m in After(steps).arrived && m.id !in After(steps).done
    ensures m in After(steps).server
  {
    RunKeeps(steps);
  }

  /** No message a completed poll imported is imported again. */
  lemma ImportedForGood(steps: seq<Step>, w: World, m: Message)
    requires Run(steps) && Lists(After(steps), w) && m in PollResult(After(steps), w).imports
    ensures m.id !in After(steps).done && m.id > After(steps).cursor.lastId
  {
    RunKeeps(steps);
    var b := After(steps);
    ImportsAreTaken(w, w.listing, b.cursor, m);
  }

  /** No poll of the run ended early. */
  ghost predicate NoAborts(steps: seq<Step>) {
    steps == [] ||
    (NoAborts(steps[..|steps| - 1]) &&
     (steps[|steps| - 1].Poll? ==> !PollResult(After(steps[..|steps| - 1]), steps[|steps| - 1].w).aborted))
  }

  lemma DistinctIdsConcat(s: seq<Message>, t: seq<Message>)
    requires DistinctIds(s) && DistinctIds(t) && Ids(s) !! Ids(t)
    ensures DistinctIds(s + t)
  {
    var r := s + t;
    forall i, j | 0 <= i < j < |r|
      ensures r[i].id != r[j].id
    {
      if i < |s| <= j {
        assert r[i] in s && r[i].id in Ids(s);
        assert r[j] in t && r[j].id in Ids(t);
      }
    }
  }

  lemma DistinctIdsSnoc(s: seq<Message>, m: Message)
    requires DistinctIds(s) && m.id !in Ids(s)
    ensures DistinctIds(s + [m])
  {
    assert forall i :: 0 <= i < |s| ==> s[i] in s && s[i].id in Ids(s);
  }

  lemma FrontDistinct(s: seq<Message>)
    requires s != [] && DistinctIds(s)
    ensures DistinctIds(s[..|s| - 1]) && s[|s| - 1].id !in Ids(s[..|s| - 1])
  {
    var front := s[..|s| - 1];
    forall m | m in front
      ensures m.id != s[|s| - 1].id
    {
      var i :| 0 <= i < |front| && front[i] == m;
    }
  }

  lemma {:induction false} ImportsDistinct(w: World, messages: seq<Message>, c: Cursor)
    requires DistinctIds(messages)
    ensures DistinctIds(Process(w, messages, c).imports)
    ensures Ids(Process(w, messages, c).imports) <= Ids(messages)
    decreases |messages|
  {
    if messages != [] {
      var front, last := messages[..|messages| - 1], messages[|messages| - 1];
      FrontDistinct(messages);
      ImportsDistinct(w, front, c);
      assert messages == front + [last];
      IdsSnoc(front, last);
      var p := Process(w, front, c);
      if !p.aborted && MessageVerdict(w, last) == Take {
        DistinctIdsSnoc(p.imports, last);
        IdsSnoc(p.imports, last);
      }
    }
  }

  lemma IdsConcat(s: seq<Message>, t: seq<Message>)
    ensures Ids(s + t) == Ids(s) + Ids(t)
  {
    assert forall m :: m in s + t <==> m in s || m in t;
  }

  /** As long as no poll ends early, no message is imported twice. */
  lemma {:induction false} ImportedOnce(steps: seq<Step>)
    requires Run(steps) && NoAborts(steps)
    ensures DistinctIds(After(steps).imports) && Ids(After(steps).imports) == After(steps).done
    decreases |steps|
  {
    if steps != [] {
      var b, step := After(steps[..|steps| - 1]), steps[|steps| - 1];
      ImportedOnce(steps[..|steps| - 1]);
      if step.Poll? {
        var p := PollResult(b, step.w);
        RunKeeps(steps[..|steps| - 1]);
        ImportsDistinct(step.w, step.w.listing, b.cursor);
        forall m | m in p.imports
          ensures m.id !in b.done
        {
          ImportedForGood(steps[..|steps| - 1], step.w, m);
        }
        IdsConcat(b.imports, p.imports);
        DistinctIdsConcat(b.imports, p.imports);
      }
    }
  }

  /**
   * A message that was just imported, and would be taken again, is imported by the next complete poll exactly when the
   * poll that imported it ended early: its cursor was not stored.
   */
  lemma ImportedAgainIff(steps: seq<Step>, w: World, removed: bool, later: World, m: Message)
    requires Run(steps) && Lists(After(steps), w) && m in PollResult(After(steps), w).imports
    requires Lists(Next(After(steps), Poll(w, removed)), later)
    requires !PollResult(Next(After(steps), Poll(w, removed)), later).aborted && MessageVerdict(later, m) == Take
    ensures m in PollResult(Next(After(steps), Poll(w, removed)), later).imports <==>
      PollResult(After(steps), w).aborted
  {
    var b := After(steps);
    var b' := Next(b, Poll(w, removed));
    var p := PollResult(b, w);
    ImportsAreTaken(w, w.listing, b.cursor, m);
    ProcessAdvances(w, w.listing, b.cursor);
    assert m.id in Ids(p.imports);
    ImportsAreTaken(later, later.listing, b'.cursor, m);
  }

  /**
   * A skipped message is fetched again exactly when every message imported by that poll came before it: the cursor
   * does not stop at what was skipped.
   */
  lemma SkippedIsRetriedIff(steps: seq<Step>, w: World, removed: bool, m: Message)
    requires Run(steps) && Lists(After(steps), w) && !PollResult(After(steps), w).aborted
    requires Pending(After(steps), m) && m !in PollResult(After(steps), w).imports
    ensures Pending(Next(After(steps), Poll(w, removed)), m) <==>
      forall n :: n in PollResult(After(steps), w).imports ==> n.id < m.id
  {
    RunKeeps(steps);
    var b := After(steps);
    var b' := Next(b, Poll(w, removed));
    var p := PollResult(b, w);
    ProcessAdvances(w, w.listing, b.cursor);
    KeptOnServer(b.server, Ids(p.imports), m);
    forall n | n in p.imports
      ensures n.id in Ids(p.imports) && n.id != m.id
    {
      ImportsAreTaken(w, w.listing, b.cursor, n);
    }
  }

  lemma PassedOverStep(b: Box, step: Step, m: Message)
    requires m.id <= b.cursor.lastId && Enabled(b, step)
    ensures multiset(Next(b, step).imports)[m] == multiset(b.imports)[m]
  {
    if step.Poll? {
      ImportsAreTaken(step.w, step.w.listing, b.cursor, m);
      assert m !in PollResult(b, step.w).imports;
      assert multiset(Next(b, step).imports) == multiset(b.imports) + multiset(PollResult(b, step.w).imports);
    }
  }

  /** Once the cursor has passed a message, no continuation of the run imports it. */
  lemma {:induction false} PassedOverForever(steps: seq<Step>, n: nat, m: Message)
    requires Run(steps) && n <= |steps| && m.id <= After(steps[..n]).cursor.lastId
    ensures m.id <= After(steps).cursor.lastId
    ensures multiset(After(steps).imports)[m] == multiset(After(steps[..n]).imports)[m]
    decreases |steps|
  {
    if n == |steps| {
      assert steps[..n] == steps;
    } else {
      var front, step := steps[..|steps| - 1], steps[|steps| - 1];
      assert front[..n] == steps[..n];
      PassedOverForever(front, n, m);
      CursorNeverDecreases(After(front), step);
      PassedOverStep(After(front), step, m);
    }
  }

  // ----- what goes wrong -----

  lemma RunSnoc(steps: seq<Step>, step: Step)
    requires Run(steps) && Enabled(After(steps), step)
    ensures Run(steps + [step]) && After(steps + [step]) == Next(After(steps), step)
  {
    assert (steps + [step])[..|steps|] == steps;
  }

  /** Two messages on the server, one output each. */
  ghost predicate TwoMessages(b: Box, first: Message, second: Message) {
    && 1 <= first.id < second.id && |first.outputs| == |second.outputs| == 1
    && b.server == [first, second] && b.cursor == Cursor(0, 0)
  }

  lemma BothArrived(first: Message, second: Message) returns (steps: seq<Step>)
    requires 1 <= first.id < second.id && |first.outputs| == |second.outputs| == 1
    ensures Run(steps) && TwoMessages(After(steps), first, second)
    ensures After(steps).rows == [] && After(steps).imports == []
  {
    RunSnoc([], Arrive(first));
    RunSnoc([] + [Arrive(first)], Arrive(second));
    steps := [] + [Arrive(first)] + [Arrive(second)];
    assert [] + [first] + [second] == [first, second];
  }

  lemma BothListed(b: Box, first: Message, second: Message, w: World)
    requires TwoMessages(b, first, second) && w.listing == [first, second]
    ensures Lists(b, w)
  {
  }

  lemma HandleBoth(w: World, first: Message, second: Message, c: Cursor)
    ensures Process(w, [first, second], c) == Handle(w, Handle(w, Progress([], [], c, false), first), second)
  {
    assert [first, second][..1] == [first] && [first][..0] == [];
    assert Process(w, [first], c) == Handle(w, Process(w, [], c), first);
  }

  /** The verdict on a message with one output is the verdict on that output. */
  lemma OneOutput(w: World, m: Message)
    requires |m.outputs| == 1 && w.decrypts(m) && w.chain(m) == SameBlock
    ensures MessageVerdict(w, m) ==
      (match w.check(m, m.outputs[0]) case Good => Take case BadProof => Abort case _ => Skip)
  {
    assert m.outputs[..0] == [];
    assert OutputsVerdict(w, m, m.outputs[..0]) == Take;
  }

  /** Everything about a message checks out, except that its output's check answers `answer`. */
  ghost predicate Answers(w: World, m: Message, answer: OutputCheck)
    requires |m.outputs| == 1
  {
    && w.decrypts(m) && w.chain(m) == SameBlock && w.check(m, m.outputs[0]) == answer
    && w.accepts(m) >= 1 && w.takesCursor
  }

  /** A world in which the checks of two messages answer that. */
  lemma WorldsExist(first: Message, second: Message, answer: OutputCheck, listing: seq<Message>) returns (w: World)
    requires first.id != second.id && |first.outputs| == |second.outputs| == 1
    ensures Answers(w, first, Good) && Answers(w, second, answer) && w.listing == listing
  {
    var id := second.id;
    w := World(listing, m => true, m => SameBlock, (m: Message, o: Output) => if m.id == id then answer else Good,
               m => 1, true);
  }

  /** What a poll of the two messages comes to, by what their outputs' checks answer. */
  lemma PollOfTwo(b: Box, first: Message, second: Message, w: World, a1: OutputCheck, a2: OutputCheck)
    requires TwoMessages(b, first, second) && w.listing == [first, second]
    requires Answers(w, first, a1) && Answers(w, second, a2)
    ensures a1 == Good && a2 == BadProof ==>
      PollResult(b, w).imports == [first] && PollResult(b, w).partial == [] && PollResult(b, w).aborted
    ensures a1 == Good && a2 == Good ==>
      PollResult(b, w).imports == [first, second] && PollResult(b, w).partial == [] && !PollResult(b, w).aborted
    ensures a1 == NoProof && a2 == Good ==>
      && PollResult(b, w).imports == [second] && PollResult(b, w).partial == [] && !PollResult(b, w).aborted
      && PollResult(b, w).cursor.lastId == second.id
  {
    HandleBoth(w, first, second, b.cursor);
    OneOutput(w, first);
    OneOutput(w, second);
    var one := Handle(w, Progress([], [], b.cursor, false), first);
    assert [] + [first] == [first] && [first] + [second] == [first, second] && [] + [second] == [second];
  }

  lemma OutputsOfTwo(first: Message, second: Message)
    ensures OutputsOf([first]) == first.outputs && OutputsOf([first, second]) == first.outputs + second.outputs
  {
    assert [first, second][..1] == [first] && [first][..0] == [];
    assert [] + first.outputs == first.outputs;
  }

  /**
   * A poll whose second message has a bad proof has imported the first one without storing the cursor, and once the
   * proof is good the next poll imports it again: the asset of one message ends up imported twice.
   */
  lemma ImportedTwice(first: Message, second: Message) returns (steps: seq<Step>)
    requires 1 <= first.id < second.id && |first.outputs| == |second.outputs| == 1
    ensures Run(steps) && After(steps).rows == first.outputs + first.outputs + second.outputs
  {
    var before := BothArrived(first, second);
    var bad := WorldsExist(first, second, BadProof, [first, second]);
    var good := WorldsExist(first, second, Good, [first, second]);
    BothListed(After(before), first, second, bad);
    PollOfTwo(After(before), first, second, bad, Good, BadProof);
    RunSnoc(before, Poll(bad, false));
    var between := before + [Poll(bad, false)];
    OutputsOfTwo(first, second);
    assert After(between).rows == first.outputs;
    BothListed(After(between), first, second, good);
    PollOfTwo(After(between), first, second, good, Good, Good);
    RunSnoc(between, Poll(good, false));
    steps := between + [Poll(good, false)];
    assert After(steps).rows == first.outputs + (first.outputs + second.outputs) + [];
  }

  lemma PassesOver(b: Box, first: Message, second: Message, late: World)
    requires TwoMessages(b, first, second) && b.rows == [] && b.imports == []
    requires Answers(late, first, NoProof) && Answers(late, second, Good) && late.listing == [first, second]
    ensures var b' := Next(b, Poll(late, false));
      && first in b'.server && b'.rows == second.outputs
      && first.id <= b'.cursor.lastId && first !in b'.imports
  {
    PollOfTwo(b, first, second, late, NoProof, Good);
    OutputsOfTwo(second, first);
    assert b.server[0] == first;
  }

  /**
   * A message whose proof is not available when a later one is imported is never fetched again, though the server
   * keeps it and its proof may become available: the asset is lost to the wallet.
   */
  lemma SkippedForGood(first: Message, second: Message) returns (steps: seq<Step>)
    requires 1 <= first.id < second.id && |first.outputs| == |second.outputs| == 1
    ensures Run(steps) && first in After(steps).server && After(steps).rows == second.outputs
    ensures first.id <= After(steps).cursor.lastId && first !in After(steps).imports
  {
    var before := BothArrived(first, second);
    var late := WorldsExist(second, first, NoProof, [first, second]);
    BothListed(After(before), first, second, late);
    PassesOver(After(before), first, second, late);
    RunSnoc(before, Poll(late, false));
    steps := before + [Poll(late, false)];
  }

  // ----- the poll as it runs -----

  datatype PollError = ChainUnavailable | ProofRejected | StoreFailed

  class Receiver {
    var cursor: Cursor
    var rows: seq<Output>      // the assets imported, in order

    constructor ()
      ensures cursor == Cursor(0, 0) && rows == []
    {
      cursor := Cursor(0, 0);
      rows := [];
    }

    method CheckOutputs(w: World, m: Message) returns (r: Result<bool, PollError>, assets: seq<Output>)
      ensures OutputsVerdict(w, m, m.outputs) == Take <==> r == Ok(true)
      ensures OutputsVerdict(w, m, m.outputs) == Skip <==> r == Ok(false)
      ensures r == Ok(true) ==> assets == m.outputs
    {
      assets := [];
      for n := 0 to |m.outputs|
        invariant assets == m.outputs[..n] && OutputsVerdict(w, m, m.outputs[..n]) == Take
      {
        assert m.outputs[..n + 1][..n] == m.outputs[..n];
        match w.check(m, m.outputs[n]) {
          case Good => assets := assets + [m.outputs[n]];
          case BadProof =>
            VerdictStays(w, m, m.outputs, n + 1);
            return Err(ProofRejected), assets;
          case _ =>
            VerdictStays(w, m, m.outputs, n + 1);
            return Ok(false), assets;
        }
      }
      assert m.outputs[..|m.outputs|] == m.outputs;
      r := Ok(true);
    }

    /** The checks of one message; the outputs are to be imported only when all of them passed. */
    method CheckMessage(w: World, m: Message) returns (r: Result<bool, PollError>, assets: seq<Output>)
      ensures MessageVerdict(w, m) == Take <==> r == Ok(true)
      ensures MessageVerdict(w, m) == Skip <==> r == Ok(false)
      ensures r == Ok(true) ==> assets == m.outputs
    {
      if !w.decrypts(m) || m.outputs == [] || |m.outputs| > MAX_OUTPUTS {
        return Ok(false), [];
      }
      match w.chain(m) {
        case Unavailable => return Err(ChainUnavailable), [];
        case OtherBlock => return Ok(false), [];
        case SameBlock => r, assets := CheckOutputs(w, m);
      }
    }

    /** Polls what the transport lists past the cursor; on success also the ids the server may drop. */
    method PollMailbox(w: World) returns (r: Result<set<nat>, PollError>)
      modifies this
      ensures r.Err? <==> Polled(w, w.listing, old(cursor)).aborted
      ensures rows == RowsAfter(old(rows), Polled(w, w.listing, old(cursor)))
      ensures r.Err? ==> cursor == old(cursor)
      ensures r.Ok? ==> cursor == Polled(w, w.listing, old(cursor)).cursor
      ensures r.Ok? ==> r.value == Ids(Polled(w, w.listing, old(cursor)).imports)
    {
      var messages := w.listing;
      var newCursor := cursor;
      var processed: set<nat> := {};
      ghost var p := Progress([], [], cursor, false);
      assert RowsAfter(rows, p) == rows;
      for n := 0 to |messages|
        invariant cursor == old(cursor) && processed == Ids(p.imports) && newCursor == p.cursor
        invariant p == Process(w, messages[..n], old(cursor)) && !p.aborted && p.partial == []
        invariant rows == RowsAfter(old(rows), p)
      {
        var m := messages[n];
        ProcessSnoc(w, messages, n, old(cursor));
        HandledRows(old(rows), w, p, m);
        var ok, assets := CheckMessage(w, m);
        if ok.Err? {
          AbortStays(w, messages, n + 1, old(cursor));
          return Err(ok.error);
        }
        if !ok.value {
          continue;
        }
        var stored: bool;
        rows, stored := ImportAll(rows, assets, w.accepts(m));
        if !stored {
          AbortStays(w, messages, n + 1, old(cursor));
          return Err(StoreFailed);
        }
        IdsSnoc(p.imports, m);
        p := Handle(w, p, m);
        processed := processed + {m.id};
        newCursor := Advance(newCursor, m);
      }
      assert messages[..|messages|] == messages;
      if newCursor != cursor {
        if !w.takesCursor {
          return Err(StoreFailed);
        }
        cursor := newCursor;
      }
      r := Ok(processed);
    }
  }

  lemma HandledRows(rows: seq<Output>, w: World, p: Progress, m: Message)
    requires !p.aborted && p.partial == []
    ensures RowsAfter(rows, Handle(w, p, m)) == RowsAfter(rows, p) +
      (if MessageVerdict(w, m) != Take then []
       else if w.accepts(m) < |m.outputs| then m.outputs[..w.accepts(m)] else m.outputs)
  {
    assert (p.imports + [m])[..|p.imports|] == p.imports;
  }

  lemma ProcessSnoc(w: World, messages: seq<Message>, n: nat, c: Cursor)
    requires n < |messages|
    ensures Process(w, messages[..n + 1], c) == Handle(w, Process(w, messages[..n], c), messages[n])
  {
    assert messages[..n + 1][..n] == messages[..n];
  }

  /** Imports the outputs of a message one by one, until a store write fails. */
  method ImportAll(rows: seq<Output>, assets: seq<Output>, accepts: nat) returns (r: seq<Output>, ok: bool)
    ensures ok <==> accepts >= |assets|
    ensures r == rows + (if ok then assets else assets[..accepts])
  {
    r := rows;
    for n := 0 to |assets|
      invariant r == rows + assets[..n] && n <= accepts
    {
      if n == accepts {
        return r, false;
      }
      assert assets[..n + 1] == assets[..n] + [assets[n]];
      r := r + [assets[n]];
    }
    assert assets[..|assets|] == assets;
    ok := true;
  }

  lemma {:induction false} VerdictStays(w: World, m: Message, outputs: seq<Output>, n: nat)
    requires n <= |outputs| && OutputsVerdict(w, m, outputs[..n]) != Take
    ensures OutputsVerdict(w, m, outputs) == OutputsVerdict(w, m, outputs[..n])
    decreases |outputs|
  {
    if n == |outputs| {
      assert outputs[..n] == outputs;
    } else {
      assert outputs[..|outputs| - 1][..n] == outputs[..n];
      VerdictStays(w, m, outputs[..|outputs| - 1], n);
    }
  }

  lemma {:induction false} AbortStays(w: World, messages: seq<Message>, n: nat, c: Cursor)
    requires n <= |messages| && Process(w, messages[..n], c).aborted
    ensures Process(w, messages, c) == Process(w, messages[..n], c)
    decreases |messages|
  {
    if n == |messages| {
      assert messages[..n] == messages;
    } else {
      assert messages[..|messages| - 1][..n] == messages[..n];
      AbortStays(w, messages[..|messages| - 1], n, c);
    }
  }
}
