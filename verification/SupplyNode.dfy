/** The supply pipeline as the node runs it, over the stores of all groups. */
module SupplyNode {
  import opened Prelude
  import opened SupplyTree
  import opened SupplyRoot
  import opened SupplyStores
  import opened SupplyPipeline

  class SupplyNode {
    const h: Hasher
    const trees: MemorySupplyTreeStore
    const staging: MemorySupplyStagingStore
    var commits: map<GroupKey, seq<Commitment>>
    var preCommits: map<GroupKey, seq<PreCommit>>
    var anchors: seq<(GroupKey, SupplyAnchor)>       // the in-memory watch list, all groups
    var stored: map<nat, (GroupKey, SupplyAnchor)>   // the durable anchors by transaction id

    constructor (hasher: Hasher)
      ensures Valid() && fresh(trees) && fresh(staging) && h == hasher
      ensures forall g :: View(g) == EMPTY_GROUP
    {
      h := hasher;
      trees := new MemorySupplyTreeStore(hasher);
      staging := new MemorySupplyStagingStore();
      commits := map[];
      preCommits := map[];
      anchors := [];
      stored := map[];
    }

    ghost predicate Valid() {
      trees.h == h
    }

    function CommitsOf(g: GroupKey): seq<Commitment>
      reads this
    {
      if g in commits then commits[g] else []
    }

    function PreCommitsOf(g: GroupKey): seq<PreCommit>
      reads this
    {
      if g in preCommits then preCommits[g] else []
    }

    /** What the node holds for one group. */
    ghost function View(g: GroupKey): Group
      reads this, trees, staging
    {
      Group(trees.Of(g), CommitsOf(g), PreCommitsOf(g), RowsOf(staging.rows, g), RowsOf(anchors, g),
            OfGroup(stored, g))
    }

    /** Whether a commitment of the group is awaiting confirmation. */
    method CommitInFlight(g: GroupKey) returns (b: bool)
      ensures b <==> View(g).watch != []
    {
      b := false;
      for n := 0 to |anchors|
        invariant b <==> RowsOf(anchors[..n], g) != []
      {
        assert anchors[..n + 1][..n] == anchors[..n];
        if anchors[n].0 == g {
          b := true;
        }
      }
      assert anchors[..|anchors|] == anchors;
    }

    method Stage(g: GroupKey, e: SupplyEvent)
      requires Valid()
      modifies staging
      ensures View(g) == Next(h, old(View(g)), Step.Stage(e))
      ensures forall other :: other != g ==> View(other) == old(View(other))
    {
      staging.StageUpdate(g, e);
    }

    /** Stores the pre-commitment of a confirmed mint, as an unspent row of its own. */
    method InsertPreCommit(g: GroupKey, point: Point, height: nat)
      modifies this`preCommits
      ensures View(g) == old(View(g)).(preCommits := old(View(g)).preCommits + [PreCommit(point, height, None)])
      ensures forall other :: other != g ==> View(other) == old(View(other))
    {
      preCommits := preCommits[g := PreCommitsOf(g) + [PreCommit(point, height, None)]];
    }

    /** The outpoints of the unspent pre-commitments, one for each row. */
    method UnspentInputs(g: GroupKey) returns (points: seq<Point>)
      ensures points == Unspent(View(g).preCommits)
    {
      var pcs := PreCommitsOf(g);
      points := [];
      for n := 0 to |pcs|
        invariant points == Unspent(pcs[..n])
      {
        assert pcs[..n + 1][..n] == pcs[..n];
        if pcs[n].spentBy.None? {
          points := points + [pcs[n].point];
        }
      }
      assert pcs[..|pcs|] == pcs;
    }

    /**
     * Attaches the spent outputs to the inputs of the template, locating each by its outpoint. The first input with an
     * outpoint is found for every copy of it, so a transaction that repeats one cannot be signed.
     */
    static method AttachWitnesses(inputs: seq<Point>) returns (ok: bool)
      ensures ok <==> NoRepeats(inputs)
    {
      var attached: set<nat> := {};
      for n := 0 to |inputs|
        invariant attached == FirstPlaces(inputs, n)
      {
        var k := 0;
        while inputs[k] != inputs[n]
          invariant k <= n && forall m :: 0 <= m < k ==> inputs[m] != inputs[n]
          decreases n - k
        {
          k := k + 1;
        }
        FirstPlaceFound(inputs, n, k);
        attached := attached + {k};
      }
      AllFirst(inputs);
      ok := forall k :: 0 <= k < |inputs| ==> k in attached;
    }

    /** The trees a batch would produce, computed on copies. */
    method Preview(supply: Supply, es: seq<SupplyEvent>) returns (r: Option<RootTree>)
      ensures r.Some? <==> MemoryApply(h, supply, es).ok
      ensures r.Some? ==> r.value == MemoryApply(h, supply, es).supply.root
    {
      var subs := ApplyTreeUpdates(supply.subs, es);
      if subs.None? {
        return None;
      }
      var o := UpdateRootTree(h, supply.root, subs.value, ALL_SUB_TREES);
      r := if o.ok then Some(o.root) else None;
    }

    /**
     * Freezes the staged updates of a group into a commitment, broadcasts it and registers the anchor. `written` is
     * false when the durable store refuses it; it is then in the watch list only.
     */
    method Commit(g: GroupKey, point: Point, broadcast: bool, written: bool) returns (sent: bool)
      requires Valid() && point.txid !in stored
      modifies this
      ensures var g' := CommitSupply(h, old(View(g)), point, broadcast);
        View(g) == if written then g' else g'.(durable := old(View(g)).durable)
      ensures sent <==> Commits(h, old(View(g)), broadcast)
      ensures forall other :: other != g ==> View(other) == old(View(other))
    {
      sent := false;
      var busy := CommitInFlight(g);
      if busy {
        return;
      }
      var staged := staging.StagedUpdates(g);
      if staged == [] {
        return;
      }
      var root := Preview(trees.Of(g), staged);
      if root.None? {
        return;
      }
      var points := UnspentInputs(g);
      var prev := LatestPoint(CommitsOf(g));
      if prev.None? && points == [] {
        return;
      }
      var inputs := points + (if prev.Some? then [prev.value] else []);
      var signable := AttachWitnesses(inputs);
      if !signable || !broadcast {
        return;
      }
      var sum := NodeSum(root.value);
      Register(g, SupplyAnchor(Commitment(point, inputs, h.root(root.value), sum, prev, None), staged), written);
      sent := true;
    }

    /** Appends the anchor to the watch list and, if the store takes it, writes it through to the durable store. */
    method Register(g: GroupKey, a: SupplyAnchor, written: bool)
      requires a.commitment.point.txid !in stored
      modifies this`anchors, this`stored
      ensures View(g) == old(View(g)).(watch := old(View(g)).watch + [a],
                                       durable := if written then old(View(g)).durable[a.commitment.point.txid := a]
                                                  else old(View(g)).durable)
      ensures forall other :: other != g ==> View(other) == old(View(other))
    {
      ghost var before := anchors;
      anchors := anchors + [(g, a)];
      if written {
        OfGroupWith(stored, g, a);
        stored := stored[a.commitment.point.txid := (g, a)];
      }
      RowsOfSnoc(before, (g, a), g);
      forall other | other != g
        ensures RowsOf(anchors, other) == RowsOf(before, other)
      {
        RowsOfSnoc(before, (g, a), other);
      }
    }

    /** The inputs that spend one of the outpoints, each counted once. */
    static method MatchInputs(inputs: seq<Point>, eligible: seq<Point>) returns (matched: set<Point>)
      ensures matched == Matched(inputs, eligible)
    {
      matched := {};
      for n := 0 to |inputs|
        invariant matched == Matched(inputs[..n], eligible)
      {
        assert inputs[..n + 1] == inputs[..n] + [inputs[n]];
        var k := 0;
        while k < |eligible| && eligible[k] != inputs[n]
          invariant k <= |eligible| && inputs[n] !in eligible[..k]
        {
          assert eligible[..k + 1] == eligible[..k] + [eligible[k]];
          k := k + 1;
        }
        assert eligible[..|eligible|] == eligible;
        if k < |eligible| {
          matched := matched + {eligible[k]};
        }
      }
      assert inputs[..|inputs|] == inputs;
    }

    /** The outpoints of the unspent rows that are there by the height, one for each row. */
    static method EligibleRows(pcs: seq<PreCommit>, block: nat) returns (points: seq<Point>)
      ensures points == Eligible(pcs, block)
    {
      points := [];
      for n := 0 to |pcs|
        invariant points == Eligible(pcs[..n], block)
      {
        assert pcs[..n + 1][..n] == pcs[..n];
        if pcs[n].spentBy.None? && pcs[n].height <= block {
          points := points + [pcs[n].point];
        }
      }
      assert pcs[..|pcs|] == pcs;
    }

    static method CountMints(es: seq<SupplyEvent>) returns (n: nat)
      ensures n == Mints(es)
    {
      n := 0;
      for k := 0 to |es|
        invariant n == Mints(es[..k])
      {
        assert es[..k + 1][..k] == es[..k];
        if es[k].ty == Mint {
          n := n + 1;
        }
      }
      assert es[..|es|] == es;
    }

    /** The verifier's checks against the pre-commitments. */
    method VerifyPreCommits(g: GroupKey, a: SupplyAnchor, block: nat) returns (ok: bool)
      ensures ok <==> RowsAccept(View(g).preCommits, a, block)
    {
      var unspent := UnspentInputs(g);
      var mints := CountMints(a.events);
      if |unspent| < mints || (a.commitment.spent.None? && unspent == []) {
        return false;
      }
      var eligible := EligibleRows(PreCommitsOf(g), block);
      var matched := MatchInputs(a.commitment.inputs, eligible);
      ok := |matched| == |eligible|;
    }

    /** The verifier on a confirmed commitment: a stored one passes, another one is checked. */
    method Verify(g: GroupKey, a: SupplyAnchor, block: nat) returns (ok: bool)
      requires Valid()
      ensures ok <==> Accepts(h, View(g), a, block)
    {
      FindKnown(CommitsOf(g), a.commitment.point);
      if Find(CommitsOf(g), a.commitment.point).Some? {
        return true;
      }
      ok := VerifyPreCommits(g, a, block);
      if ok {
        ok := VerifyRoots(g, a);
      }
    }

    /** The verifier's root checks, against the stored commitments and trees. */
    method VerifyRoots(g: GroupKey, a: SupplyAnchor) returns (ok: bool)
      requires Valid()
      ensures ok <==> RootsAccept(h, View(g), a)
    {
      var cs, c := CommitsOf(g), a.commitment;
      if c.spent.None? {
        if cs != [] {
          return false;
        }
        var root := Preview(EMPTY_SUPPLY, Grouped(a.events));
        return root.Some? && h.root(root.value) == c.rootHash;
      }
      var prev := Find(cs, c.spent.value);
      if prev.None? || c.spent.value !in c.inputs || h.root(trees.Of(g).root) != prev.value.rootHash {
        return false;
      }
      var root := Preview(trees.Of(g), Grouped(a.events));
      return root.Some? && h.root(root.value) == c.rootHash;
    }

    /** Marks the first row with the outpoint. */
    static method MarkOne(pcs: seq<PreCommit>, p: Point, spender: Point) returns (r: seq<PreCommit>)
      ensures r == MarkPoint(pcs, p, spender)
    {
      var k := 0;
      while k < |pcs| && pcs[k].point != p
        invariant k <= |pcs| && MarkPoint(pcs, p, spender) == pcs[..k] + MarkPoint(pcs[k..], p, spender)
      {
        assert pcs[..k + 1] == pcs[..k] + [pcs[k]] && pcs[k..][1..] == pcs[k + 1..];
        k := k + 1;
      }
      r := if k < |pcs| then pcs[k := pcs[k].(spentBy := Some(spender))] else pcs;
    }

    /** The marking loop over the unspent rows of a group; it fails once it has made `n` marks. */
    static method MarkRows(pcs: seq<PreCommit>, c: Commitment, n: nat) returns (r: seq<PreCommit>)
      ensures r == MarkFirst(pcs, c, n)
    {
      r := pcs;
      var marked := 0;
      ghost var ps: seq<Point> := [];
      for k := 0 to |pcs|
        invariant ps == ToMark(pcs[..k], c) && marked == |ps| <= n
        invariant r == MarkEach(pcs, ps, c.point)
      {
        ToMarkNext(pcs, c, k);
        if pcs[k].spentBy.None? && pcs[k].point in c.inputs {
          if marked == n {
            BrokenOff(pcs, c, n, ps, ps + [pcs[k].point]);
            return;
          }
          MarkEachSnoc(pcs, ps, pcs[k].point, c.point);
          r := MarkOne(r, pcs[k].point, c.point);
          marked := marked + 1;
          ps := ps + [pcs[k].point];
        }
      }
      assert pcs[..|pcs|] == pcs;
      BrokenOff(pcs, c, n, ps, ps);
    }

    /** Stores the commitment with its block and marks what it spent. */
    method RecordCommitment(g: GroupKey, c: Commitment, block: nat, n: nat)
      modifies this`commits, this`preCommits
      ensures View(g) == old(View(g)).(commits := old(View(g)).commits + [c.(block := Some(block))],
                                       preCommits := MarkFirst(old(View(g)).preCommits, c, n))
      ensures forall other :: other != g ==> View(other) == old(View(other))
    {
      commits := commits[g := CommitsOf(g) + [c.(block := Some(block))]];
      var marked := MarkRows(PreCommitsOf(g), c, n);
      preCommits := preCommits[g := marked];
    }

    /**
     * Finishes the confirmed commitment at place `i` of the group's watch list. `stop` names the persistence step that
     * fails: 0 the trees, 1 the commitment, 2 and 3 the pre-commitments and the staging queue, 4 none of them; the
     * anchor itself is dropped by the caller.
     */
    method FinishCommit(g: GroupKey, ghost i: nat, a: SupplyAnchor, leavesAccepted: bool, block: nat, stop: nat,
                        marks: nat)
      returns (ok: bool)
      requires Valid() && stop <= 4
      requires i < |View(g).watch| && View(g).watch[i] == a
      modifies this`commits, this`preCommits, trees, staging
      ensures View(g) == Next(h, old(View(g)), Finish(i, leavesAccepted, block, stop, marks))
      ensures forall other :: other != g ==> View(other) == old(View(other))
      ensures ok ==> leavesAccepted && old(Accepts(h, View(g), a, block)) && stop == 4
      ensures ok ==> MemoryApply(h, old(View(g)).supply, a.events).ok
      ensures !ok && stop == 4 ==>
        !leavesAccepted || !old(Accepts(h, View(g), a, block)) || !MemoryApply(h, old(View(g)).supply, a.events).ok
    {
      ok := false;
      if !leavesAccepted {
        return;
      }
      var accepted := Verify(g, a, block);
      if !accepted || stop == 0 {
        return;
      }
      ghost var g0 := View(g);
      var applied := trees.ApplySupplyUpdates(g, a.events);
      ghost var g1 := g0.(supply := MemoryApply(h, g0.supply, a.events).supply);
      assert View(g) == g1;
      assert forall other :: other != g ==> View(other) == old(View(other));
      if applied.None? || stop == 1 {
        return;
      }
      RecordCommitment(g, a.commitment, block, if stop == 2 then marks else |PreCommitsOf(g)|);
      ghost var g2 := g1.(commits := g1.commits + [a.commitment.(block := Some(block))],
                          preCommits := MarkFirst(g1.preCommits, a.commitment,
                                                  if stop == 2 then marks else |g1.preCommits|));
      assert View(g) == g2;
      assert forall other :: other != g ==> View(other) == old(View(other));
      if stop <= 3 {
        return;
      }
      staging.RemoveStagedUpdates(g, a.events);
      assert View(g) == g2.(staged := Unstaged(g2.staged, a.events));
      assert forall other :: other != g ==> View(other) == old(View(other));
      ok := true;
    }

    /**
     * Confirms the commitment at place `n` of the watch list: finishes it and, if nothing failed, drops it from the
     * list and its row from the durable store. That the row could not be removed is not an error.
     */
    method Confirm(n: nat, leavesAccepted: bool, block: nat, removed: bool) returns (ok: bool)
      requires Valid() && n < |anchors|
      requires var t := anchors[n].1.commitment.point.txid; t in stored ==> stored[t].0 == anchors[n].0
      modifies this`commits, this`preCommits, this`anchors, this`stored, trees, staging
      ensures var g, i := old(anchors[n].0), |RowsOf(old(anchors[..n]), old(anchors[n].0))|;
        && i < |old(View(g)).watch|
        && var g' := Next(h, old(View(g)), Finish(i, leavesAccepted, block, 5, 0));
           View(g) == if removed then g' else g'.(durable := old(View(g)).durable)
      ensures forall other :: other != old(anchors[n].0) ==> View(other) == old(View(other))
    {
      var g, a := anchors[n].0, anchors[n].1;
      ghost var i, before := |RowsOf(anchors[..n], g)|, View(g);
      RowsAround(anchors, n, g);
      LastStep(h, before, i, leavesAccepted, block);
      ok := FinishCommit(g, i, a, leavesAccepted, block, 4, 0);
      if ok {
        Drop(n, removed);
      }
    }

    /** Drops one anchor from the watch list and, if the store lets it, its row from the durable store. */
    method Drop(n: nat, removed: bool)
      requires n < |anchors|
      requires var t := anchors[n].1.commitment.point.txid; t in stored ==> stored[t].0 == anchors[n].0
      modifies this`anchors, this`stored
      ensures var g, a, i := old(anchors[n].0), old(anchors[n].1), |RowsOf(old(anchors[..n]), old(anchors[n].0))|;
        && i < |old(View(g)).watch|
        && View(g) == old(View(g)).(watch := old(View(g)).watch[..i] + old(View(g)).watch[i + 1..],
                                    durable := old(View(g)).durable - if removed then {a.commitment.point.txid} else {})
      ensures forall other :: other != old(anchors[n].0) ==> View(other) == old(View(other))
    {
      ghost var g, before := anchors[n].0, anchors;
      var gone := if removed then {anchors[n].1.commitment.point.txid} else {};
      anchors := anchors[..n] + anchors[n + 1..];
      RowsAround(before, n, g);
      OthersAround(before, n);
      OfGroupWithout(stored, g, gone);
      stored := stored - gone;
    }

    /** Starts over from the durable store: the watch list is one anchor per stored row, in some order. */
    method Restart()
      modifies this`anchors
      ensures forall g, a :: a in View(g).watch <==> a in View(g).durable.Values
      ensures forall g :: |View(g).watch| == |View(g).durable|
      ensures forall g :: View(g) == old(View(g)).(watch := View(g).watch)
      ensures forall g :: |View(g).durable| <= 1 ==> View(g) == Next(h, old(View(g)), Step.Restart)
    {
      anchors := [];
      var todo := stored.Keys;
      ghost var rows := stored;
      while todo != {}
        invariant todo <= stored.Keys && stored == rows
        invariant forall g :: Listed(rows, stored.Keys - todo, g, RowsOf(anchors, g))
        invariant forall g :: View(g) == old(View(g)).(watch := RowsOf(anchors, g))
      {
        var t :| t in todo;
        ghost var done, before := stored.Keys - todo, anchors;
        anchors := anchors + [stored[t]];
        todo := todo - {t};
        assert stored.Keys - todo == done + {t};
        forall g
          ensures Listed(rows, done + {t}, g, RowsOf(anchors, g))
        {
          RowsOfSnoc(before, rows[t], g);
          ListedOneMore(rows, done, t, g, RowsOf(before, g));
        }
      }
      assert stored.Keys - todo == stored.Keys;
      forall g
        ensures forall a :: a in View(g).watch <==> a in View(g).durable.Values
        ensures |View(g).watch| == |View(g).durable|
        ensures |View(g).durable| <= 1 ==> View(g).watch == Reload(View(g).durable)
      {
        ListedAll(rows, g, RowsOf(anchors, g));
      }
    }
  }

  /** The rows of one group. */
  function OfGroup(stored: map<nat, (GroupKey, SupplyAnchor)>, g: GroupKey): map<nat, SupplyAnchor> {
    map t | t in stored && stored[t].0 == g :: stored[t].1
  }

  /** A complete finish is one without clean-up and then the clean-up. */
  lemma LastStep(h: Hasher, g: Group, i: nat, leavesAccepted: bool, block: nat)
    requires i < |g.watch|
    ensures var g4 := Next(h, g, Finish(i, leavesAccepted, block, 4, 0));
      var done := leavesAccepted && Accepts(h, g, g.watch[i], block) && MemoryApply(h, g.supply, g.watch[i].events).ok;
      && g4.watch == g.watch && g4.durable == g.durable
      && Next(h, g, Finish(i, leavesAccepted, block, 5, 0)) ==
         if !done then g4
         else g4.(watch := g.watch[..i] + g.watch[i + 1..],
                  durable := g.durable - {g.watch[i].commitment.point.txid})
  {
  }

  /** A new row of one group is added to that group's rows only. */
  lemma OfGroupWith(stored: map<nat, (GroupKey, SupplyAnchor)>, g: GroupKey, a: SupplyAnchor)
    requires a.commitment.point.txid !in stored
    ensures var stored' := stored[a.commitment.point.txid := (g, a)];
      && OfGroup(stored', g) == OfGroup(stored, g)[a.commitment.point.txid := a]
      && forall other :: other != g ==> OfGroup(stored', other) == OfGroup(stored, other)
  {
  }

  /** Removing rows of one group removes them from that group's rows only. */
  lemma OfGroupWithout(stored: map<nat, (GroupKey, SupplyAnchor)>, g: GroupKey, gone: set<nat>)
    requires forall t :: t in gone && t in stored ==> stored[t].0 == g
    ensures OfGroup(stored - gone, g) == OfGroup(stored, g) - gone
    ensures forall other :: other != g ==> OfGroup(stored - gone, other) == OfGroup(stored, other)
  {
  }

  lemma OthersAround(rows: seq<(GroupKey, SupplyAnchor)>, n: nat)
    requires n < |rows|
    ensures forall other :: other != rows[n].0 ==> RowsOf(rows[..n] + rows[n + 1..], other) == RowsOf(rows, other)
  {
    forall other | other != rows[n].0
      ensures RowsOf(rows[..n] + rows[n + 1..], other) == RowsOf(rows, other)
    {
      RowsAround(rows, n, other);
    }
  }

  /** The places at which the outpoints of the first `n` inputs come first. */
  function FirstPlaces(inputs: seq<Point>, n: nat): set<nat>
    requires n <= |inputs|
  {
    set k | 0 <= k < n && inputs[k] !in inputs[..k]
  }

  lemma FirstPlaceFound(inputs: seq<Point>, n: nat, k: nat)
    requires k <= n < |inputs| && inputs[k] == inputs[n] && forall m :: 0 <= m < k ==> inputs[m] != inputs[n]
    ensures FirstPlaces(inputs, n + 1) == FirstPlaces(inputs, n) + {k}
  {
    assert inputs[k] !in inputs[..k];
    if k < n {
      assert inputs[..n][k] == inputs[n];
    }
  }

  lemma AllFirst(inputs: seq<Point>)
    ensures (forall k :: 0 <= k < |inputs| ==> k in FirstPlaces(inputs, |inputs|)) <==> NoRepeats(inputs)
  {
    if NoRepeats(inputs) {
      forall k | 0 <= k < |inputs|
        ensures inputs[k] !in inputs[..k]
      {
        assert forall m :: 0 <= m < k ==> inputs[..k][m] == inputs[m];
      }
    } else {
      var i, j :| 0 <= i < j < |inputs| && inputs[i] == inputs[j];
      assert inputs[..j][i] == inputs[j];
      assert j !in FirstPlaces(inputs, |inputs|);
    }
  }

  function ReadOf(stored: map<nat, (GroupKey, SupplyAnchor)>, done: set<nat>, g: GroupKey): set<nat> {
    set t | t in done && t in stored && stored[t].0 == g
  }

  /** The list holds the anchors of the group's rows among those already read, one for each. */
  ghost predicate Listed(stored: map<nat, (GroupKey, SupplyAnchor)>, done: set<nat>, g: GroupKey,
                         list: seq<SupplyAnchor>)
    requires done <= stored.Keys
  {
    && |list| == |ReadOf(stored, done, g)|
    && forall a :: a in list <==> exists t :: t in done && stored[t] == (g, a)
  }

  lemma ListedOneMore(stored: map<nat, (GroupKey, SupplyAnchor)>, done: set<nat>, t: nat, g: GroupKey,
                      list: seq<SupplyAnchor>)
    requires done <= stored.Keys && t in stored && t !in done && Listed(stored, done, g, list)
    ensures Listed(stored, done + {t}, g, list + (if stored[t].0 == g then [stored[t].1] else []))
  {
    var list' := list + (if stored[t].0 == g then [stored[t].1] else []);
    if stored[t].0 == g {
      assert ReadOf(stored, done + {t}, g) == ReadOf(stored, done, g) + {t};
    } else {
      assert ReadOf(stored, done + {t}, g) == ReadOf(stored, done, g);
    }
    forall a | a in list'
      ensures exists x :: x in done + {t} && stored[x] == (g, a)
    {
      if a in list {
        var x :| x in done && stored[x] == (g, a);
        assert x in done + {t};
      } else {
        assert t in done + {t} && stored[t] == (g, a);
      }
    }
    forall a, x | x in done + {t} && stored[x] == (g, a)
      ensures a in list'
    {
      if x == t {
        assert list'[|list|] == a;
      } else {
        assert x in done;
        assert a in list;
      }
    }
  }

  lemma ListedAll(stored: map<nat, (GroupKey, SupplyAnchor)>, g: GroupKey, list: seq<SupplyAnchor>)
    requires Listed(stored, stored.Keys, g, list)
    ensures forall a :: a in list <==> a in OfGroup(stored, g).Values
    ensures |list| == |OfGroup(stored, g)|
    ensures |OfGroup(stored, g)| <= 1 ==> list == Reload(OfGroup(stored, g))
  {
    var m := OfGroup(stored, g);
    assert m.Keys == ReadOf(stored, stored.Keys, g);
    assert |m| == |m.Keys|;
    forall a
      ensures a in list <==> a in m.Values
    {
      if a in m.Values {
        var t :| t in m && m[t] == a;
        assert stored[t] == (g, a);
      }
      if a in list {
        var t :| t in stored.Keys && stored[t] == (g, a);
        assert t in m && m[t] == a;
      }
    }
    if |m| == 1 {
      var a := list[0];
      assert a in list;
      var t :| t in m && m[t] == a;
      OneRow(m, t);
      ReloadOne(t, a);
      assert list == [a];
    } else if |m| == 0 {
      assert m == map[];
    }
  }

  lemma OneRow(m: map<nat, SupplyAnchor>, t: nat)
    requires t in m && |m| == 1
    ensures m == map[t := m[t]]
  {
    assert |m.Keys - {t}| == 0;
    assert m.Keys == {t};
  }

  /** The rows of a group before, at and after a place. */
  lemma RowsAround(rows: seq<(GroupKey, SupplyAnchor)>, n: nat, g: GroupKey)
    requires n < |rows|
    ensures RowsOf(rows, g) ==
      RowsOf(rows[..n], g) + (if rows[n].0 == g then [rows[n].1] else []) + RowsOf(rows[n + 1..], g)
    ensures RowsOf(rows[..n] + rows[n + 1..], g) == RowsOf(rows[..n], g) + RowsOf(rows[n + 1..], g)
  {
    assert rows == rows[..n] + [rows[n]] + rows[n + 1..];
    RowsOfConcat(rows[..n] + [rows[n]], rows[n + 1..], g);
    RowsOfSnoc(rows[..n], rows[n], g);
    RowsOfConcat(rows[..n], rows[n + 1..], g);
  }

  /** The loop has made the first `n` marks, or all of them. */
  lemma BrokenOff(pcs: seq<PreCommit>, c: Commitment, n: nat, ps: seq<Point>, more: seq<Point>)
    requires ps <= more <= ToMark(pcs, c)
    requires (|ps| == n && |ps| < |more|) || (|ps| <= n && ps == ToMark(pcs, c))
    ensures MarkFirst(pcs, c, n) == MarkEach(pcs, ps, c.point)
  {
    var all := ToMark(pcs, c);
    assert all[..|ps|] == ps;
  }

  /** One more row adds its outpoint or nothing. */
  lemma ToMarkNext(pcs: seq<PreCommit>, c: Commitment, k: nat)
    requires k < |pcs|
    ensures ToMark(pcs[..k + 1], c) ==
      if pcs[k].spentBy.None? && pcs[k].point in c.inputs then ToMark(pcs[..k], c) + [pcs[k].point]
      else ToMark(pcs[..k], c)
    ensures ToMark(pcs[..k + 1], c) <= ToMark(pcs, c)
  {
    assert pcs[..k + 1][..k] == pcs[..k];
    ToMarkPrefix(pcs, c, k + 1);
  }

  lemma MarkEachSnoc(pcs: seq<PreCommit>, ps: seq<Point>, p: Point, spender: Point)
    ensures MarkEach(pcs, ps + [p], spender) == MarkPoint(MarkEach(pcs, ps, spender), p, spender)
  {
    assert (ps + [p])[..|ps|] == ps;
  }

  /** The outpoints found so far come first. */
  lemma {:induction false} ToMarkPrefix(pcs: seq<PreCommit>, c: Commitment, k: nat)
    requires k <= |pcs|
    ensures ToMark(pcs[..k], c) <= ToMark(pcs, c)
    decreases |pcs|
  {
    if k == |pcs| {
      assert pcs[..k] == pcs;
    } else {
      assert pcs[..|pcs| - 1][..k] == pcs[..k];
      ToMarkPrefix(pcs[..|pcs| - 1], c, k);
    }
  }
}
