/** The tree stores and the staging queue, keyed by asset group. */
module SupplyStores {
  import opened Prelude
  import opened SupplyTree
  import opened SupplyRoot

  /** The copy-and-insert loop shared by the stores: `Apply` as it is computed. */
  method ApplyTreeUpdates(subs: SubTrees, es: seq<SupplyEvent>) returns (r: Option<SubTrees>)
    ensures r == Apply(subs, es)
  {
    var updated := subs;
    for n := 0 to |es|
      invariant Apply(subs, es[..n]) == Some(updated)
    {
      assert es[..n + 1][..n] == es[..n];
      var sum := NodeSum(updated.Get(es[n].ty));
      if sum + es[n].leaf.sum >= U64_LIMIT {
        ApplyConcat(subs, es[..n + 1], es[n + 1..]);
        assert es[..n + 1] + es[n + 1..] == es;
        return None;
      }
      updated := WriteOne(updated, es[n]);
    }
    assert es[..|es|] == es;
    r := Some(updated);
  }

  /** Upserts the roots of the listed sub-trees. */
  method UpdateRootTree(h: Hasher, root: RootTree, subs: SubTrees, tys: seq<SubTree>) returns (r: RootOutcome)
    ensures r == Upsert(h, root, subs, tys)
  {
    r := RootOutcome(true, root);
    for n := 0 to |tys|
      invariant r == Upsert(h, root, subs, tys[..n]) && r.ok
    {
      assert tys[..n + 1][..n] == tys[..n];
      var sub := subs.Get(tys[n]);
      var sum := NodeSum(sub);
      if sum != 0 {
        var rootSum := NodeSum(r.root);
        if rootSum + sum >= U64_LIMIT {
          UpsertStops(h, root, subs, tys, n + 1);
          return RootOutcome(false, r.root);
        }
        r := RootOutcome(true, r.root[tys[n] := Leaf(h.sub(sub), sum)]);
      }
    }
    assert tys[..|tys|] == tys;
  }

  /** Once an upsert has failed nothing after it runs. */
  lemma {:induction false} UpsertStops(h: Hasher, root: RootTree, subs: SubTrees, tys: seq<SubTree>, n: nat)
    requires n <= |tys| && !Upsert(h, root, subs, tys[..n]).ok
    ensures Upsert(h, root, subs, tys) == Upsert(h, root, subs, tys[..n])
    decreases |tys|
  {
    if n < |tys| {
      assert tys[..|tys| - 1][..n] == tys[..n];
      UpsertStops(h, root, subs, tys[..|tys| - 1], n);
    } else {
      assert tys[..n] == tys;
    }
  }

  class MemorySupplyTreeStore {
    const h: Hasher
    var trees: map<GroupKey, Supply>

    constructor (hasher: Hasher)
      ensures h == hasher && trees == map[]
    {
      h := hasher;
      trees := map[];
    }

    /** A group without trees has empty ones. */
    function Of(g: GroupKey): Supply
      reads this
    {
      if g in trees then trees[g] else EMPTY_SUPPLY
    }

    method ApplySupplyUpdates(g: GroupKey, es: seq<SupplyEvent>) returns (r: Option<(nat, nat)>)
      modifies this
      ensures Outcome(r.Some?, Of(g)) == MemoryApply(h, old(Of(g)), es)
      ensures r.Some? ==> r.value == (h.root(Of(g).root), TreeSum(Of(g).root))
      ensures forall other :: other != g ==> Of(other) == old(Of(other))
    {
      var entry := Of(g);
      trees := trees[g := entry];
      var updated := ApplyTreeUpdates(entry.subs, es);
      if updated.None? {
        return None;
      }
      var upserted := UpdateRootTree(h, entry.root, updated.value, ALL_SUB_TREES);
      trees := trees[g := entry.(root := upserted.root)];
      if !upserted.ok {
        return None;
      }
      trees := trees[g := Supply(upserted.root, updated.value)];
      var sum := NodeSum(upserted.root);
      r := Some((h.root(upserted.root), sum));
    }
  }

  class SqliteSupplyTreeStore {
    const h: Hasher
    var trees: map<GroupKey, Supply>

    constructor (hasher: Hasher)
      ensures h == hasher && trees == map[]
    {
      h := hasher;
      trees := map[];
    }

    function Of(g: GroupKey): Supply
      reads this
    {
      if g in trees then trees[g] else EMPTY_SUPPLY
    }

    method ApplySupplyUpdates(g: GroupKey, es: seq<SupplyEvent>) returns (r: Option<(nat, nat)>)
      modifies this
      ensures Outcome(r.Some?, Of(g)) == SqliteApply(h, old(Of(g)), es)
      ensures r.Some? ==> r.value == (h.root(Of(g).root), TreeSum(Of(g).root))
      ensures forall other :: other != g ==> Of(other) == old(Of(other))
    {
      ghost var before := Of(g);
      trees := trees[g := Of(g)];
      var touched: seq<SubTree> := [];
      for n := 0 to |es|
        invariant InsertEach(before.subs, es[..n]) == (true, Of(g).subs)
        invariant Of(g).root == before.root
        invariant touched == Touched(es[..n])
        invariant forall other :: other != g ==> Of(other) == old(Of(other))
      {
        assert es[..n + 1][..n] == es[..n];
        if es[n].ty !in touched {
          touched := touched + [es[n].ty];
        }
        var sum := NodeSum(Of(g).subs.Get(es[n].ty));
        if sum + es[n].leaf.sum >= U64_LIMIT {
          InsertEachStops(before.subs, es, n + 1);
          return None;
        }
        trees := trees[g := Of(g).(subs := WriteOne(Of(g).subs, es[n]))];
      }
      assert es[..|es|] == es;
      var upserted := UpdateRootTree(h, Of(g).root, Of(g).subs, touched);
      trees := trees[g := Of(g).(root := upserted.root)];
      if !upserted.ok {
        return None;
      }
      var sum := NodeSum(upserted.root);
      r := Some((h.root(upserted.root), sum));
    }
  }

  lemma {:induction false} InsertEachStops(s: SubTrees, es: seq<SupplyEvent>, n: nat)
    requires n <= |es| && !InsertEach(s, es[..n]).0
    ensures InsertEach(s, es) == InsertEach(s, es[..n])
    decreases |es|
  {
    if n < |es| {
      assert es[..|es| - 1][..n] == es[..n];
      InsertEachStops(s, es[..|es| - 1], n);
    } else {
      assert es[..n] == es;
    }
  }

  // ----- the staging queue -----

  /** Replaces the update staged for the same place, or appends. */
  function Staged(q: seq<SupplyEvent>, e: SupplyEvent): seq<SupplyEvent> {
    if q == [] then [e]
    else if q[0].ty == e.ty && q[0].key == e.key then [e] + q[1..]
    else [q[0]] + Staged(q[1..], e)
  }

  /** Drops every update to one of the places of `es`, whatever its payload. */
  function Unstaged(q: seq<SupplyEvent>, es: seq<SupplyEvent>): seq<SupplyEvent> {
    if q == [] then []
    else
      var last := q[|q| - 1];
      Unstaged(q[..|q| - 1], es) + (if (last.ty, last.key) in Places(es) then [] else [last])
  }

  /** The rows of one group, in staging order. */
  function RowsOf<T>(rows: seq<(GroupKey, T)>, g: GroupKey): seq<T> {
    if rows == [] then []
    else
      var last := rows[|rows| - 1];
      RowsOf(rows[..|rows| - 1], g) + (if last.0 == g then [last.1] else [])
  }

  lemma {:induction false} RowsOfConcat<T>(a: seq<(GroupKey, T)>, b: seq<(GroupKey, T)>, g: GroupKey)
    ensures RowsOf(a + b, g) == RowsOf(a, g) + RowsOf(b, g)
    decreases |b|
  {
    if b == [] {
      assert a + b == a;
    } else {
      assert (a + b)[..|a + b| - 1] == a + b[..|b| - 1];
      RowsOfConcat(a, b[..|b| - 1], g);
    }
  }

  lemma RowsOfSnoc<T>(rows: seq<(GroupKey, T)>, r: (GroupKey, T), g: GroupKey)
    ensures RowsOf(rows + [r], g) == RowsOf(rows, g) + (if r.0 == g then [r.1] else [])
  {
    assert (rows + [r])[..|rows|] == rows;
  }

  lemma {:induction false} StagedAt(q: seq<SupplyEvent>, i: nat, e: SupplyEvent)
    requires i < |q| && q[i].ty == e.ty && q[i].key == e.key
    requires forall j :: 0 <= j < i ==> q[j].ty != e.ty || q[j].key != e.key
    ensures Staged(q, e) == q[i := e]
    decreases |q|
  {
    if i > 0 {
      StagedAt(q[1..], i - 1, e);
    }
  }

  lemma {:induction false} StagedNew(q: seq<SupplyEvent>, e: SupplyEvent)
    requires forall j :: 0 <= j < |q| ==> q[j].ty != e.ty || q[j].key != e.key
    ensures Staged(q, e) == q + [e]
    decreases |q|
  {
    if q != [] {
      StagedNew(q[1..], e);
    }
  }

  class MemorySupplyStagingStore {
    var rows: seq<(GroupKey, SupplyEvent)>

    constructor ()
      ensures rows == []
    {
      rows := [];
    }

    method StageUpdate(g: GroupKey, e: SupplyEvent)
      modifies this
      ensures RowsOf(rows, g) == Staged(old(RowsOf(rows, g)), e)
      ensures forall other :: other != g ==> RowsOf(rows, other) == old(RowsOf(rows, other))
    {
      ghost var all := rows;
      for n := 0 to |rows|
        invariant rows == all
        invariant forall j :: 0 <= j < n ==> rows[j].0 != g || rows[j].1.ty != e.ty || rows[j].1.key != e.key
      {
        if rows[n].0 == g && rows[n].1.ty == e.ty && rows[n].1.key == e.key {
          rows := rows[n := (g, e)];
          StageReplaces(all, n, g, e);
          return;
        }
      }
      rows := rows + [(g, e)];
      StageAppends(all, g, e);
    }

    method StagedUpdates(g: GroupKey) returns (q: seq<SupplyEvent>)
      ensures q == RowsOf(rows, g)
    {
      q := [];
      for n := 0 to |rows|
        invariant q == RowsOf(rows[..n], g)
      {
        assert rows[..n + 1] == rows[..n] + [rows[n]];
        RowsOfSnoc(rows[..n], rows[n], g);
        if rows[n].0 == g {
          q := q + [rows[n].1];
        }
      }
      assert rows[..|rows|] == rows;
    }

    method RemoveStagedUpdates(g: GroupKey, es: seq<SupplyEvent>)
      modifies this
      ensures RowsOf(rows, g) == Unstaged(old(RowsOf(rows, g)), es)
      ensures forall other :: other != g ==> RowsOf(rows, other) == old(RowsOf(rows, other))
    {
      ghost var all := rows;
      UnstagedNothing(RowsOf(all, g));
      for n := 0 to |es|
        invariant RowsOf(rows, g) == Unstaged(RowsOf(all, g), es[..n])
        invariant forall other :: other != g ==> RowsOf(rows, other) == RowsOf(all, other)
      {
        UnstagedOneMore(RowsOf(all, g), es[..n], es[n]);
        assert es[..n + 1] == es[..n] + [es[n]];
        rows := Retain(rows, g, es[n]);
      }
      assert es[..|es|] == es;
    }

    /** Keeps every row but those of the group at the place of `e`. */
    static method Retain(rows: seq<(GroupKey, SupplyEvent)>, g: GroupKey, e: SupplyEvent)
      returns (kept: seq<(GroupKey, SupplyEvent)>)
      ensures RowsOf(kept, g) == Unstaged(RowsOf(rows, g), [e])
      ensures forall other :: other != g ==> RowsOf(kept, other) == RowsOf(rows, other)
    {
      kept := [];
      for n := 0 to |rows|
        invariant RowsOf(kept, g) == Unstaged(RowsOf(rows[..n], g), [e])
        invariant forall other :: other != g ==> RowsOf(kept, other) == RowsOf(rows[..n], other)
      {
        var row := rows[n];
        ghost var before := kept;
        if !(row.0 == g && row.1.ty == e.ty && row.1.key == e.key) {
          kept := kept + [row];
        }
        assert rows[..n + 1] == rows[..n] + [row];
        RetainStep(rows[..n], before, row, g, e);
      }
      assert rows[..|rows|] == rows;
    }
  }

  lemma RetainStep(rows: seq<(GroupKey, SupplyEvent)>, kept: seq<(GroupKey, SupplyEvent)>,
                   row: (GroupKey, SupplyEvent), g: GroupKey, e: SupplyEvent)
    requires RowsOf(kept, g) == Unstaged(RowsOf(rows, g), [e])
    requires forall other :: other != g ==> RowsOf(kept, other) == RowsOf(rows, other)
    ensures var next := if row.0 == g && row.1.ty == e.ty && row.1.key == e.key then kept else kept + [row];
      && RowsOf(next, g) == Unstaged(RowsOf(rows + [row], g), [e])
      && forall other :: other != g ==> RowsOf(next, other) == RowsOf(rows + [row], other)
  {
    RowsOfSnoc(rows, row, g);
    RowsOfSnoc(kept, row, g);
    if row.0 == g {
      UnstagedSnoc(RowsOf(rows, g), row.1, [e]);
      assert Places([e]) == {(e.ty, e.key)};
      assert Unstaged(RowsOf(rows, g), [e]) + [] == Unstaged(RowsOf(rows, g), [e]);
    } else {
      assert RowsOf(rows, g) + [] == RowsOf(rows, g) && RowsOf(kept, g) + [] == RowsOf(kept, g);
    }
    forall other | other != g
      ensures RowsOf(kept + [row], other) == RowsOf(rows + [row], other)
      ensures row.0 == g ==> RowsOf(kept, other) == RowsOf(rows + [row], other)
    {
      RowsOfSnoc(rows, row, other);
      RowsOfSnoc(kept, row, other);
    }
  }

  lemma UnstagedSnoc(q: seq<SupplyEvent>, e: SupplyEvent, es: seq<SupplyEvent>)
    ensures Unstaged(q + [e], es) == Unstaged(q, es) + (if (e.ty, e.key) in Places(es) then [] else [e])
  {
    assert (q + [e])[..|q|] == q;
  }

  lemma {:induction false} UnstagedNothing(q: seq<SupplyEvent>)
    ensures Unstaged(q, []) == q
    decreases |q|
  {
    if q != [] {
      UnstagedNothing(q[..|q| - 1]);
    }
  }

  lemma {:induction false} UnstagedOneMore(q: seq<SupplyEvent>, es: seq<SupplyEvent>, e: SupplyEvent)
    ensures Unstaged(Unstaged(q, es), [e]) == Unstaged(q, es + [e])
    decreases |q|
  {
    if q != [] {
      var front, last := q[..|q| - 1], q[|q| - 1];
      UnstagedOneMore(front, es, e);
      assert Places(es + [e]) == Places(es) + {(e.ty, e.key)} by {
        assert forall x :: x in es + [e] <==> x in es || x == e;
      }
      assert Places([e]) == {(e.ty, e.key)};
      if (last.ty, last.key) in Places(es) {
        assert Unstaged(q, es) == Unstaged(front, es);
      } else {
        UnstagedSnoc(Unstaged(front, es), last, [e]);
      }
    }
  }

  /** The place of row `n` among the rows of its group. */
  lemma StageReplaces(rows: seq<(GroupKey, SupplyEvent)>, n: nat, g: GroupKey, e: SupplyEvent)
    requires n < |rows| && rows[n].0 == g && rows[n].1.ty == e.ty && rows[n].1.key == e.key
    requires forall j :: 0 <= j < n ==> rows[j].0 != g || rows[j].1.ty != e.ty || rows[j].1.key != e.key
    ensures RowsOf(rows[n := (g, e)], g) == Staged(RowsOf(rows, g), e)
    ensures forall other :: other != g ==> RowsOf(rows[n := (g, e)], other) == RowsOf(rows, other)
  {
    var a := rows[..n];
    RowsOfSplit(rows, n, rows[n].1, g, g);
    RowsOfSplit(rows, n, e, g, g);
    assert rows[n := (g, rows[n].1)] == rows;
    RowsOfFilter(a, g, e);
    StagedAt(RowsOf(rows, g), |RowsOf(a, g)|, e);
    forall other | other != g
      ensures RowsOf(rows[n := (g, e)], other) == RowsOf(rows, other)
    {
      RowsOfSplit(rows, n, rows[n].1, g, other);
      RowsOfSplit(rows, n, e, g, other);
    }
  }

  lemma RowsOfSplit(rows: seq<(GroupKey, SupplyEvent)>, n: nat, e: SupplyEvent, g: GroupKey, x: GroupKey)
    requires n < |rows|
    ensures RowsOf(rows[n := (g, e)], x)
         == RowsOf(rows[..n], x) + (if g == x then [e] else []) + RowsOf(rows[n + 1..], x)
  {
    assert rows[n := (g, e)] == (rows[..n] + [(g, e)]) + rows[n + 1..];
    RowsOfConcat(rows[..n] + [(g, e)], rows[n + 1..], x);
    RowsOfSnoc(rows[..n], (g, e), x);
  }

  lemma StageAppends(rows: seq<(GroupKey, SupplyEvent)>, g: GroupKey, e: SupplyEvent)
    requires forall j :: 0 <= j < |rows| ==> rows[j].0 != g || rows[j].1.ty != e.ty || rows[j].1.key != e.key
    ensures RowsOf(rows + [(g, e)], g) == Staged(RowsOf(rows, g), e)
    ensures forall other :: other != g ==> RowsOf(rows + [(g, e)], other) == RowsOf(rows, other)
  {
    RowsOfSnoc(rows, (g, e), g);
    RowsOfFilter(rows, g, e);
    StagedNew(RowsOf(rows, g), e);
    forall other | other != g
      ensures RowsOf(rows + [(g, e)], other) == RowsOf(rows, other)
    {
      RowsOfSnoc(rows, (g, e), other);
    }
  }

  lemma {:induction false} RowsOfFilter(rows: seq<(GroupKey, SupplyEvent)>, g: GroupKey, e: SupplyEvent)
    requires forall j :: 0 <= j < |rows| ==> rows[j].0 != g || rows[j].1.ty != e.ty || rows[j].1.key != e.key
    ensures forall j :: 0 <= j < |RowsOf(rows, g)| ==>
      RowsOf(rows, g)[j].ty != e.ty || RowsOf(rows, g)[j].key != e.key
    decreases |rows|
  {
    if rows != [] {
      RowsOfFilter(rows[..|rows| - 1], g, e);
    }
  }
}
