/**
 * The ignore store: a table of group-scoped ignored asset points behind a bounded cache of points known not to be
 * ignored, and the cache-free in-memory store that answers the same questions.
 */
module IgnoreStore {
  import opened Prelude
  import opened Listings

  type PointHash = nat

  datatype Key = Key(group: GroupKey, point: PointHash)

  datatype Tuple = Tuple(point: PointHash, amount: nat)

  // ----- the cache, as a function of its insertion order -----

  /** What is left of the order when one point is dropped from it. */
  function Without(order: seq<Key>, k: Key): seq<Key> {
    if order == [] then []
    else Without(order[..|order| - 1], k) + (if order[|order| - 1] == k then [] else [order[|order| - 1]])
  }

  function Remember(order: seq<Key>, capacity: nat, k: Key): seq<Key> {
    if capacity == 0 || k in order then order
    else if |order| < capacity then order + [k]
    else order[|order| - capacity + 1..] + [k]
  }

  ghost predicate CacheOk(order: seq<Key>, capacity: nat) {
    Distinct(order) && |order| <= capacity
  }

  lemma ElementsSnoc(order: seq<Key>, k: Key)
    ensures Elements(order + [k]) == Elements(order) + {k}
  {
  }

  lemma {:induction false} WithoutEffect(order: seq<Key>, k: Key)
    requires Distinct(order)
    ensures Distinct(Without(order, k))
    ensures Elements(Without(order, k)) == Elements(order) - {k}
    ensures k !in order ==> Without(order, k) == order
    decreases |order|
  {
    if order != [] {
      var front, last := order[..|order| - 1], order[|order| - 1];
      assert order == front + [last];
      DistinctSnoc(front, last);
      WithoutEffect(front, k);
      ElementsSnoc(front, last);
      if last != k {
        assert last !in Elements(Without(front, k));
        DistinctSnoc(Without(front, k), last);
        ElementsSnoc(Without(front, k), last);
      } else {
        assert Without(order, k) == Without(front, k);
      }
    }
  }

  lemma DistinctSuffix(order: seq<Key>, n: nat)
    requires Distinct(order) && n <= |order|
    ensures Distinct(order[n..])
    ensures Elements(order[n..]) == Elements(order) - Elements(order[..n])
  {
    assert order == order[..n] + order[n..];
    forall k | k in order[n..]
      ensures k in order && k !in order[..n]
    {
      var i :| 0 <= i < |order[n..]| && order[n..][i] == k;
      assert order[n + i] == k;
    }
  }

  /** Remembering a point forgets the oldest points and nothing else, and only as many as make room. */
  lemma RememberEffect(order: seq<Key>, capacity: nat, k: Key)
    requires CacheOk(order, capacity)
    ensures CacheOk(Remember(order, capacity, k), capacity)
    ensures capacity > 0 ==> k in Remember(order, capacity, k)
    ensures Elements(Remember(order, capacity, k)) <= Elements(order) + {k}
    ensures forall gone :: gone in order && gone !in Remember(order, capacity, k) ==>
      |order| == capacity && gone == order[0]
  {
    if capacity > 0 && k !in order {
      var n := if |order| < capacity then 0 else |order| - capacity + 1;
      DistinctSuffix(order, n);
      assert Remember(order, capacity, k) == order[n..] + [k];
      DistinctSnoc(order[n..], k);
      forall i | n <= i < |order|
        ensures order[i] in order[n..]
      {
        assert order[n..][i - n] == order[i];
      }
    }
  }

  lemma EvictOldest(order: seq<Key>, members: set<Key>)
    requires Enumerates(order, members) && order != []
    ensures Enumerates(order[1..], members - {order[0]}) && |members - {order[0]}| == |order| - 1
  {
    DistinctSuffix(order, 1);
    assert order[..1] == [order[0]];
    assert Elements([order[0]]) == {order[0]};
    EnumerateLength(order[1..], members - {order[0]});
  }

  // ----- the stores, as functions of their operations -----

  datatype Store = Store(table: map<Key, Tuple>, cache: seq<Key>, capacity: nat)

  datatype Op =
    | InsertTuples(group: GroupKey, tuples: seq<Tuple>)
    | IsIgnored(group: GroupKey, point: PointHash)
    | Reopen(capacity: nat)     // a new handle on the same table

  function WriteTuples(table: map<Key, Tuple>, group: GroupKey, tuples: seq<Tuple>): map<Key, Tuple> {
    if tuples == [] then table
    else
      var last := tuples[|tuples| - 1];
      WriteTuples(table, group, tuples[..|tuples| - 1])[Key(group, last.point) := last]
  }

  function Invalidate(cache: seq<Key>, group: GroupKey, tuples: seq<Tuple>): seq<Key> {
    if tuples == [] then cache
    else Without(Invalidate(cache, group, tuples[..|tuples| - 1]), Key(group, tuples[|tuples| - 1].point))
  }

  function Answer(s: Store, k: Key): bool {
    k !in s.cache && k in s.table
  }

  function Apply(s: Store, op: Op): Store {
    match op
    case InsertTuples(group, tuples) =>
      s.(table := WriteTuples(s.table, group, tuples), cache := Invalidate(s.cache, group, tuples))
    case IsIgnored(group, point) =>
      var k := Key(group, point);
      if k in s.cache || k in s.table then s else s.(cache := Remember(s.cache, s.capacity, k))
    case Reopen(capacity) => s.(cache := [], capacity := capacity)
  }

  function After(start: Store, ops: seq<Op>): Store {
    if ops == [] then start else Apply(After(start, ops[..|ops| - 1]), ops[|ops| - 1])
  }

  /** The keys inserted for ignoring, read off the operations themselves. */
  function Ignored(ops: seq<Op>): set<Key> {
    if ops == [] then {}
    else
      Ignored(ops[..|ops| - 1]) + (match ops[|ops| - 1]
                                   case InsertTuples(group, tuples) => Keys(group, tuples)
                                   case _ => {})
  }

  function Keys(group: GroupKey, tuples: seq<Tuple>): set<Key> {
    set t | t in tuples :: Key(group, t.point)
  }

  /** No cached point is in the table. */
  ghost predicate Inv(s: Store) {
    && CacheOk(s.cache, s.capacity)
    && Elements(s.cache) !! s.table.Keys
  }

  lemma KeysSnoc(group: GroupKey, tuples: seq<Tuple>)
    requires tuples != []
    ensures Keys(group, tuples) ==
      Keys(group, tuples[..|tuples| - 1]) + {Key(group, tuples[|tuples| - 1].point)}
  {
    var front, last := tuples[..|tuples| - 1], tuples[|tuples| - 1];
    assert tuples == front + [last];
    assert forall t :: t in tuples <==> t in front || t == last;
  }

  lemma {:induction false} WriteTuplesKeys(table: map<Key, Tuple>, group: GroupKey, tuples: seq<Tuple>)
    ensures WriteTuples(table, group, tuples).Keys == table.Keys + Keys(group, tuples)
    decreases |tuples|
  {
    if tuples != [] {
      WriteTuplesKeys(table, group, tuples[..|tuples| - 1]);
      KeysSnoc(group, tuples);
    }
  }

  lemma {:induction false} InvalidateEffect(cache: seq<Key>, group: GroupKey, tuples: seq<Tuple>)
    requires Distinct(cache)
    ensures Distinct(Invalidate(cache, group, tuples)) && |Invalidate(cache, group, tuples)| <= |cache|
    ensures Elements(Invalidate(cache, group, tuples)) == Elements(cache) - Keys(group, tuples)
    decreases |tuples|
  {
    if tuples != [] {
      var front, k := tuples[..|tuples| - 1], Key(group, tuples[|tuples| - 1].point);
      InvalidateEffect(cache, group, front);
      KeysSnoc(group, tuples);
      WithoutEffect(Invalidate(cache, group, front), k);
      WithoutShorter(Invalidate(cache, group, front), k);
    }
  }

  lemma {:induction false} WithoutShorter(order: seq<Key>, k: Key)
    ensures |Without(order, k)| <= |order|
    decreases |order|
  {
    if order != [] {
      WithoutShorter(order[..|order| - 1], k);
    }
  }

  lemma ApplyKeeps(s: Store, op: Op)
    requires Inv(s)
    ensures Inv(Apply(s, op))
  {
    match op
    case InsertTuples(group, tuples) =>
      InvalidateEffect(s.cache, group, tuples);
      WriteTuplesKeys(s.table, group, tuples);
    case IsIgnored(group, point) =>
      RememberEffect(s.cache, s.capacity, Key(group, point));
    case Reopen(_) =>
  }

  const EMPTY: Store := Store(map[], [], 0)

  lemma {:induction false} RunKeeps(capacity: nat, ops: seq<Op>)
    ensures Inv(After(EMPTY.(capacity := capacity), ops))
    ensures After(EMPTY.(capacity := capacity), ops).table.Keys == Ignored(ops)
    decreases |ops|
  {
    if ops != [] {
      var before := After(EMPTY.(capacity := capacity), ops[..|ops| - 1]);
      RunKeeps(capacity, ops[..|ops| - 1]);
      ApplyKeeps(before, ops[|ops| - 1]);
      match ops[|ops| - 1]
      case InsertTuples(group, tuples) => WriteTuplesKeys(before.table, group, tuples);
      case IsIgnored(_, _) =>
      case Reopen(_) =>
    }
  }

  /**
   * The cache is invisible: after any operations, with any capacity, a point is reported ignored in a group exactly
   * when it was inserted for that group.
   */
  lemma AnswersAreExact(capacity: nat, ops: seq<Op>, k: Key)
    ensures Answer(After(EMPTY.(capacity := capacity), ops), k) <==> k in Ignored(ops)
  {
    RunKeeps(capacity, ops);
    var s := After(EMPTY.(capacity := capacity), ops);
    assert k in s.cache <==> k in Elements(s.cache);
  }

  /**
   * With a second handle writing the table the promise is not kept: the answer differs from the table exactly for the
   * points this handle has cached.
   */
  lemma SecondHandleIsSeenIff(s: Store, group: GroupKey, tuples: seq<Tuple>, k: Key)
    requires Inv(s)
    ensures var s' := s.(table := WriteTuples(s.table, group, tuples));
      (Answer(s', k) <==> k in s'.table) <==> !(k in s.cache && k in Keys(group, tuples))
  {
    WriteTuplesKeys(s.table, group, tuples);
    assert k in s.cache <==> k in Elements(s.cache);
  }

  // ----- the stores as they run -----

  class NegativeCache {
    var members: set<Key>
    var order: seq<Key>
    const capacity: nat

    ghost predicate Valid()
      reads this
    {
      CacheOk(order, capacity) && members == Elements(order)
    }

    constructor (capacity: nat)
      ensures Valid() && order == [] && this.capacity == capacity
    {
      members := {};
      order := [];
      this.capacity := capacity;
    }

    method Contains(k: Key) returns (r: bool)
      requires Valid()
      ensures r <==> k in order
    {
      r := k in members;
    }

    method Insert(k: Key)
      requires Valid()
      modifies this
      ensures Valid() && order == Remember(old(order), capacity, k)
    {
      if capacity == 0 || k in members {
        return;
      }
      ghost var start := order;
      EnumerateLength(order, members);
      while |members| >= capacity
        invariant order == start || (|start| == capacity && order == start[1..])
        invariant CacheOk(order, capacity) && members == Elements(order) && |members| == |order|
        decreases |order|
      {
        if order == [] {
          break;
        }
        EvictOldest(order, members);
        members := members - {order[0]};
        order := order[1..];
      }
      RememberEffect(start, capacity, k);
      ElementsSnoc(order, k);
      members := members + {k};
      order := order + [k];
    }

    method Remove(k: Key)
      requires Valid()
      modifies this
      ensures Valid() && order == Without(old(order), k)
    {
      WithoutEffect(order, k);
      WithoutShorter(order, k);
      if k in members {
        members := members - {k};
        var kept: seq<Key> := [];
        for i := 0 to |order|
          invariant kept == Without(order[..i], k)
        {
          assert order[..i + 1][..i] == order[..i];
          if order[i] != k {
            kept := kept + [order[i]];
          }
        }
        assert order[..|order|] == order;
        order := kept;
      }
    }
  }

  class SqliteIgnoreStore {
    var table: map<Key, Tuple>
    const cache: NegativeCache

    constructor (capacity: nat)
      ensures fresh(cache) && cache.Valid() && View() == EMPTY.(capacity := capacity)
    {
      table := map[];
      cache := new NegativeCache(capacity);
    }

    ghost function View(): Store
      reads this, cache
    {
      Store(table, cache.order, cache.capacity)
    }

    method InsertIgnoreTuples(group: GroupKey, tuples: seq<Tuple>)
      requires cache.Valid()
      modifies this, cache
      ensures cache.Valid() && View() == Apply(old(View()), InsertTuples(group, tuples))
    {
      for n := 0 to |tuples|
        invariant cache.Valid() && cache.order == old(cache.order)
        invariant table == WriteTuples(old(table), group, tuples[..n])
      {
        assert tuples[..n + 1][..n] == tuples[..n];
        table := table[Key(group, tuples[n].point) := tuples[n]];
      }
      assert tuples[..|tuples|] == tuples;
      for n := 0 to |tuples|
        invariant cache.Valid() && cache.order == Invalidate(old(cache.order), group, tuples[..n])
        invariant table == WriteTuples(old(table), group, tuples)
      {
        assert tuples[..n + 1][..n] == tuples[..n];
        cache.Remove(Key(group, tuples[n].point));
      }
    }

    method IsPointIgnored(group: GroupKey, point: PointHash) returns (ignored: bool)
      requires cache.Valid()
      modifies cache
      ensures cache.Valid() && View() == Apply(old(View()), IsIgnored(group, point))
      ensures ignored == Answer(old(View()), Key(group, point))
    {
      var k := Key(group, point);
      var cached := cache.Contains(k);
      if cached {
        return false;
      }
      if k in table {
        return true;
      }
      cache.Insert(k);
      ignored := false;
    }
  }

  function KeysOf(rows: map<GroupKey, map<PointHash, Tuple>>): set<Key> {
    set group, point | group in rows && point in rows[group] :: Key(group, point)
  }

  lemma KeysOfUpdate(
      rows: map<GroupKey, map<PointHash, Tuple>>, group: GroupKey, row: map<PointHash, Tuple>, added: seq<Tuple>)
    requires row.Keys == (if group in rows then rows[group].Keys else {}) + Points(added)
    ensures KeysOf(rows[group := row]) == KeysOf(rows) + Keys(group, added)
  {
    forall k
      ensures k in KeysOf(rows[group := row]) <==> k in KeysOf(rows) || k in Keys(group, added)
    {
      assert k in KeysOf(rows) <==> k.group in rows && k.point in rows[k.group] by {
        assert k == Key(k.group, k.point);
      }
      assert k in Keys(group, added) <==> k.group == group && k.point in Points(added);
    }
  }

  /** The in-memory store keeps a map per group. */
  class MemoryIgnoreStore {
    var tuples: map<GroupKey, map<PointHash, Tuple>>

    constructor ()
      ensures Members() == {}
    {
      tuples := map[];
    }

    ghost function Members(): set<Key>
      reads this
    {
      KeysOf(tuples)
    }

    method InsertIgnoreTuples(group: GroupKey, added: seq<Tuple>)
      modifies this
      ensures Members() == old(Members()) + Keys(group, added)
    {
      var row := if group in tuples then tuples[group] else map[];
      ghost var before := row.Keys;
      for n := 0 to |added|
        invariant tuples == old(tuples)
        invariant row.Keys == before + Points(added[..n])
      {
        assert added[..n + 1] == added[..n] + [added[n]];
        PointsSnoc(added[..n], added[n]);
        row := row[added[n].point := added[n]];
      }
      assert added[..|added|] == added;
      KeysOfUpdate(tuples, group, row, added);
      tuples := tuples[group := row];
    }

    method IsPointIgnored(group: GroupKey, point: PointHash) returns (ignored: bool)
      ensures ignored <==> Key(group, point) in Members()
    {
      ignored := group in tuples && point in tuples[group];
    }
  }

  function Points(tuples: seq<Tuple>): set<PointHash> {
    set t | t in tuples :: t.point
  }

  lemma PointsSnoc(tuples: seq<Tuple>, t: Tuple)
    ensures Points(tuples + [t]) == Points(tuples) + {t.point}
  {
    assert forall x :: x in tuples + [t] <==> x in tuples || x == t;
  }
}
