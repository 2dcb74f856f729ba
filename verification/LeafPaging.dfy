/** Paged leaf-key listings: the server's sorted pages and the client that walks them. */
module LeafPaging {
  import opened Prelude
  import opened Bytes
  import opened Listings
  import opened LeafKeyWire

  const PAGE_SIZE: nat := 512
  const MAX_PAGE_SIZE: nat := 512
  const I32_MAX: nat := 0x7fff_ffff

  // ----- the order of the server's listing -----

  /** The order of byte arrays: by the first byte that differs. */
  ghost predicate LexLess(a: seq<Byte>, b: seq<Byte>)
    requires |a| == |b|
  {
    exists i :: 0 <= i < |a| && a[..i] == b[..i] && a[i] < b[i]
  }

  /** On arrays of one length it is the order of the big-endian numbers. */
  lemma {:induction false} LexLessIsValueLess(a: seq<Byte>, b: seq<Byte>)
    requires |a| == |b|
    ensures LexLess(a, b) <==> Value(a) < Value(b)
    decreases |a|
  {
    if a != [] {
      var n := |a| - 1;
      LexLessIsValueLess(a[..n], b[..n]);
      if LexLess(a, b) {
        var i :| 0 <= i < |a| && a[..i] == b[..i] && a[i] < b[i];
        if i < n {
          assert a[..n][..i] == b[..n][..i] && a[..n][i] < b[..n][i];
          assert LexLess(a[..n], b[..n]);
        }
      }
      if Value(a[..n]) < Value(b[..n]) {
        var i :| 0 <= i < n && a[..n][..i] == b[..n][..i] && a[..n][i] < b[..n][i];
        assert a[..i] == a[..n][..i] && b[..i] == b[..n][..i];
      } else if Value(a[..n]) == Value(b[..n]) {
        SameValue(a[..n], b[..n]);
      }
    }
  }

  lemma SameValue(a: seq<Byte>, b: seq<Byte>)
    requires |a| == |b| && Value(a) == Value(b)
    ensures a == b
  {
    BigEndianOfValue(a);
    BigEndianOfValue(b);
  }

  /** Keys are ordered by transaction id, then output index, then script key. */
  predicate Before(a: LeafKey, b: LeafKey) {
    var (x, y) := (Value(a.outpoint.txid), Value(b.outpoint.txid));
    x < y
    || (x == y && a.outpoint.vout < b.outpoint.vout)
    || (x == y && a.outpoint.vout == b.outpoint.vout && Value(a.scriptKey) < Value(b.scriptKey))
  }

  ghost predicate AllWellFormed(s: seq<LeafKey>) {
    forall k :: k in s ==> WellFormed(k)
  }

  lemma BeforeOrSame(a: LeafKey, b: LeafKey)
    requires WellFormed(a) && WellFormed(b)
    ensures Before(a, b) || Before(b, a) || a == b
    ensures !(Before(a, b) && Before(b, a)) && !Before(a, a)
  {
    if !Before(a, b) && !Before(b, a) {
      SameValue(a.outpoint.txid, b.outpoint.txid);
      SameValue(a.scriptKey, b.scriptKey);
    }
  }

  /** Strictly increasing. */
  ghost predicate Sorted(s: seq<LeafKey>) {
    forall i, j :: 0 <= i < j < |s| ==> Before(s[i], s[j])
  }

  lemma NoElements(t: seq<LeafKey>)
    ensures Elements(t) == {} <==> t == []
  {
    if t != [] {
      assert t[0] in Elements(t);
    }
  }

  lemma SameLast(s: seq<LeafKey>, t: seq<LeafKey>)
    requires Sorted(s) && Sorted(t) && AllWellFormed(s) && AllWellFormed(t) && Elements(s) == Elements(t) && s != []
    ensures t != [] && s[|s| - 1] == t[|t| - 1]
  {
    assert s[|s| - 1] in Elements(t);
    assert t[|t| - 1] in Elements(s);
    LastIsGreatest(s, t[|t| - 1]);
    LastIsGreatest(t, s[|s| - 1]);
    BeforeOrSame(s[|s| - 1], t[|t| - 1]);
  }

  /** The sorted listing of a set of keys is the only one: the order the backend lists them in does not matter. */
  lemma {:induction false} SortedIsUnique(s: seq<LeafKey>, t: seq<LeafKey>)
    requires Sorted(s) && Sorted(t) && AllWellFormed(s) && AllWellFormed(t) && Elements(s) == Elements(t)
    ensures s == t
    decreases |s|
  {
    if s == [] {
      NoElements(t);
    } else {
      SameLast(s, t);
      ElementsOfFront(s);
      ElementsOfFront(t);
      SortedIsUnique(s[..|s| - 1], t[..|t| - 1]);
      assert s == s[..|s| - 1] + [s[|s| - 1]] && t == t[..|t| - 1] + [t[|t| - 1]];
    }
  }

  lemma LastIsGreatest(s: seq<LeafKey>, k: LeafKey)
    requires Sorted(s) && k in s
    ensures k == s[|s| - 1] || Before(k, s[|s| - 1])
  {
  }

  lemma ElementsOfFront(s: seq<LeafKey>)
    requires Sorted(s) && s != [] && AllWellFormed(s)
    ensures Elements(s[..|s| - 1]) == Elements(s) - {s[|s| - 1]}
    ensures AllWellFormed(s[..|s| - 1])
  {
    var front, last := s[..|s| - 1], s[|s| - 1];
    assert s == front + [last];
    forall k | k in front
      ensures k != last && k in s
    {
      BeforeOrSame(k, last);
    }
  }

  /** Sorting the backend's listing. */
  method SortKeys(listing: seq<LeafKey>) returns (s: seq<LeafKey>)
    requires Distinct(listing) && AllWellFormed(listing)
    ensures Sorted(s) && Elements(s) == Elements(listing) && AllWellFormed(s)
  {
    s := [];
    for n := 0 to |listing|
      invariant Sorted(s) && Elements(s) == Elements(listing[..n]) && AllWellFormed(s)
    {
      var k := listing[n];
      assert listing[..n + 1] == listing[..n] + [k];
      assert k !in listing[..n];
      assert k !in Elements(s);
      assert k in listing;
      var p := 0;
      while p < |s| && Before(s[p], k)
        invariant p <= |s| && forall i :: 0 <= i < p ==> Before(s[i], k)
      {
        p := p + 1;
      }
      InsertKeeps(s, p, k);
      s := s[..p] + [k] + s[p..];
    }
    assert listing[..|listing|] == listing;
  }

  lemma BeforeTransitive(a: LeafKey, b: LeafKey, c: LeafKey)
    requires Before(a, b) && Before(b, c)
    ensures Before(a, c)
  {
  }

  lemma InsertKeeps(s: seq<LeafKey>, p: nat, k: LeafKey)
    requires Sorted(s) && AllWellFormed(s) && WellFormed(k) && k !in Elements(s) && p <= |s|
    requires (forall i :: 0 <= i < p ==> Before(s[i], k)) && (p < |s| ==> !Before(s[p], k))
    ensures var t := s[..p] + [k] + s[p..];
      Sorted(t) && Elements(t) == Elements(s) + {k} && AllWellFormed(t)
  {
    var t := s[..p] + [k] + s[p..];
    assert s == s[..p] + s[p..];
    forall i | p <= i < |s|
      ensures Before(k, s[i])
    {
      assert s[p] in Elements(s);
      BeforeOrSame(s[p], k);
      if p < i {
        BeforeTransitive(k, s[p], s[i]);
      }
    }
    forall i, j | 0 <= i < j < |t|
      ensures Before(t[i], t[j])
    {
      assert i != p ==> t[i] == s[if i < p then i else i - 1];
      assert j != p ==> t[j] == s[if j < p then j else j - 1];
    }
    assert forall x :: x in t <==> x in s || x == k;
  }

  // ----- the server -----

  datatype Page = Page(keys: seq<LeafKey>, hasMore: bool)

  datatype PageError = InvalidOffset | InvalidLimit

  function Least(a: nat, b: nat): nat {
    if a < b then a else b
  }

  function PageOf(keys: seq<LeafKey>, offset: nat, limit: nat): Page {
    var start := Least(offset, |keys|);
    var end := Least(start + limit, |keys|);
    Page(keys[start..end], end < |keys|)
  }

  function ValidatePage(offset: int, limit: int): Result<(nat, nat), PageError> {
    if offset < 0 then Err(InvalidOffset)
    else if limit < 0 || limit > MAX_PAGE_SIZE then Err(InvalidLimit)
    else Ok((offset, if limit == 0 then PAGE_SIZE else limit))
  }

  function Serve(keys: seq<LeafKey>, offset: int, limit: int): Result<Page, PageError> {
    var (start, count) :- ValidatePage(offset, limit);
    Ok(PageOf(keys, start, count))
  }

  /** Serving a request over whatever order the backend lists the keys in. */
  method AssetLeafKeys(listing: seq<LeafKey>, ghost keys: seq<LeafKey>, offset: int, limit: int)
    returns (r: Result<Page, PageError>)
    requires Distinct(listing) && AllWellFormed(listing)
    requires Sorted(keys) && Elements(keys) == Elements(listing) && AllWellFormed(keys)
    ensures r == Serve(keys, offset, limit)
  {
    var valid :- ValidatePage(offset, limit);
    var sorted := SortKeys(listing);
    SortedIsUnique(sorted, keys);
    r := Ok(PageOf(sorted, valid.0, valid.1));
  }

  // ----- the client -----

  datatype Query = Query(offset: Option<nat>, limit: Option<nat>)

  datatype Fetch = Walking(all: seq<LeafKey>, offset: nat) | Done(all: seq<LeafKey>) | Failed(error: PageError)

  function ReceivedAll(s: seq<LeafKey>): seq<LeafKey>
    requires AllWellFormed(s)
  {
    seq(|s|, i requires 0 <= i < |s| => assert s[i] in s; Received(s[i]))
  }

  function Start(q: Query): Fetch {
    Walking([], if q.offset.Some? then q.offset.value else 0)
  }

  /** One request; 32-bit signed fields saturate, and the 32-bit offset wraps. */
  function Turn(keys: seq<LeafKey>, q: Query, st: Fetch): Fetch
    requires AllWellFormed(keys)
  {
    match st
    case Done(_) => st
    case Failed(_) => st
    case Walking(all, offset) =>
      var limit := if q.limit.Some? then q.limit.value else PAGE_SIZE;
      match Serve(keys, Least(offset, I32_MAX), Least(limit, I32_MAX))
      case Err(e) => Failed(e)
      case Ok(page) =>
        var all' := all + ReceivedAll(page.keys);
        if q.limit.Some? || page.keys == [] || (!page.hasMore && |page.keys| < limit) then Done(all')
        else Walking(all', (offset + |page.keys|) % U32_LIMIT)
  }

  function After(keys: seq<LeafKey>, q: Query, requests: nat): Fetch
    requires AllWellFormed(keys)
  {
    if requests == 0 then Start(q) else Turn(keys, q, After(keys, q, requests - 1))
  }

  lemma ReceivedSplit(s: seq<LeafKey>, n: nat, m: nat)
    requires AllWellFormed(s) && n <= m <= |s|
    ensures AllWellFormed(s[..n]) && AllWellFormed(s[n..m]) && AllWellFormed(s[..m])
    ensures ReceivedAll(s[..m]) == ReceivedAll(s[..n]) + ReceivedAll(s[n..m])
  {
    assert s[..m] == s[..n] + s[n..m];
    assert forall k :: k in s[..m] ==> k in s;
    assert forall k :: k in s[n..m] ==> k in s;
  }

  const EVERYTHING := Query(None, None)

  lemma FullPage(keys: seq<LeafKey>, all: seq<LeafKey>, n: nat)
    requires AllWellFormed(keys) && n + PAGE_SIZE <= |keys| && n + PAGE_SIZE <= I32_MAX + 1
    ensures AllWellFormed(keys[n..n + PAGE_SIZE])
    ensures Turn(keys, EVERYTHING, Walking(all, n)) ==
      Walking(all + ReceivedAll(keys[n..n + PAGE_SIZE]), n + PAGE_SIZE)
  {
    assert PageOf(keys, n, PAGE_SIZE).keys == keys[n..n + PAGE_SIZE];
    assert forall k :: k in keys[n..n + PAGE_SIZE] ==> k in keys;
  }

  /** The walk while it is on its way: page after page, in order, without gap or overlap. */
  lemma {:induction false} PagesInOrder(keys: seq<LeafKey>, requests: nat)
    requires AllWellFormed(keys)
    requires PAGE_SIZE * requests <= |keys| && PAGE_SIZE * requests <= I32_MAX + 1
    ensures AllWellFormed(keys[..PAGE_SIZE * requests])
    ensures After(keys, EVERYTHING, requests) ==
      Walking(ReceivedAll(keys[..PAGE_SIZE * requests]), PAGE_SIZE * requests)
    decreases requests
  {
    if requests == 0 {
      assert keys[..0] == [];
    } else {
      var n, m := PAGE_SIZE * (requests - 1), PAGE_SIZE * requests;
      PagesInOrder(keys, requests - 1);
      ReceivedSplit(keys, n, m);
      FullPage(keys, ReceivedAll(keys[..n]), n);
    }
  }

  /** Listings below 2^31 keys: every key is received once, in the server's order, in n / 512 + 1 requests. */
  lemma WalkReceivesAll(keys: seq<LeafKey>)
    requires AllWellFormed(keys) && |keys| <= I32_MAX
    ensures After(keys, EVERYTHING, |keys| / PAGE_SIZE).Walking?
    ensures After(keys, EVERYTHING, |keys| / PAGE_SIZE + 1) == Done(ReceivedAll(keys))
  {
    var requests := |keys| / PAGE_SIZE;
    PagesInOrder(keys, requests);
    var n := PAGE_SIZE * requests;
    assert n <= |keys| < n + PAGE_SIZE;
    assert PageOf(keys, n, PAGE_SIZE).keys == keys[n..|keys|];
    ReceivedSplit(keys, n, |keys|);
    assert keys[..|keys|] == keys;
  }

  const FULL_PAGES: nat := 0x40_0000   // 2^22 pages of 512 reach the first offset a signed 32-bit field cannot hold

  /** From 2^31 keys on, the request after 2^22 full pages starts one key too early: that key is received twice. */
  lemma SaturatedOffsetRepeats(keys: seq<LeafKey>)
    requires AllWellFormed(keys) && |keys| > I32_MAX
    ensures var st := After(keys, EVERYTHING, FULL_PAGES + 1);
      && !st.Failed? && |st.all| > I32_MAX + 1
      && st.all[I32_MAX] == st.all[I32_MAX + 1] == Received(keys[I32_MAX])
      && (st.Done? ==> |st.all| == |keys| + 1)
  {
    PagesInOrder(keys, FULL_PAGES);
    var n := I32_MAX + 1;
    assert PAGE_SIZE * FULL_PAGES == n;
    var page := PageOf(keys, I32_MAX, PAGE_SIZE);
    var end := Least(I32_MAX + PAGE_SIZE, |keys|);
    assert page.keys == keys[I32_MAX..end];
    assert AllWellFormed(page.keys) by {
      assert forall k :: k in page.keys ==> k in keys;
    }
    assert keys[I32_MAX] in keys;
    assert page.keys[0] == keys[I32_MAX] && keys[..n][I32_MAX] == keys[I32_MAX];
  }

  /** Once the offset no longer fits, a listing with a full page left at the last offset is never finished. */
  lemma {:induction false} FullPagesForever(keys: seq<LeafKey>, requests: nat)
    requires AllWellFormed(keys) && |keys| >= I32_MAX + PAGE_SIZE
    ensures After(keys, EVERYTHING, requests).Walking?
    decreases requests
  {
    if requests > 0 {
      FullPagesForever(keys, requests - 1);
      var offset := Least(After(keys, EVERYTHING, requests - 1).offset, I32_MAX);
      assert |PageOf(keys, offset, PAGE_SIZE).keys| == PAGE_SIZE;
    }
  }

  ghost predicate ReceivesExactly(keys: seq<LeafKey>, requests: nat)
    requires AllWellFormed(keys)
  {
    After(keys, EVERYTHING, requests) == Done(ReceivedAll(keys))
  }

  /** The client receives exactly the server's keys, each once, if and only if there are fewer than 2^31 of them. */
  lemma PagingExactIff(keys: seq<LeafKey>)
    requires AllWellFormed(keys)
    ensures (exists requests :: ReceivesExactly(keys, requests)) <==> |keys| <= I32_MAX
  {
    if |keys| <= I32_MAX {
      WalkReceivesAll(keys);
      assert ReceivesExactly(keys, |keys| / PAGE_SIZE + 1);
    } else {
      forall requests
        ensures !ReceivesExactly(keys, requests)
      {
        LongListingNeverExact(keys, requests);
      }
    }
  }

  lemma LongListingNeverExact(keys: seq<LeafKey>, requests: nat)
    requires AllWellFormed(keys) && |keys| > I32_MAX
    ensures !ReceivesExactly(keys, requests)
  {
    if |keys| >= I32_MAX + PAGE_SIZE {
      FullPagesForever(keys, requests);
    } else {
      SaturatedOffsetRepeats(keys);
      PagesInOrder(keys, FULL_PAGES);
      if requests <= FULL_PAGES {
        if !After(keys, EVERYTHING, requests).Walking? {
          StaysFrom(keys, EVERYTHING, requests, FULL_PAGES);
        }
      } else {
        assert After(keys, EVERYTHING, FULL_PAGES + 1).Done?;
        StaysFrom(keys, EVERYTHING, FULL_PAGES + 1, requests);
      }
    }
  }

  /** A query with a limit is one request: that page of the listing, or an error above the largest page size. */
  lemma OnePage(keys: seq<LeafKey>, offset: nat, limit: nat)
    requires AllWellFormed(keys) && offset <= I32_MAX && 0 < limit <= I32_MAX
    ensures AllWellFormed(PageOf(keys, offset, limit).keys)
    ensures After(keys, Query(Some(offset), Some(limit)), 1) ==
      if limit > MAX_PAGE_SIZE then Failed(InvalidLimit) else Done(ReceivedAll(PageOf(keys, offset, limit).keys))
  {
    assert forall k :: k in PageOf(keys, offset, limit).keys ==> k in keys;
    assert After(keys, Query(Some(offset), Some(limit)), 0) == Walking([], offset);
  }

  /** The client's loop, for as many requests as the caller waits for. */
  method UniverseLeafKeys(listings: seq<seq<LeafKey>>, ghost keys: seq<LeafKey>, q: Query) returns (st: Fetch)
    requires Sorted(keys) && AllWellFormed(keys)
    requires forall i :: 0 <= i < |listings| ==>
      Distinct(listings[i]) && AllWellFormed(listings[i]) && Elements(listings[i]) == Elements(keys)
    ensures st == After(keys, q, |listings|)
  {
    var offset: nat := if q.offset.Some? then q.offset.value else 0;
    var limit := if q.limit.Some? then q.limit.value else PAGE_SIZE;
    var all: seq<LeafKey> := [];
    for n := 0 to |listings|
      invariant After(keys, q, n) == Walking(all, offset)
    {
      var response := AssetLeafKeys(listings[n], keys, Least(offset, I32_MAX), Least(limit, I32_MAX));
      if response.Err? {
        st := Failed(response.error);
        StaysFrom(keys, q, n + 1, |listings|);
        return;
      }
      var page := response.value;
      var pageLen := |page.keys|;
      var received := ReceiveAll(page.keys);
      all := all + received;
      if q.limit.Some? || pageLen == 0 || (!page.hasMore && pageLen < limit) {
        st := Done(all);
        StaysFrom(keys, q, n + 1, |listings|);
        return;
      }
      offset := (offset + pageLen) % U32_LIMIT;
    }
    st := Walking(all, offset);
  }

  lemma {:induction false} StaysFrom(keys: seq<LeafKey>, q: Query, r: nat, r': nat)
    requires AllWellFormed(keys) && r <= r' && !After(keys, q, r).Walking?
    ensures After(keys, q, r') == After(keys, q, r)
    decreases r'
  {
    if r < r' {
      StaysFrom(keys, q, r, r' - 1);
    }
  }

  /** Each key of a page makes the trip over the wire. */
  method ReceiveAll(s: seq<LeafKey>) returns (r: seq<LeafKey>)
    requires AllWellFormed(s)
    ensures r == ReceivedAll(s)
  {
    r := [];
    for n := 0 to |s|
      invariant |r| == n && forall i :: 0 <= i < n ==> s[i] in s && r[i] == Received(s[i])
    {
      assert s[n] in s;
      var key := LeafKeyFromProto(LeafKeyToProto(s[n]));
      LeafKeyTravels(s[n]);
      r := r + [key.value];
    }
  }
}
