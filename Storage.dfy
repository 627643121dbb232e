/** The server's in-memory store of positive news (NewsItemStorage): a map
    from priority to a stack of items, the newest first, iterated in
    descending priority, which a reporting run swaps for an empty one. */
module Storage {
  import opened Wrappers
  import opened News

  /** A priority-keyed map of stacks; each stack lists its items newest first. */
  type Snapshot = map<int, seq<NewsItem>>

  /** The stack kept for priority p; a priority never stored has none. */
  function Bucket(m: Snapshot, p: int): seq<NewsItem> {
    if p in m then m[p] else []
  }

  /** computeIfAbsent(priority, new deque).push(item): the item goes on top of
      the stack of its priority, which is created when missing. */
  function Push(m: Snapshot, item: NewsItem): (r: Snapshot)
    ensures r.Keys == m.Keys + {item.priority}
    ensures Bucket(r, item.priority) == [item] + Bucket(m, item.priority)
    ensures forall p :: p != item.priority ==> Bucket(r, p) == Bucket(m, p)
  {
    m[item.priority := [item] + Bucket(m, item.priority)]
  }

  /** The map built by adding the items of history, oldest first, to an
      empty store. */
  ghost function Store(history: seq<NewsItem>): Snapshot {
    if history == [] then map[]
    else Push(Store(history[..|history| - 1]), history[|history| - 1])
  }

  /** The items of priority p, in their original order. */
  function WithPriority(items: seq<NewsItem>, p: int): (r: seq<NewsItem>)
    ensures |r| <= |items|
    ensures forall i :: 0 <= i < |r| ==> r[i].priority == p && r[i] in items
    ensures (forall i :: 0 <= i < |items| ==> items[i].priority == p) ==> r == items
  {
    if items == [] then []
    else
      var last := items[|items| - 1];
      WithPriority(items[..|items| - 1], p) + (if last.priority == p then [last] else [])
  }

  function Reverse(s: seq<NewsItem>): (r: seq<NewsItem>)
    ensures |r| == |s|
    ensures forall i :: 0 <= i < |s| ==> r[i] == s[|s| - 1 - i]
  {
    if s == [] then [] else [s[|s| - 1]] + Reverse(s[..|s| - 1])
  }

  /** Every stack holds only items of its own priority, and none is empty. */
  ghost predicate Keyed(m: Snapshot) {
    forall p :: p in m ==> m[p] != [] && forall i :: 0 <= i < |m[p]| ==> m[p][i].priority == p
  }

  // ------------------------------------------------------------ iteration

  lemma Inhabited(keys: set<int>)
    requires keys != {}
    ensures exists k :: k in keys
  {
    if forall k :: k !in keys {
      assert false;
    }
  }

  /** The largest key: the first one a reverse-ordered map yields. */
  ghost function MaxKey(keys: set<int>): (k: int)
    requires keys != {}
    ensures k in keys && forall x :: x in keys ==> x <= k
  {
    Inhabited(keys);
    var x :| x in keys;
    if keys == {x} then x
    else
      var rest := MaxKey(keys - {x});
      assert forall y :: y in keys ==> y == x || y in keys - {x};
      if x >= rest then x else rest
  }

  /** The items of a snapshot in iteration order: priorities in descending
      order, each stack from its newest item to its oldest. */
  ghost function Walk(m: Snapshot): seq<NewsItem>
    decreases |m|
  {
    if m == map[] then []
    else
      var k := MaxKey(m.Keys);
      assert (m - {k}).Keys < m.Keys;
      m[k] + Walk(m - {k})
  }

  /** The walk starts with the stack of the largest key. */
  lemma WalkUnfold(m: Snapshot, k: int)
    requires m != map[] && k in m && forall x :: x in m ==> x <= k
    ensures k == MaxKey(m.Keys)
    ensures Walk(m) == m[k] + Walk(m - {k})
  {
  }

  /** The largest key is the only key that bounds all the others. */
  lemma MaxKeyIs(keys: set<int>, k: int)
    requires k in keys && forall x :: x in keys ==> x <= k
    ensures MaxKey(keys) == k
  {
  }

  /** Removing a stack keeps the others keyed. */
  lemma KeyedRemove(m: Snapshot, k: int)
    requires Keyed(m)
    ensures Keyed(m - {k})
  {
    forall p | p in m - {k}
      ensures (m - {k})[p] == m[p]
    {
    }
  }

  /** The items in s appear in non-increasing priority. */
  ghost predicate Descending(s: seq<NewsItem>) {
    forall i, j :: 0 <= i < j < |s| ==> s[i].priority >= s[j].priority
  }

  // --------------------------------------------------------------- class

  class NewsItemStorage {
    /** The current map of stacks. */
    var buckets: Snapshot
    /** Every item stored since the last reset, oldest first. */
    ghost var added: seq<NewsItem>

    ghost predicate Valid()
      reads this
    {
      buckets == Store(added)
    }

    constructor ()
      ensures Valid() && added == []
    {
      buckets := map[];
      added := [];
    }

    /** A missing item is ignored; any other goes on top of the stack of its
        priority, whatever its priority. */
    method Add(item: Option<NewsItem>)
      requires Valid()
      modifies this
      ensures Valid()
      ensures added == old(added) + (if item.Some? then [item.value] else [])
      ensures item.None? ==> buckets == old(buckets)
      ensures item.Some? ==>
                Bucket(buckets, item.value.priority) == [item.value] + old(Bucket(buckets, item.value.priority))
    {
      if item.None? {
        return;
      }
      var news := item.value;
      buckets := buckets[news.priority := [news] + Bucket(buckets, news.priority)];
      added := added + [news];
      assert added[..|added| - 1] == old(added);
    }

    /** Hands over the current map and starts again from an empty one. */
    method ResetAndGetAll() returns (snapshot: Snapshot)
      requires Valid()
      modifies this
      ensures Valid() && added == []
      ensures snapshot == old(buckets) == Store(old(added))
    {
      snapshot := buckets;
      buckets := map[];
      added := [];
    }
  }

  // -------------------------------------------------------------- lemmas

  lemma {:induction false} ReverseSnoc(s: seq<NewsItem>, x: NewsItem)
    ensures Reverse(s + [x]) == [x] + Reverse(s)
  {
    assert (s + [x])[..|s|] == s;
  }

  /** Each stack of the store lists the items of its priority newest first,
      and a priority has a stack exactly when some item of it was added. */
  lemma {:induction false} StoreBucket(history: seq<NewsItem>, p: int)
    ensures Bucket(Store(history), p) == Reverse(WithPriority(history, p))
    ensures p in Store(history) <==> WithPriority(history, p) != []
  {
    if history != [] {
      var front := history[..|history| - 1];
      var last := history[|history| - 1];
      StoreBucket(front, p);
      assert Store(history) == Push(Store(front), last);
      if last.priority == p {
        assert WithPriority(history, p) == WithPriority(front, p) + [last];
        ReverseSnoc(WithPriority(front, p), last);
      } else {
        assert WithPriority(history, p) == WithPriority(front, p);
      }
    }
  }

  /** Every stack of the store is non-empty and holds its own priority only. */
  lemma StoreKeyed(history: seq<NewsItem>)
    ensures Keyed(Store(history))
  {
    forall p | p in Store(history)
      ensures Store(history)[p] != []
      ensures forall i :: 0 <= i < |Store(history)[p]| ==> Store(history)[p][i].priority == p
    {
      StoreBucket(history, p);
    }
  }

  lemma {:induction false} WithPriorityAppend(a: seq<NewsItem>, b: seq<NewsItem>, p: int)
    ensures WithPriority(a + b, p) == WithPriority(a, p) + WithPriority(b, p)
    decreases |b|
  {
    if b == [] {
      assert a + b == a;
    } else {
      var front := b[..|b| - 1];
      assert (a + b)[..|a + b| - 1] == a + front;
      WithPriorityAppend(a, front, p);
    }
  }

  lemma {:induction false} WithPriorityNone(s: seq<NewsItem>, p: int)
    requires forall i :: 0 <= i < |s| ==> s[i].priority != p
    ensures WithPriority(s, p) == []
  {
    if s != [] {
      WithPriorityNone(s[..|s| - 1], p);
    }
  }

  /** Every item of the walk belongs to a stack of the map. */
  lemma {:induction false} WalkPriorities(m: Snapshot)
    requires Keyed(m)
    ensures forall i :: 0 <= i < |Walk(m)| ==> Walk(m)[i].priority in m
    decreases |m|
  {
    if m != map[] {
      var k := MaxKey(m.Keys);
      var rest := m - {k};
      WalkPriorities(rest);
      assert Walk(m) == m[k] + Walk(rest);
    }
  }

  /** The walk visits the items in descending priority. */
  lemma {:induction false} WalkDescending(m: Snapshot)
    requires Keyed(m)
    ensures Descending(Walk(m))
    decreases |m|
  {
    if m != map[] {
      var k := MaxKey(m.Keys);
      var rest := m - {k};
      WalkDescending(rest);
      WalkPriorities(rest);
      var w := Walk(m);
      assert w == m[k] + Walk(rest);
      forall i, j | 0 <= i < j < |w|
        ensures w[i].priority >= w[j].priority
      {
        if j >= |m[k]| {
          assert w[j] == Walk(rest)[j - |m[k]|];
          if i < |m[k]| {
            assert w[i] == m[k][i];
          } else {
            assert w[i] == Walk(rest)[i - |m[k]|];
          }
        }
      }
    }
  }

  /** Restricted to one priority, the walk is exactly that priority's stack. */
  lemma {:induction false} WalkBucket(m: Snapshot, p: int)
    requires Keyed(m)
    ensures WithPriority(Walk(m), p) == Bucket(m, p)
    decreases |m|
  {
    if m != map[] {
      var k := MaxKey(m.Keys);
      var rest := m - {k};
      KeyedRemove(m, k);
      WalkBucket(rest, p);
      assert Walk(m) == m[k] + Walk(rest);
      WithPriorityAppend(m[k], Walk(rest), p);
      if p == k {
        WalkPriorities(rest);
        WithPriorityNone(Walk(rest), p);
        assert Bucket(rest, p) == [];
        assert WithPriority(m[k], p) == m[k];
      } else {
        WithPriorityNone(m[k], p);
        assert Bucket(rest, p) == Bucket(m, p);
      }
    }
  }

  /** Taking one stack out of the map takes its items out of the walk. */
  lemma {:induction false} WalkRemove(m: Snapshot, k: int)
    requires k in m
    ensures multiset(Walk(m)) == multiset(m[k]) + multiset(Walk(m - {k}))
    decreases |m|
  {
    var top := MaxKey(m.Keys);
    var rest := m - {top};
    assert Walk(m) == m[top] + Walk(rest);
    if k != top {
      WalkRemove(rest, k);
      assert rest - {k} == (m - {k}) - {top};
      MaxKeyIs((m - {k}).Keys, top);
      assert Walk(m - {k}) == m[top] + Walk(rest - {k});
      assert rest[k] == m[k];
    } else {
      assert rest == m - {k};
    }
  }

  /** Pushing an item adds exactly that item to the walk. */
  lemma WalkPush(m: Snapshot, item: NewsItem)
    ensures multiset(Walk(Push(m, item))) == multiset(Walk(m)) + multiset{item}
  {
    var p := item.priority;
    var r := Push(m, item);
    WalkRemove(r, p);
    assert r - {p} == m - {p};
    if p in m {
      WalkRemove(m, p);
    } else {
      assert m - {p} == m;
    }
  }

  /** A snapshot holds every added item exactly once. */
  lemma {:induction false} WalkStore(history: seq<NewsItem>)
    ensures multiset(Walk(Store(history))) == multiset(history)
  {
    if history != [] {
      var front := history[..|history| - 1];
      var last := history[|history| - 1];
      WalkStore(front);
      assert Store(history) == Push(Store(front), last);
      WalkPush(Store(front), last);
      SplitLast(history);
    }
  }

  /** A non-empty sequence is its front followed by its last element. */
  lemma SplitLast<T>(s: seq<T>)
    requires s != []
    ensures s == s[..|s| - 1] + [s[|s| - 1]]
  {
  }

  /** The order in which a report sees the stored items: every added item
      exactly once, in descending priority, and within one priority the
      newest first. */
  lemma SnapshotOrder(history: seq<NewsItem>)
    ensures multiset(Walk(Store(history))) == multiset(history)
    ensures Descending(Walk(Store(history)))
    ensures forall p :: WithPriority(Walk(Store(history)), p) == Reverse(WithPriority(history, p))
  {
    WalkStore(history);
    StoreKeyed(history);
    WalkDescending(Store(history));
    forall p
      ensures WithPriority(Walk(Store(history)), p) == Reverse(WithPriority(history, p))
    {
      WalkBucket(Store(history), p);
      StoreBucket(history, p);
    }
  }
}
