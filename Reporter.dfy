/** The periodic report of the server (NewsSummaryReporter): it drains the
    store, counts every item, and picks up to three headlines of distinct
    word sets, in iteration order (highest priority, newest first). */
module Reporter {
  import opened JavaLang
  import opened News
  import opened Storage

  const TopHeadlinesMaxCount: nat := 3

  /** A headline signature: a set of words. */
  type Sig = set<string>

  /** buildHeadlineSignature: the set of the headline's whitespace-separated
      words, so that word order and repetition do not matter. */
  function Signature(headline: string): (signature: Sig)
    ensures forall w :: w in signature <==> w in SplitWhitespace(headline)
  {
    WordSetMembers(SplitWhitespace(headline));
    WordSet(SplitWhitespace(headline))
  }

  /** The words of a list, as a set. */
  function WordSet(words: seq<string>): set<string> {
    if words == [] then {} else WordSet(words[..|words| - 1]) + {words[|words| - 1]}
  }

  /** The signature of each item, in order. */
  ghost function Signatures(items: seq<NewsItem>): (keys: seq<Sig>)
    ensures |keys| == |items|
  {
    if items == [] then []
    else Signatures(items[..|items| - 1]) + [Signature(items[|items| - 1].headline)]
  }

  /** The entries of xs whose key, given position by position in keys, does
      not occur earlier in keys; in their order in xs. */
  ghost function FirstOfEach<T, K>(xs: seq<T>, keys: seq<K>): seq<T>
    requires |keys| == |xs|
  {
    if xs == [] then []
    else
      var n := |xs| - 1;
      var kept := FirstOfEach(xs[..n], keys[..n]);
      if keys[n] in keys[..n] then kept else kept + [xs[n]]
  }

  /** The positions in keys of the first occurrence of each key, in order:
      the positions FirstOfEach keeps. */
  ghost function FirstPositions<K>(keys: seq<K>): seq<nat> {
    if keys == [] then []
    else
      var n := |keys| - 1;
      FirstPositions(keys[..n]) + (if keys[n] in keys[..n] then [] else [n])
  }

  /** The headlines the report lists for a walk: the first three of distinct
      signature, or all of them when there are fewer. */
  ghost function TopUnique(walk: seq<NewsItem>): seq<NewsItem> {
    var firsts := FirstOfEach(walk, Signatures(walk));
    if |firsts| <= TopHeadlinesMaxCount then firsts else firsts[..TopHeadlinesMaxCount]
  }

  /** Some headline of top has the signature of item. */
  ghost predicate SignatureListed(top: seq<NewsItem>, item: NewsItem) {
    exists i :: 0 <= i < |top| && Signature(top[i].headline) == Signature(item.headline)
  }

  /** No two items of s have the same signature. */
  ghost predicate DistinctSignatures(s: seq<NewsItem>) {
    forall i, j :: 0 <= i < j < |s| ==> Signature(s[i].headline) != Signature(s[j].headline)
  }

  // ------------------------------------------------------------- methods

  /** The sum of the sizes of all stacks of the snapshot, visited in the
      snapshot's own order. */
  method TotalNewsCount(snapshot: Snapshot) returns (total: int)
    ensures total == |Walk(snapshot)|
  {
    total := 0;
    var rest := snapshot;
    ghost var visited: seq<NewsItem> := [];
    while rest != map[]
      invariant Walk(snapshot) == visited + Walk(rest)
      invariant total == |visited|
      decreases |rest|
    {
      assert MaxKey(rest.Keys) in rest;
      var k :| k in rest && forall x :: x in rest ==> x <= k;
      WalkUnfold(rest, k);
      total := total + |rest[k]|;
      visited := visited + rest[k];
      rest := rest - {k};
    }
  }

  /** The report's selection loop: walks the stacks in descending priority,
      each newest first, keeps every item whose signature is new, and stops
      as soon as three are kept. */
  method TopUniqueHeadlines(snapshot: Snapshot) returns (top: seq<NewsItem>)
    ensures top == TopUnique(Walk(snapshot))
  {
    top := [];
    var seen: set<Sig> := {};
    var rest := snapshot;
    ghost var visited: seq<NewsItem> := [];
    ghost var consumed: seq<NewsItem> := [];
    while rest != map[]
      invariant consumed == visited
      invariant Walk(snapshot) == visited + Walk(rest)
      invariant Selected(visited, top, seen)
      decreases |rest|
    {
      assert MaxKey(rest.Keys) in rest;
      var k :| k in rest && forall x :: x in rest ==> x <= k;
      WalkUnfold(rest, k);
      var stack := rest[k];
      assert Walk(snapshot) == (visited + stack) + Walk(rest - {k});
      var read;
      top, seen, read := SelectFromStack(stack, visited, top, seen);
      if read < |stack| {
        PrefixOfWalk(snapshot, visited, rest, k, read);
        consumed := visited + stack[..read];
        break;
      }
      assert stack[..read] == stack;
      visited := visited + stack;
      consumed := visited;
      rest := rest - {k};
    }
    TopOfPrefix(consumed, Walk(snapshot));
  }

  /** The selection state after reading the items of consumed: top holds the
      first item of each signature, seen every signature, and at most three
      items are kept. */
  ghost predicate Selected(consumed: seq<NewsItem>, top: seq<NewsItem>, seen: set<Sig>) {
    && top == FirstOfEach(consumed, Signatures(consumed))
    && (forall s :: s in seen <==> s in Signatures(consumed))
    && |top| <= TopHeadlinesMaxCount
  }

  /** The inner loop of the report over one stack, newest item first: before
      each item it stops if three headlines are kept (the labelled break out of
      both loops), and otherwise keeps the item when its signature is new. It
      returns how many items it read. */
  method SelectFromStack(stack: seq<NewsItem>, ghost visited: seq<NewsItem>,
                         top0: seq<NewsItem>, seen0: set<Sig>)
    returns (top: seq<NewsItem>, seen: set<Sig>, read: nat)
    requires Selected(visited, top0, seen0)
    ensures read <= |stack|
    ensures Selected(visited + stack[..read], top, seen)
    ensures read < |stack| ==> |top| == TopHeadlinesMaxCount
  {
    top, seen := top0, seen0;
    read := 0;
    ghost var consumed := visited;
    assert visited + stack[..0] == visited;
    while read < |stack| && |top| < TopHeadlinesMaxCount
      invariant read <= |stack|
      invariant consumed == visited + stack[..read]
      invariant Selected(consumed, top, seen)
    {
      top, seen := SelectItem(stack[read], consumed, top, seen);
      ExtendByOne(visited, stack, read);
      consumed := consumed + [stack[read]];
      read := read + 1;
    }
  }

  lemma ExtendByOne(visited: seq<NewsItem>, stack: seq<NewsItem>, read: nat)
    requires read < |stack|
    ensures visited + stack[..read + 1] == (visited + stack[..read]) + [stack[read]]
  {
    assert stack[..read + 1] == stack[..read] + [stack[read]];
  }

  /** One item of the inner loop: its signature is recorded as seen, and the
      item is kept when the signature is new. */
  method SelectItem(item: NewsItem, ghost consumed: seq<NewsItem>, top0: seq<NewsItem>, seen0: set<Sig>)
    returns (top: seq<NewsItem>, seen: set<Sig>)
    requires Selected(consumed, top0, seen0) && |top0| < TopHeadlinesMaxCount
    ensures Selected(consumed + [item], top, seen)
  {
    var signature := Signature(item.headline);
    top, seen := top0, seen0 + {signature};
    if signature !in seen0 {
      top := top + [item];
    }
    SelectStep(consumed, item, signature, top0, seen0, top, seen);
  }

  /** One item of the inner loop: the signature is recorded as seen, and the
      item is kept exactly when its signature is new. */
  lemma SelectStep(consumed: seq<NewsItem>, item: NewsItem, signature: Sig,
                   top: seq<NewsItem>, seen: set<Sig>, top': seq<NewsItem>, seen': set<Sig>)
    requires Selected(consumed, top, seen) && |top| < TopHeadlinesMaxCount
    requires signature == Signature(item.headline)
    requires seen' == seen + {signature}
    requires top' == if signature in seen then top else top + [item]
    ensures Selected(consumed + [item], top', seen')
  {
    SignaturesSnoc(consumed, item);
    FirstOfEachStep(consumed, Signatures(consumed), item, signature, top, seen, top', seen');
  }

  /** NewsSummaryReporter.report: drains the store and returns the number of
      items it held, with the headlines it would log. */
  method Report(storage: NewsItemStorage) returns (total: int, top: seq<NewsItem>)
    requires storage.Valid()
    modifies storage
    ensures storage.Valid() && storage.added == []
    ensures total == |old(storage.added)|
    ensures top == TopUnique(Walk(Store(old(storage.added))))
  {
    ghost var history := storage.added;
    var snapshot := storage.ResetAndGetAll();
    total := TotalNewsCount(snapshot);
    top := TopUniqueHeadlines(snapshot);
    WalkStore(history);
    assert |multiset(Walk(snapshot))| == |multiset(history)|;
  }

  // ------------------------------------------------------ loop lemmas

  lemma SignaturesSnoc(items: seq<NewsItem>, item: NewsItem)
    ensures Signatures(items + [item]) == Signatures(items) + [Signature(item.headline)]
  {
    assert (items + [item])[..|items|] == items;
  }

  /** The selection loop's step for any kind of key: recording the key as
      seen and keeping the entry when the key was new continues the
      selection. */
  lemma FirstOfEachStep<T, K>(xs: seq<T>, keys: seq<K>, x: T, key: K,
                                  top: seq<T>, seen: set<K>, top': seq<T>, seen': set<K>)
    requires |keys| == |xs| && top == FirstOfEach(xs, keys)
    requires forall s :: s in seen <==> s in keys
    requires seen' == seen + {key}
    requires top' == if key in seen then top else top + [x]
    ensures top' == FirstOfEach(xs + [x], keys + [key])
    ensures forall s :: s in seen' <==> s in keys + [key]
  {
    FirstOfEachSnoc(xs, keys, x, key);
  }

  /** One step of the selection: the next entry is kept exactly when its key
      is new. */
  lemma FirstOfEachSnoc<T, K>(xs: seq<T>, keys: seq<K>, x: T, key: K)
    requires |keys| == |xs|
    ensures FirstOfEach(xs + [x], keys + [key]) ==
              if key in keys then FirstOfEach(xs, keys) else FirstOfEach(xs, keys) + [x]
  {
    assert (xs + [x])[..|xs|] == xs;
    assert (keys + [key])[..|keys|] == keys;
  }

  /** Where the selection loop stops inside a stack, what it has read is a
      prefix of the walk. */
  lemma PrefixOfWalk(snapshot: Snapshot, visited: seq<NewsItem>, rest: Snapshot, k: int, j: nat)
    requires Walk(snapshot) == visited + Walk(rest)
    requires rest != map[] && k == MaxKey(rest.Keys) && j <= |rest[k]|
    ensures visited + rest[k][..j] <= Walk(snapshot)
  {
    var stack := rest[k];
    assert Walk(rest) == stack + Walk(rest - {k});
    assert stack == stack[..j] + stack[j..];
    assert Walk(snapshot) == (visited + stack[..j]) + (stack[j..] + Walk(rest - {k}));
  }

  lemma {:induction false} SignaturesPrefix(items: seq<NewsItem>, n: nat)
    requires n <= |items|
    ensures Signatures(items[..n]) == Signatures(items)[..n]
    decreases |items|
  {
    if n < |items| {
      var front := items[..|items| - 1];
      assert items[..n] == front[..n];
      SignaturesPrefix(front, n);
    } else {
      assert items[..n] == items;
    }
  }

  /** Reading more entries only adds kept entries after the ones kept. */
  lemma {:induction false} FirstOfEachPrefix<T, K>(xs: seq<T>, keys: seq<K>, n: nat)
    requires |keys| == |xs| && n <= |xs|
    ensures FirstOfEach(xs[..n], keys[..n]) <= FirstOfEach(xs, keys)
    decreases |xs|
  {
    if n < |xs| {
      var m := |xs| - 1;
      assert xs[..m][..n] == xs[..n];
      assert keys[..m][..n] == keys[..n];
      FirstOfEachPrefix(xs[..m], keys[..m], n);
    } else {
      assert xs[..n] == xs;
      assert keys[..n] == keys;
    }
  }

  /** Stopping once three headlines are kept gives the same list as reading
      the whole walk. */
  lemma TopOfPrefix(consumed: seq<NewsItem>, walk: seq<NewsItem>)
    requires consumed <= walk
    requires |FirstOfEach(consumed, Signatures(consumed))| <= TopHeadlinesMaxCount
    requires |FirstOfEach(consumed, Signatures(consumed))| == TopHeadlinesMaxCount || consumed == walk
    ensures FirstOfEach(consumed, Signatures(consumed)) == TopUnique(walk)
  {
    var n := |consumed|;
    assert walk[..n] == consumed;
    SignaturesPrefix(walk, n);
    FirstOfEachPrefix(walk, Signatures(walk), n);
  }

  // ----------------------------------------------------- selection lemmas

  /** Every kept entry comes from xs. */
  lemma {:induction false} FirstOfEachFrom<T, K>(xs: seq<T>, keys: seq<K>)
    requires |keys| == |xs|
    ensures |FirstOfEach(xs, keys)| <= |xs|
    ensures forall i :: 0 <= i < |FirstOfEach(xs, keys)| ==> FirstOfEach(xs, keys)[i] in xs
  {
    if xs != [] {
      var n := |xs| - 1;
      FirstOfEachFrom(xs[..n], keys[..n]);
    }
  }

  /** Selecting from the keys themselves leaves each key once: no key twice,
      and every key there is. */
  lemma {:induction false} FirstOfEachKeys<K>(keys: seq<K>)
    ensures forall i, j :: 0 <= i < j < |FirstOfEach(keys, keys)| ==>
              FirstOfEach(keys, keys)[i] != FirstOfEach(keys, keys)[j]
    ensures forall s :: s in FirstOfEach(keys, keys) <==> s in keys
  {
    if keys != [] {
      var n := |keys| - 1;
      var front := keys[..n];
      var kept := FirstOfEach(front, front);
      FirstOfEachKeys(front);
      assert keys == front + [keys[n]];
      var r := FirstOfEach(keys, keys);
      if keys[n] in front {
        assert r == kept;
      } else {
        assert r == kept + [keys[n]];
        assert keys[n] !in kept;
        forall i, j | 0 <= i < j < |r|
          ensures r[i] != r[j]
        {
          if j < |kept| {
            assert r[i] == kept[i] && r[j] == kept[j];
          } else {
            assert r[i] == kept[i];
          }
        }
      }
    }
  }

  /** The signatures of the kept items are the kept signatures. */
  lemma {:induction false} SignaturesOfFirsts(items: seq<NewsItem>)
    ensures Signatures(FirstOfEach(items, Signatures(items))) ==
              FirstOfEach(Signatures(items), Signatures(items))
  {
    if items != [] {
      var n := |items| - 1;
      var front := items[..n];
      SignaturesOfFirsts(front);
      SignaturesPrefix(items, n);
      var keys := Signatures(items);
      assert keys[n] == Signature(items[n].headline);
      if keys[n] !in keys[..n] {
        SignaturesSnoc(FirstOfEach(front, Signatures(front)), items[n]);
      }
    }
  }

  lemma {:induction false} SignaturesAt(items: seq<NewsItem>)
    ensures forall i :: 0 <= i < |items| ==> Signatures(items)[i] == Signature(items[i].headline)
  {
    if items != [] {
      SignaturesAt(items[..|items| - 1]);
    }
  }

  /** Every kept entry is the first of its key. */
  lemma {:induction false} KeptAreFirst<T, K>(xs: seq<T>, keys: seq<K>)
    requires |keys| == |xs|
    ensures forall i :: 0 <= i < |FirstOfEach(xs, keys)| ==>
              exists j :: 0 <= j < |xs| && xs[j] == FirstOfEach(xs, keys)[i] && keys[j] !in keys[..j]
  {
    if xs != [] {
      var n := |xs| - 1;
      var front := xs[..n];
      var frontKeys := keys[..n];
      KeptAreFirst(front, frontKeys);
      var kept := FirstOfEach(front, frontKeys);
      var r := FirstOfEach(xs, keys);
      assert r == if keys[n] in frontKeys then kept else kept + [xs[n]];
      forall i | 0 <= i < |r|
        ensures exists j :: 0 <= j < |xs| && xs[j] == r[i] && keys[j] !in keys[..j]
      {
        if i < |kept| {
          assert r[i] == kept[i];
          var j :| 0 <= j < |front| && front[j] == kept[i] && frontKeys[j] !in frontKeys[..j];
          assert keys[..j] == frontKeys[..j] && xs[j] == front[j];
        } else {
          assert keys[n] !in keys[..n] && xs[n] == r[i];
        }
      }
      assert r == FirstOfEach(xs, keys);
    } else {
      assert FirstOfEach(xs, keys) == [];
    }
  }

  /** Every entry whose key does not occur before it is kept. */
  lemma {:induction false} FirstsAreKept<T, K>(xs: seq<T>, keys: seq<K>, j: nat)
    requires |keys| == |xs| && j < |xs| && keys[j] !in keys[..j]
    ensures xs[j] in FirstOfEach(xs, keys)
  {
    var n := |xs| - 1;
    if j < n {
      assert keys[..n][..j] == keys[..j];
      FirstsAreKept(xs[..n], keys[..n], j);
    } else {
      assert keys[..j] == keys[..n];
    }
  }

  /** Each kept entry sits at the matching first position, where its key
      occurs for the first time. */
  lemma {:induction false} FirstPositionsAt<T, K>(xs: seq<T>, keys: seq<K>)
    requires |keys| == |xs|
    ensures |FirstPositions(keys)| == |FirstOfEach(xs, keys)|
    ensures forall i :: 0 <= i < |FirstPositions(keys)| ==>
              FirstPositions(keys)[i] < |xs| && FirstOfEach(xs, keys)[i] == xs[FirstPositions(keys)[i]]
              && keys[FirstPositions(keys)[i]] !in keys[..FirstPositions(keys)[i]]
  {
    if xs != [] {
      var n := |xs| - 1;
      FirstPositionsAt(xs[..n], keys[..n]);
      var front := FirstPositions(keys[..n]);
      forall i | 0 <= i < |front|
        ensures keys[..front[i]] == keys[..n][..front[i]]
      {
      }
    }
  }

  /** The first positions strictly increase. */
  lemma {:induction false} FirstPositionsIncrease<K>(keys: seq<K>)
    ensures forall i :: 0 <= i < |FirstPositions(keys)| ==> FirstPositions(keys)[i] < |keys|
    ensures forall i, j :: 0 <= i < j < |FirstPositions(keys)| ==> FirstPositions(keys)[i] < FirstPositions(keys)[j]
  {
    if keys != [] {
      FirstPositionsIncrease(keys[..|keys| - 1]);
    }
  }

  /** The first occurrence of the key at position j is listed, at or before
      j. */
  lemma {:induction false} FirstOccurrenceListed<K>(keys: seq<K>, j: nat) returns (i: nat)
    requires j < |keys|
    ensures i < |FirstPositions(keys)| && FirstPositions(keys)[i] <= j
    ensures keys[FirstPositions(keys)[i]] == keys[j]
  {
    var n := |keys| - 1;
    var front := keys[..n];
    var m := j;
    if j == n && keys[n] in front {
      m :| 0 <= m < n && front[m] == keys[n];
    }
    if m < n {
      i := FirstOccurrenceListed(front, m);
    } else {
      i := |FirstPositions(front)|;
    }
  }

  /** A walk in descending priority stays so in the selection. */
  lemma {:induction false} FirstOfEachDescending<K>(items: seq<NewsItem>, keys: seq<K>)
    requires |keys| == |items| && Descending(items)
    ensures Descending(FirstOfEach(items, keys))
  {
    if items != [] {
      var n := |items| - 1;
      var front := items[..n];
      FirstOfEachDescending(front, keys[..n]);
      FirstOfEachFrom(front, keys[..n]);
      var kept := FirstOfEach(front, keys[..n]);
      forall i | 0 <= i < |kept|
        ensures kept[i].priority >= items[n].priority
      {
        var j :| 0 <= j < |front| && front[j] == kept[i];
      }
    }
  }

  /** The listed headlines are the first ones of the selection, at most
      three of them. */
  lemma TopPrefix(walk: seq<NewsItem>)
    ensures |TopUnique(walk)| <= TopHeadlinesMaxCount
    ensures TopUnique(walk) <= FirstOfEach(walk, Signatures(walk))
  {
  }

  /** Every listed headline is an item of the walk. */
  lemma TopMembers(walk: seq<NewsItem>)
    ensures forall i :: 0 <= i < |TopUnique(walk)| ==> TopUnique(walk)[i] in walk
  {
    TopPrefix(walk);
    FirstOfEachFrom(walk, Signatures(walk));
  }

  /** Every listed headline is the first item of the walk with its
      signature. */
  lemma TopAreFirst(walk: seq<NewsItem>)
    ensures forall i :: 0 <= i < |TopUnique(walk)| ==>
              exists j :: 0 <= j < |walk| && walk[j] == TopUnique(walk)[i] &&
                forall l :: 0 <= l < j ==> Signature(walk[l].headline) != Signature(walk[j].headline)
  {
    var keys := Signatures(walk);
    var top := TopUnique(walk);
    TopPrefix(walk);
    KeptAreFirst(walk, keys);
    SignaturesAt(walk);
    forall i | 0 <= i < |top|
      ensures exists j :: 0 <= j < |walk| && walk[j] == top[i] &&
                forall l :: 0 <= l < j ==> Signature(walk[l].headline) != Signature(walk[j].headline)
    {
      assert top[i] == FirstOfEach(walk, keys)[i];
      var j :| 0 <= j < |walk| && walk[j] == top[i] && keys[j] !in keys[..j];
      forall l | 0 <= l < j
        ensures Signature(walk[l].headline) != Signature(walk[j].headline)
      {
        assert keys[..j][l] == keys[l];
      }
    }
  }

  /** No two listed headlines have the same signature. */
  lemma TopDistinct(walk: seq<NewsItem>)
    ensures DistinctSignatures(TopUnique(walk))
  {
    var keys := Signatures(walk);
    var firsts := FirstOfEach(walk, keys);
    var top := TopUnique(walk);
    TopPrefix(walk);
    SignaturesOfFirsts(walk);
    FirstOfEachKeys(keys);
    SignaturesAt(firsts);
    forall i, j | 0 <= i < j < |top|
      ensures Signature(top[i].headline) != Signature(top[j].headline)
    {
      assert top[i] == firsts[i] && top[j] == firsts[j];
      assert Signatures(firsts)[i] != Signatures(firsts)[j];
    }
  }

  /** A walk in descending priority is listed in descending priority. */
  lemma TopDescending(walk: seq<NewsItem>)
    requires Descending(walk)
    ensures Descending(TopUnique(walk))
  {
    var firsts := FirstOfEach(walk, Signatures(walk));
    TopPrefix(walk);
    FirstOfEachDescending(walk, Signatures(walk));
    var top := TopUnique(walk);
    forall i, j | 0 <= i < j < |top|
      ensures top[i].priority >= top[j].priority
    {
      assert top[i] == firsts[i] && top[j] == firsts[j];
    }
  }

  /** The listed headlines are taken in walk order, and they are the FIRST
      distinct signatures: an item whose signature is not listed can only be
      missing because three headlines were already listed before it. pos
      gives the walk position of each listed headline. */
  lemma TopOrder(walk: seq<NewsItem>) returns (pos: seq<nat>)
    ensures |pos| == |TopUnique(walk)|
    ensures forall i :: 0 <= i < |pos| ==> pos[i] < |walk| && walk[pos[i]] == TopUnique(walk)[i]
    ensures forall i, j :: 0 <= i < j < |pos| ==> pos[i] < pos[j]
    ensures forall j :: 0 <= j < |walk| && !SignatureListed(TopUnique(walk), walk[j]) ==>
              |pos| == TopHeadlinesMaxCount && pos[TopHeadlinesMaxCount - 1] < j
  {
    var fp := FirstPositions(Signatures(walk));
    var top := TopUnique(walk);
    TopAtFirstPositions(walk);
    pos := fp[..|top|];
    assert forall i, j :: 0 <= i < j < |pos| ==> pos[i] < pos[j] by {
      FirstPositionsIncrease(Signatures(walk));
    }
    forall j | 0 <= j < |walk| && !SignatureListed(top, walk[j])
      ensures |pos| == TopHeadlinesMaxCount && pos[TopHeadlinesMaxCount - 1] < j
    {
      ListedOrLater(walk, j);
    }
  }

  /** The i-th listed headline is the walk item at the i-th first position. */
  lemma TopAtFirstPositions(walk: seq<NewsItem>)
    ensures |TopUnique(walk)| <= |FirstPositions(Signatures(walk))|
    ensures |TopUnique(walk)| < TopHeadlinesMaxCount ==> |TopUnique(walk)| == |FirstPositions(Signatures(walk))|
    ensures forall i :: 0 <= i < |TopUnique(walk)| ==>
              FirstPositions(Signatures(walk))[i] < |walk|
              && TopUnique(walk)[i] == walk[FirstPositions(Signatures(walk))[i]]
  {
    TopPrefix(walk);
    FirstPositionsAt(walk, Signatures(walk));
  }

  /** Every item of the walk has its signature listed, or three headlines are
      listed and it lies after the first position of the third. */
  lemma ListedOrLater(walk: seq<NewsItem>, j: nat)
    requires j < |walk|
    ensures SignatureListed(TopUnique(walk), walk[j]) ||
              (|TopUnique(walk)| == TopHeadlinesMaxCount <= |FirstPositions(Signatures(walk))|
               && FirstPositions(Signatures(walk))[TopHeadlinesMaxCount - 1] < j)
  {
    var keys := Signatures(walk);
    var fp := FirstPositions(keys);
    var top := TopUnique(walk);
    var i := FirstOccurrenceListed(keys, j);
    SignaturesAt(walk);
    TopAtFirstPositions(walk);
    if i < |top| {
      assert top[i] == walk[fp[i]];
      assert Signature(top[i].headline) == Signature(walk[j].headline);
    } else {
      assert |top| == TopHeadlinesMaxCount;
      FirstPositionsIncrease(keys);
      assert fp[TopHeadlinesMaxCount - 1] <= fp[i] <= j;
    }
  }

  /** With fewer than three listed, every signature of the walk is listed. */
  lemma TopCovers(walk: seq<NewsItem>)
    requires |TopUnique(walk)| < TopHeadlinesMaxCount
    ensures forall w :: 0 <= w < |walk| ==>
              exists j :: 0 <= j < |TopUnique(walk)| &&
                Signature(TopUnique(walk)[j].headline) == Signature(walk[w].headline)
  {
    var keys := Signatures(walk);
    var firsts := FirstOfEach(walk, keys);
    var top := TopUnique(walk);
    assert top == firsts;
    SignaturesOfFirsts(walk);
    FirstOfEachKeys(keys);
    SignaturesAt(firsts);
    SignaturesAt(walk);
    forall w | 0 <= w < |walk|
      ensures exists j :: 0 <= j < |top| && Signature(top[j].headline) == Signature(walk[w].headline)
    {
      assert keys[w] in FirstOfEach(keys, keys);
      var j :| 0 <= j < |firsts| && Signatures(firsts)[j] == keys[w];
      assert Signature(top[j].headline) == Signature(walk[w].headline);
    }
  }

  /** What a report lists for the items added since the previous one: at
      most three of them, no two with the same word set, highest priority
      first; and when fewer than three are listed, every added headline's
      word set is among them. pos gives the position of each listed headline
      in the snapshot's iteration order: the positions increase, so within
      a priority the listed headlines stay newest first, and every item of
      the snapshot whose word set is not listed comes after the third. */
  lemma ReportedHeadlines(history: seq<NewsItem>) returns (pos: seq<nat>)
    ensures |TopUnique(Walk(Store(history)))| <= TopHeadlinesMaxCount
    ensures forall i :: 0 <= i < |TopUnique(Walk(Store(history)))| ==>
              TopUnique(Walk(Store(history)))[i] in multiset(history)
    ensures DistinctSignatures(TopUnique(Walk(Store(history))))
    ensures Descending(TopUnique(Walk(Store(history))))
    ensures |TopUnique(Walk(Store(history)))| < TopHeadlinesMaxCount ==>
              forall i :: 0 <= i < |history| ==>
                exists j :: 0 <= j < |TopUnique(Walk(Store(history)))| &&
                  Signature(TopUnique(Walk(Store(history)))[j].headline) == Signature(history[i].headline)
    ensures |pos| == |TopUnique(Walk(Store(history)))|
    ensures forall i :: 0 <= i < |pos| ==>
              pos[i] < |Walk(Store(history))| && Walk(Store(history))[pos[i]] == TopUnique(Walk(Store(history)))[i]
    ensures forall i, j :: 0 <= i < j < |pos| ==> pos[i] < pos[j]
    ensures forall j ::
              0 <= j < |Walk(Store(history))| && !SignatureListed(TopUnique(Walk(Store(history))), Walk(Store(history))[j])
              ==> |pos| == TopHeadlinesMaxCount && pos[TopHeadlinesMaxCount - 1] < j
  {
    var walk := Walk(Store(history));
    pos := TopOrder(walk);
    WalkStore(history);
    StoreKeyed(history);
    WalkDescending(Store(history));
    TopPrefix(walk);
    TopDistinct(walk);
    TopDescending(walk);
    TopFromHistory(walk, history);
    if |TopUnique(walk)| < TopHeadlinesMaxCount {
      TopCoversHistory(walk, history);
    }
  }

  /** The listed headlines are items of any history the walk holds. */
  lemma TopFromHistory(walk: seq<NewsItem>, history: seq<NewsItem>)
    requires multiset(walk) == multiset(history)
    ensures forall i :: 0 <= i < |TopUnique(walk)| ==> TopUnique(walk)[i] in multiset(history)
  {
    var top := TopUnique(walk);
    TopMembers(walk);
    forall i | 0 <= i < |top|
      ensures top[i] in multiset(history)
    {
      assert top[i] in multiset(walk);
    }
  }

  /** With fewer than three listed, the signature of every item of any
      history the walk holds is listed. */
  lemma TopCoversHistory(walk: seq<NewsItem>, history: seq<NewsItem>)
    requires multiset(walk) == multiset(history)
    requires |TopUnique(walk)| < TopHeadlinesMaxCount
    ensures forall i :: 0 <= i < |history| ==>
              exists j :: 0 <= j < |TopUnique(walk)| &&
                Signature(TopUnique(walk)[j].headline) == Signature(history[i].headline)
  {
    var top := TopUnique(walk);
    TopCovers(walk);
    forall i | 0 <= i < |history|
      ensures exists j :: 0 <= j < |top| && Signature(top[j].headline) == Signature(history[i].headline)
    {
      assert history[i] in multiset(walk);
      var w :| 0 <= w < |walk| && walk[w] == history[i];
    }
  }

  // ----------------------------------------------------- signature lemmas

  lemma {:induction false} WordSetMembers(words: seq<string>)
    ensures forall w :: w in WordSet(words) <==> w in words
  {
    if words != [] {
      var front := words[..|words| - 1];
      WordSetMembers(front);
      assert words == front + [words[|words| - 1]];
    }
  }

  /** The signature of a headline written as words joined by single spaces is
      the set of those words. */
  lemma SignatureOfWords(words: seq<string>)
    requires |words| >= 1
    requires forall k :: 0 <= k < |words| ==> words[k] != "" && Avoids(words[k], RegexSpace)
    ensures forall w :: w in Signature(Join(words, ' ')) <==> w in words
  {
    WordsOfJoin(words);
    WordSetMembers(words);
  }

  /** Two headlines made of the same words, in any order and any number of
      times, are duplicates for the report. */
  lemma SameWordsSameSignature(a: seq<string>, b: seq<string>)
    requires |a| >= 1 && |b| >= 1
    requires forall k :: 0 <= k < |a| ==> a[k] != "" && Avoids(a[k], RegexSpace)
    requires forall k :: 0 <= k < |b| ==> b[k] != "" && Avoids(b[k], RegexSpace)
    requires forall w :: w in a <==> w in b
    ensures Signature(Join(a, ' ')) == Signature(Join(b, ' '))
  {
    SignatureOfWords(a);
    SignatureOfWords(b);
  }
}
