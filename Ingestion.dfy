/** Per-connection ingestion on the server (ClientHandler): every line the
    client sends is decoded, kept only when its headline is positive, and
    then pushed into the shared store; malformed lines are dropped without
    ending the connection. */
module Ingestion {
  import opened Wrappers
  import opened JavaLang
  import opened News
  import opened Codec
  import opened Sentiment
  import opened Storage

  /** The item processNewsItem stores for one line, if any: the decoded item
      when the line decodes and its headline is positive. A stored item thus
      has a priority in [0, 9] and a trimmed, positive headline free of the
      separator, and a line that does not decode stores nothing. */
  function Admit(line: string): (item: Option<NewsItem>)
    ensures item.Some? <==>
              FromString(Some(line)).Success? && Positive(Some(FromString(Some(line)).value.headline))
    ensures item.Some? ==>
              && FromString(Some(line)) == Success(item.value)
              && MinPriority <= item.value.priority <= MaxPriority
              && IsTrimmed(item.value.headline)
              && Separator !in item.value.headline
              && Positive(Some(item.value.headline))
  {
    match FromString(Some(line))
    case Failure(_) => None
    case Success(item) => if Positive(Some(item.headline)) then Some(item) else None
  }

  /** The items a sequence of lines adds to the store, in line order. */
  function Admitted(lines: seq<string>): (items: seq<NewsItem>)
    ensures |items| <= |lines|
  {
    if lines == [] then []
    else Admitted(lines[..|lines| - 1]) + Stored(Admit(lines[|lines| - 1]))
  }

  /** An optional item as the list of items it adds. */
  function Stored(item: Option<NewsItem>): seq<NewsItem> {
    if item.Some? then [item.value] else []
  }

  class ClientHandler {
    /** The store shared with every other connection and the reporter. */
    const storage: NewsItemStorage
    /** Set once the connection has been closed. */
    var closed: bool

    constructor (storage: NewsItemStorage)
      ensures this.storage == storage && !closed
    {
      this.storage := storage;
      closed := false;
    }

    /** processNewsItem: a line that does not decode is logged and dropped;
        a decoded item is stored exactly when its headline is positive. */
    method ProcessNewsItem(line: string)
      requires storage.Valid()
      modifies storage
      ensures storage.Valid()
      ensures storage.added == old(storage.added) + Stored(Admit(line))
      ensures Admit(line).None? ==> storage.buckets == old(storage.buckets)
      ensures Admit(line).Some? ==>
                Bucket(storage.buckets, Admit(line).value.priority) ==
                  [Admit(line).value] + old(Bucket(storage.buckets, Admit(line).value.priority))
    {
      var decoded := FromString(Some(line));
      if decoded.Failure? {
        return;
      }
      var item := decoded.value;
      var positive := IsPositive(Some(item.headline));
      if positive {
        storage.Add(Some(item));
      }
    }

    /** run: processes the lines in arrival order until the stream ends, then
        closes the connection. */
    method Run(lines: seq<string>)
      requires storage.Valid()
      modifies this, storage
      ensures closed
      ensures storage.Valid()
      ensures storage.added == old(storage.added) + Admitted(lines)
    {
      ghost var start := storage.added;
      var i := 0;
      while i < |lines|
        invariant i <= |lines|
        invariant storage.Valid()
        invariant storage.added == start + Admitted(lines[..i])
      {
        ghost var before := storage.added;
        ProcessNewsItem(lines[i]);
        RunStep(start, before, storage.added, lines, i);
        i := i + 1;
      }
      assert lines[..i] == lines;
      closed := true;
    }
  }

  // -------------------------------------------------------------- lemmas

  /** One more line adds what that line admits. */
  lemma RunStep(start: seq<NewsItem>, before: seq<NewsItem>, after: seq<NewsItem>,
                lines: seq<string>, i: nat)
    requires i < |lines|
    requires before == start + Admitted(lines[..i])
    requires after == before + Stored(Admit(lines[i]))
    ensures after == start + Admitted(lines[..i + 1])
  {
    assert lines[..i + 1][..i] == lines[..i];
  }

  /** Lines are processed independently: the items of a concatenation are
      the items of its parts, in order. */
  lemma {:induction false} AdmittedAppend(a: seq<string>, b: seq<string>)
    ensures Admitted(a + b) == Admitted(a) + Admitted(b)
    decreases |b|
  {
    if b == [] {
      assert a + b == a;
    } else {
      var front := b[..|b| - 1];
      assert (a + b)[..|a + b| - 1] == a + front;
      AdmittedAppend(a, front);
    }
  }

  /** A line that does not decode is skipped, and the lines after it are
      still processed. */
  lemma MalformedLineSkipped(before: seq<string>, bad: string, after: seq<string>)
    requires FromString(Some(bad)).Failure?
    ensures Admitted(before + [bad] + after) == Admitted(before) + Admitted(after)
  {
    AdmittedAppend(before + [bad], after);
    assert (before + [bad])[..|before|] == before;
  }

  /** Every stored item decodes from its own line, lies in [0, 9] and is
      positive. */
  lemma {:induction false} AdmittedItems(lines: seq<string>)
    ensures forall i :: 0 <= i < |Admitted(lines)| ==>
              && MinPriority <= Admitted(lines)[i].priority <= MaxPriority
              && Positive(Some(Admitted(lines)[i].headline))
  {
    if lines != [] {
      AdmittedItems(lines[..|lines| - 1]);
    }
  }

  lemma {:induction false} ReverseAppend(a: seq<NewsItem>, b: seq<NewsItem>)
    ensures Reverse(a + b) == Reverse(b) + Reverse(a)
    decreases |b|
  {
    if b == [] {
      assert a + b == a;
    } else {
      var front := b[..|b| - 1];
      assert (a + b)[..|a + b| - 1] == a + front;
      ReverseAppend(a, front);
    }
  }

  /** After a connection's lines, each stack holds the new items of its
      priority in front of the old ones, the last line's item on top. */
  lemma LaterLinesInFront(history: seq<NewsItem>, lines: seq<string>, p: int)
    ensures Bucket(Store(history + Admitted(lines)), p) ==
              Reverse(WithPriority(Admitted(lines), p)) + Bucket(Store(history), p)
  {
    StoreBucket(history + Admitted(lines), p);
    StoreBucket(history, p);
    WithPriorityAppend(history, Admitted(lines), p);
    ReverseAppend(WithPriority(history, p), WithPriority(Admitted(lines), p));
  }
}
