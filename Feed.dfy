/** The demo feed end to end: what the server makes of a line the mock
    client generates and encodes. */
module Feed {
  import opened Wrappers
  import opened JavaLang
  import opened News
  import opened Codec
  import opened Sentiment
  import Generator
  import opened Ingestion

  /** Each vocabulary word is non-empty, trimmed and free of the separator. */
  ghost predicate WireSafe(words: seq<string>) {
    forall i :: 0 <= i < |words| ==> words[i] != [] && IsTrimmed(words[i]) && Separator !in words[i]
  }

  lemma VocabularyWireSafe()
    ensures WireSafe(Generator.Words)
  {
  }

  /** Shuffling and taking a prefix keeps every word wire-safe. */
  lemma ShuffledWireSafe(k: nat, shuffled: seq<string>, vocabulary: seq<string>)
    requires k <= |shuffled| && multiset(shuffled) == multiset(vocabulary) && WireSafe(vocabulary)
    ensures WireSafe(shuffled[..k])
  {
    forall i | 0 <= i < k
      ensures shuffled[i] != [] && IsTrimmed(shuffled[i]) && Separator !in shuffled[i]
    {
      assert shuffled[i] in multiset(vocabulary);
      var j :| 0 <= j < |vocabulary| && vocabulary[j] == shuffled[i];
    }
  }

  /** A generated headline is trimmed, non-empty and free of the separator. */
  lemma GeneratedHeadlineSafe(k: int, shuffled: seq<string>)
    requires 3 <= k <= 5 && multiset(shuffled) == multiset(Generator.Words)
    ensures Generator.GenerateHeadline(k, shuffled) != []
    ensures IsTrimmed(Generator.GenerateHeadline(k, shuffled))
    ensures Separator !in Generator.GenerateHeadline(k, shuffled)
  {
    assert |shuffled| == |multiset(shuffled)| == |Generator.Words|;
    VocabularyWireSafe();
    ShuffledWireSafe(k, shuffled, Generator.Words);
    JoinTrimmed(shuffled[..k], ' ');
    JoinAvoids(shuffled[..k], ' ', Separator);
  }

  /** A generated item with a priority in [0, 9] reaches the server intact:
      decoding its encoded line gives the item back. */
  lemma GeneratedItemRoundTrip(k: int, shuffled: seq<string>, priority: Int32)
    requires 3 <= k <= 5 && multiset(shuffled) == multiset(Generator.Words)
    requires MinPriority <= priority <= MaxPriority
    ensures var item := NewsItem(Generator.GenerateHeadline(k, shuffled), priority);
            && ToString(Some(item)).Success?
            && FromString(Some(ToString(Some(item)).value)) == Success(item)
  {
    GeneratedHeadlineSafe(k, shuffled);
    RoundTrip(NewsItem(Generator.GenerateHeadline(k, shuffled), priority));
  }

  /** The server stores a generated item exactly when at least half of its
      words are positive words. */
  lemma GeneratedLineStored(k: int, shuffled: seq<string>, priority: Int32)
    requires 3 <= k <= 5 && multiset(shuffled) == multiset(Generator.Words)
    requires MinPriority <= priority <= MaxPriority
    ensures var item := NewsItem(Generator.GenerateHeadline(k, shuffled), priority);
            && ToString(Some(item)).Success?
            && Admit(ToString(Some(item)).value) ==
                 if 2 * PositiveCount(shuffled[..k]) >= k then Some(item) else None
  {
    var headline := Generator.GenerateHeadline(k, shuffled);
    GeneratedItemRoundTrip(k, shuffled, priority);
    GeneratedHeadlineSafe(k, shuffled);
    Generator.HeadlineWords(k, shuffled);
    MajorityRule(headline);
  }
}
