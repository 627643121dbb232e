/** The demo feed's content generator (NewsContentGenerator): a priority
    drawn from a fixed cumulative distribution and a headline of three to
    five distinct words from a fixed vocabulary. The random draws are
    parameters: the number in [0, 1000), the word count and the shuffled
    vocabulary. */
module Generator {
  import opened JavaLang

  /** The vocabulary: six positive words and their six opposites. */
  const Words: seq<string> :=
    ["up", "down", "rise", "fall", "good", "bad", "success", "failure", "high", "low", "über", "unter"]

  /** The priority returned when the number is past every threshold. */
  const FallbackPriority: int := 9

  /** The draw lies in [0, RandomnessBound). */
  const RandomnessBound: int := 1000

  /** CumulativeThresholds[p] is the exclusive upper end of the band of
      numbers that map to priority p. */
  const CumulativeThresholds: seq<int> := [293, 486, 629, 738, 822, 887, 935, 969, 990, 1000]

  /** How many numbers of [0, 1000) each priority receives, per mille. */
  const BandSizes: seq<int> := [293, 193, 143, 109, 84, 65, 48, 34, 21, 10]

  /** The number r falls in the band of priority p: below its threshold and
      not below the previous one. */
  predicate InBand(r: int, p: int) {
    && 0 <= p < |CumulativeThresholds|
    && r < CumulativeThresholds[p]
    && (p == 0 || CumulativeThresholds[p - 1] <= r)
  }

  /** generatePriority: the first priority whose threshold exceeds the
      number, or the fallback when none does. */
  method GeneratePriority(randomNumber: int) returns (priority: int)
    ensures 0 <= priority <= FallbackPriority
    ensures randomNumber < RandomnessBound ==> InBand(randomNumber, priority)
    ensures randomNumber >= RandomnessBound ==> priority == FallbackPriority
  {
    for p := 0 to |CumulativeThresholds|
      invariant p == 0 || CumulativeThresholds[p - 1] <= randomNumber
    {
      if randomNumber < CumulativeThresholds[p] {
        return p;
      }
    }
    return FallbackPriority;
  }

  /** The thresholds strictly increase and end at the bound, so the bands
      cover [0, 1000) without overlap and the fallback is never needed. */
  lemma ThresholdsIncrease()
    ensures forall i, j :: 0 <= i < j < |CumulativeThresholds| ==>
              CumulativeThresholds[i] < CumulativeThresholds[j]
    ensures CumulativeThresholds[|CumulativeThresholds| - 1] == RandomnessBound
  {
    forall i, j | 0 <= i < j < |CumulativeThresholds|
      ensures CumulativeThresholds[i] < CumulativeThresholds[j]
    {
      StepsIncrease(i, j);
    }
  }

  lemma {:induction false} StepsIncrease(i: nat, j: nat)
    requires i < j < |CumulativeThresholds|
    ensures CumulativeThresholds[i] < CumulativeThresholds[j]
    decreases j - i
  {
    assert CumulativeThresholds[j - 1] < CumulativeThresholds[j];
    if i < j - 1 {
      StepsIncrease(i, j - 1);
    }
  }

  /** Every number of [0, 1000) falls in exactly one band. */
  lemma BandExists(r: int) returns (p: int)
    requires 0 <= r < RandomnessBound
    ensures InBand(r, p)
  {
    p := 0;
    while r >= CumulativeThresholds[p]
      invariant 0 <= p < |CumulativeThresholds|
      invariant p == 0 || CumulativeThresholds[p - 1] <= r
      decreases |CumulativeThresholds| - p
    {
      p := p + 1;
    }
  }

  lemma BandUnique(r: int, p: int, q: int)
    requires InBand(r, p) && InBand(r, q)
    ensures p == q
  {
    ThresholdsIncrease();
  }

  /** A larger number never gets a smaller priority. */
  lemma BandMonotone(r1: int, r2: int, p1: int, p2: int)
    requires r1 <= r2 && InBand(r1, p1) && InBand(r2, p2)
    ensures p1 <= p2
  {
    ThresholdsIncrease();
  }

  /** The numbers of [0, 1000) that map to priority p. */
  function Band(p: int): set<int>
    requires 0 <= p < |CumulativeThresholds|
  {
    set r | 0 <= r < RandomnessBound && InBand(r, p)
  }

  /** The integers of [lo, hi). */
  function Range(lo: int, hi: int): (s: set<int>)
    requires lo <= hi
    ensures |s| == hi - lo
    ensures forall r :: r in s <==> lo <= r < hi
    decreases hi - lo
  {
    if lo == hi then {}
    else
      var rest := Range(lo, hi - 1);
      assert hi - 1 !in rest;
      rest + {hi - 1}
  }

  /** Priority p receives exactly BandSizes[p] of the thousand numbers: the
      distribution 29.3%, 19.3%, 14.3%, 10.9%, 8.4%, 6.5%, 4.8%, 3.4%, 2.1%,
      1.0%. */
  lemma BandCount(p: int)
    requires 0 <= p < |CumulativeThresholds|
    ensures |Band(p)| == BandSizes[p]
  {
    var lo := Lower(p);
    BandIsRange(p);
    var range := Range(lo, CumulativeThresholds[p]);
    SizesAreGaps(p);
  }

  /** The first number of the band of priority p. */
  function Lower(p: int): int
    requires 0 <= p < |CumulativeThresholds|
  {
    if p == 0 then 0 else CumulativeThresholds[p - 1]
  }

  /** Each band is the interval between consecutive thresholds. */
  lemma BandIsRange(p: int)
    requires 0 <= p < |CumulativeThresholds|
    ensures Lower(p) < CumulativeThresholds[p]
    ensures Band(p) == Range(Lower(p), CumulativeThresholds[p])
  {
    var lo, hi := Lower(p), CumulativeThresholds[p];
    BandWithinBound(p);
    var range := Range(lo, hi);
    forall r
      ensures r in Band(p) <==> r in range
    {
    }
  }

  /** The band of priority p is a non-empty interval inside [0, 1000). */
  lemma BandWithinBound(p: int)
    requires 0 <= p < |CumulativeThresholds|
    ensures 0 <= Lower(p) < CumulativeThresholds[p] <= RandomnessBound
  {
    ThresholdsIncrease();
    if p > 0 {
      assert CumulativeThresholds[0] <= CumulativeThresholds[p - 1];
    }
    if p < |CumulativeThresholds| - 1 {
      assert CumulativeThresholds[p] < CumulativeThresholds[|CumulativeThresholds| - 1];
    }
  }

  /** Each band size is the gap between consecutive thresholds. */
  lemma SizesAreGaps(p: int)
    requires 0 <= p < |CumulativeThresholds|
    ensures BandSizes[p] == CumulativeThresholds[p] - Lower(p)
  {
  }

  // --------------------------------------------------------------- headline

  /** No word occurs twice in words. */
  ghost predicate Distinct(words: seq<string>) {
    forall i, j :: 0 <= i < j < |words| ==> words[i] != words[j]
  }

  /** Every word is non-empty and holds no whitespace. */
  ghost predicate SpaceFree(words: seq<string>) {
    forall i :: 0 <= i < |words| ==> words[i] != [] && Avoids(words[i], RegexSpace)
  }

  /** generateHeadline, given the drawn word count k in [3, 5] and the
      shuffled vocabulary: the first k words joined by single spaces, so
      that cutting the headline at every space gives exactly those words. */
  function GenerateHeadline(k: int, shuffled: seq<string>): (headline: string)
    requires 3 <= k <= 5 && multiset(shuffled) == multiset(Words)
    ensures k <= |shuffled| && SplitAll(headline, {' '}) == shuffled[..k]
  {
    Vocabulary();
    JoinedPrefix(k, shuffled, Words);
    Join(shuffled[..k], ' ')
  }

  /** The first k words of a shuffle of a vocabulary without whitespace,
      joined by single spaces, cut at every space into those words again. */
  lemma JoinedPrefix(k: int, shuffled: seq<string>, vocabulary: seq<string>)
    requires 1 <= k <= |vocabulary| && multiset(shuffled) == multiset(vocabulary) && SpaceFree(vocabulary)
    ensures k <= |shuffled| && SplitAll(Join(shuffled[..k], ' '), {' '}) == shuffled[..k]
  {
    assert |shuffled| == |multiset(shuffled)| == |vocabulary|;
    forall i | 0 <= i < k
      ensures Avoids(shuffled[..k][i], {' '})
    {
      assert shuffled[i] in multiset(vocabulary);
      var j :| 0 <= j < |vocabulary| && vocabulary[j] == shuffled[i];
    }
  }

  /** The vocabulary has twelve distinct words, none empty and none holding
      whitespace. */
  lemma Vocabulary()
    ensures |Words| == 12 && Distinct(Words) && SpaceFree(Words)
  {
    forall i | 0 <= i < |Words|
      ensures Words[i] != [] && Avoids(Words[i], RegexSpace)
    {
      Lettered(Words[i]);
    }
  }

  /** A word made of letters holds no whitespace. */
  lemma Lettered(w: string)
    requires forall i :: 0 <= i < |w| ==> 'a' <= w[i] <= 'z' || w[i] == 'ü'
    ensures Avoids(w, RegexSpace)
  {
  }

  lemma {:induction false} CountDistinct(words: seq<string>)
    requires Distinct(words)
    ensures forall w :: multiset(words)[w] <= 1
  {
    if words != [] {
      var front := words[..|words| - 1];
      var last := words[|words| - 1];
      CountDistinct(front);
      assert words == front + [last];
      assert last !in front;
    }
  }

  lemma CountDuplicate(words: seq<string>, i: nat, j: nat)
    requires i < j < |words| && words[i] == words[j]
    ensures multiset(words)[words[i]] >= 2
  {
    var w := words[i];
    assert words == words[..j] + [words[j]] + words[j + 1..];
    assert w in words[..j];
  }

  /** A shuffle of a list of distinct words has distinct words. */
  lemma DistinctOfShuffle(shuffled: seq<string>, words: seq<string>)
    requires multiset(shuffled) == multiset(words) && Distinct(words)
    ensures Distinct(shuffled)
  {
    CountDistinct(words);
    forall i, j | 0 <= i < j < |shuffled|
      ensures shuffled[i] != shuffled[j]
    {
      if shuffled[i] == shuffled[j] {
        CountDuplicate(shuffled, i, j);
        assert false;
      }
    }
  }

  /** A shuffle of a vocabulary of distinct words without whitespace has the
      same words, again distinct and without whitespace. */
  lemma ShuffledVocabulary(shuffled: seq<string>, vocabulary: seq<string>)
    requires multiset(shuffled) == multiset(vocabulary)
    requires Distinct(vocabulary) && SpaceFree(vocabulary)
    ensures |shuffled| == |vocabulary| && Distinct(shuffled) && SpaceFree(shuffled)
    ensures forall i :: 0 <= i < |shuffled| ==> shuffled[i] in vocabulary
  {
    assert |shuffled| == |multiset(shuffled)| == |vocabulary|;
    DistinctOfShuffle(shuffled, vocabulary);
    forall i | 0 <= i < |shuffled|
      ensures shuffled[i] in vocabulary && shuffled[i] != [] && Avoids(shuffled[i], RegexSpace)
    {
      assert shuffled[i] in multiset(vocabulary);
      var j :| 0 <= j < |vocabulary| && vocabulary[j] == shuffled[i];
    }
  }

  /** The first k words of such a shuffle, joined by single spaces, split
      back into those words. */
  lemma PrefixWords(k: int, shuffled: seq<string>, vocabulary: seq<string>)
    requires 1 <= k <= |vocabulary| && multiset(shuffled) == multiset(vocabulary)
    requires Distinct(vocabulary) && SpaceFree(vocabulary)
    ensures |shuffled| == |vocabulary|
    ensures SplitWhitespace(Join(shuffled[..k], ' ')) == shuffled[..k]
    ensures forall i :: 0 <= i < k ==> shuffled[i] in vocabulary
    ensures Distinct(shuffled[..k])
  {
    ShuffledVocabulary(shuffled, vocabulary);
    WordsOfJoin(shuffled[..k]);
  }

  /** A generated headline splits at whitespace back into the k words it was
      built from, in order. */
  lemma HeadlineWords(k: int, shuffled: seq<string>)
    requires 3 <= k <= 5 && multiset(shuffled) == multiset(Words)
    ensures k <= |shuffled| && SplitWhitespace(GenerateHeadline(k, shuffled)) == shuffled[..k]
  {
    Vocabulary();
    PrefixWords(k, shuffled, Words);
  }

  /** The words of a generated headline are distinct vocabulary words. */
  lemma HeadlineVocabulary(k: int, shuffled: seq<string>)
    requires 3 <= k <= 5 && multiset(shuffled) == multiset(Words)
    ensures k <= |shuffled|
    ensures forall i :: 0 <= i < k ==> shuffled[i] in Words
    ensures Distinct(shuffled[..k])
  {
    Vocabulary();
    PrefixWords(k, shuffled, Words);
  }
}
