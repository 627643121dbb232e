/** The headline sentiment rule of the server (NewsHeadlineUtil): a headline
    is positive when at least half of its whitespace-separated words are
    positive words. */
module Sentiment {
  import opened Wrappers
  import opened JavaLang

  /** The fixed vocabulary of positive words; membership is exact and
      case-sensitive. */
  const PositiveWords: set<string> := {"up", "rise", "good", "success", "high", "über"}

  /** The percentage threshold a headline must reach. */
  const ThresholdPercent: int := 50

  /** The largest word count for which count * 100 cannot overflow an int. */
  const MaxExactWords: int := MaxInt32 / 100

  /** How many of words are positive words, duplicates counted each time. */
  function PositiveCount(words: seq<string>): (n: nat)
    ensures n <= |words|
  {
    if words == [] then 0
    else
      PositiveCount(words[..|words| - 1]) + (if words[|words| - 1] in PositiveWords then 1 else 0)
  }

  /** Only positive words count all of them; no positive word counts none. */
  lemma {:induction false} CountExtremes(words: seq<string>)
    ensures (forall k :: 0 <= k < |words| ==> words[k] in PositiveWords) ==> PositiveCount(words) == |words|
    ensures (forall k :: 0 <= k < |words| ==> words[k] !in PositiveWords) ==> PositiveCount(words) == 0
  {
    if words != [] {
      CountExtremes(words[..|words| - 1]);
    }
  }

  /** Counting one more word adds one exactly when it is a positive word. */
  lemma CountStep(words: seq<string>, i: nat)
    requires i < |words|
    ensures PositiveCount(words[..i + 1]) ==
              PositiveCount(words[..i]) + (if words[i] in PositiveWords then 1 else 0)
  {
    assert words[..i + 1][..i] == words[..i];
  }

  /** The words isPositive looks at: the headline split on runs of whitespace. */
  function Words(headline: string): seq<string> {
    SplitWhitespace(headline)
  }

  /** isPositive as Java evaluates it: false for a missing or blank headline;
      otherwise the int percentage positiveCount * 100 / wordCount, with
      int overflow and truncating division, compared with 50. A positive
      headline has at least one positive word. */
  predicate Positive(headline: Option<string>)
    ensures Positive(headline) ==> headline.Some? && PositiveCount(Words(headline.value)) >= 1
  {
    && headline.Some?
    && !IsBlank(headline.value)
    && var words := Words(headline.value);
    && 0 < |words| <= MaxInt32
    && DivInt32(MulInt32(PositiveCount(words), 100), |words|) >= ThresholdPercent
  }

  /** NewsHeadlineUtil.isPositive: counts the positive words in one pass. */
  method IsPositive(headline: Option<string>) returns (positive: bool)
    ensures positive == Positive(headline)
  {
    if headline.None? || Trim(headline.value) == [] {
      return false;
    }
    var words := Words(headline.value);
    WordsOfNonBlank(headline.value);
    if |words| > MaxInt32 {
      // a Java array cannot hold this many words
      return false;
    }
    var count := 0;
    for i := 0 to |words|
      invariant count == PositiveCount(words[..i])
    {
      CountStep(words, i);
      if words[i] in PositiveWords {
        count := count + 1;
      }
    }
    assert words[..|words|] == words;
    positive := DivInt32(MulInt32(count, 100), |words|) >= ThresholdPercent;
  }

  /** For c of n words, with n small enough that c * 100 stays an int, the
      truncated percentage reaches 50 exactly when 2 * c >= n: the rounding
      never matters, and exactly half counts as positive. */
  lemma PercentThreshold(c: nat, n: nat)
    requires 0 < n <= MaxExactWords && c <= n
    ensures DivInt32(MulInt32(c, 100), n) >= ThresholdPercent <==> 2 * c >= n
  {
    var x := c * 100;
    assert x <= MaxInt32;
    MulInt32Exact(c, 100);
    var q := DivInt32(x, n);
    DivInt32Truncates(x, n);
    assert q * n <= x < q * n + n;
    if q >= 50 {
      MulMonotone(50, q, n);
    } else {
      MulMonotone(q + 1, 50, n);
      assert (q + 1) * n == q * n + n;
    }
  }

  lemma MulMonotone(a: int, b: int, n: nat)
    requires a <= b
    ensures a * n <= b * n
  {
    assert b * n - a * n == (b - a) * n;
  }

  /** The majority rule: a non-blank headline of at most MaxExactWords words
      is positive if and only if at least half of its words are positive. */
  lemma MajorityRule(headline: string)
    requires !IsBlank(headline) && |Words(headline)| <= MaxExactWords
    ensures Positive(Some(headline)) <==>
              2 * PositiveCount(Words(headline)) >= |Words(headline)|
  {
    WordsOfNonBlank(headline);
    PercentThreshold(PositiveCount(Words(headline)), |Words(headline)|);
  }

  /** A headline of positive words only is positive. */
  lemma AllPositiveWords(headline: string)
    requires !IsBlank(headline) && |Words(headline)| <= MaxExactWords
    requires forall k :: 0 <= k < |Words(headline)| ==> Words(headline)[k] in PositiveWords
    ensures Positive(Some(headline))
  {
    CountExtremes(Words(headline));
    MajorityRule(headline);
  }

  /** A headline without a positive word is not positive, whatever its length. */
  lemma NoPositiveWords(headline: string)
    requires forall k :: 0 <= k < |Words(headline)| ==> Words(headline)[k] !in PositiveWords
    ensures !Positive(Some(headline))
  {
    CountExtremes(Words(headline));
    if !IsBlank(headline) && 0 < |Words(headline)| <= MaxInt32 {
      MulInt32Exact(0, 100);
      DivInt32Truncates(0, |Words(headline)|);
    }
  }

  /** Missing and blank headlines are never positive. */
  lemma BlankNotPositive(headline: Option<string>)
    requires headline.None? || IsBlank(headline.value)
    ensures !Positive(headline)
  {
  }

  /** Where the int product overflows, the rule breaks: n copies of "up",
      with n = MaxExactWords + 1, are all positive, yet count * 100 wraps to a
      negative int and the headline is classified as not positive. */
  lemma OverflowMisclassifies(words: seq<string>)
    requires |words| == MaxExactWords + 1
    requires forall k :: 0 <= k < |words| ==> words[k] == "up"
    ensures PositiveCount(words) == |words|
    ensures !Positive(Some(Join(words, ' ')))
  {
    assert forall k :: 0 <= k < |words| ==> words[k] != "" && Avoids(words[k], RegexSpace);
    WordsOfJoin(words);
    CountExtremes(words);
    OverflowedPercent();
  }

  /** The percentage Java computes for MaxExactWords + 1 positive words out
      of as many: the product wraps to a negative int. */
  lemma OverflowedPercent()
    ensures DivInt32(MulInt32(MaxExactWords + 1, 100), MaxExactWords + 1) < ThresholdPercent
  {
    var n := MaxExactWords + 1;
    assert n == 21474837;
    assert Wrap32(n * 100) == -2147483596;
    DivInt32Truncates(-2147483596, n);
  }
}
