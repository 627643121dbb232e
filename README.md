# News analyzer: a verified model of the feed pipeline

The news analyzer is a small client/server system. A mock feed client
generates news items, each a headline and a priority. It encodes each item as
one text line `headline;priority` and sends the lines to the server. The
server handles each connection with a `ClientHandler`, which:

- decodes every line;
- keeps the item only when its headline is "positive" (at least half of its
  words are one of six positive words);
- pushes a kept item onto a per-priority stack in a shared `NewsItemStorage`.

Periodically, `NewsSummaryReporter.report` drains the store, counts the items
and picks up to three headlines with distinct word sets. It visits them in
descending priority, newest first within one priority.

This project models that pipeline in Dafny and proves what its code
promises. The modules follow the program:

| module | models |
|---|---|
| `Wrappers` | `Option` (Java's `null`) and `Result` (a value or the thrown `IllegalArgumentException`) |
| `JavaLang` | the exact Java library behaviour the pipeline relies on: `String.trim`, `String.split(";")` (trailing empty fields dropped), `String.split("\\s+")` (a leading empty word kept), `String.join`, `Integer.parseInt`, `Integer.toString`, 32-bit `int` wrap-around and truncating division |
| `News` | the `NewsItem(headline, priority)` value and the `;` separator |
| `Codec` | `NewsItemMapper.toString` / `fromString` |
| `Sentiment` | `NewsHeadlineUtil.isPositive`: a counting loop proved against a count function |
| `Storage` | `NewsItemStorage` as a class over a map of stacks, with a ghost history of every added item |
| `Reporter` | `report` (the labelled nested loop with its early break) and `buildHeadlineSignature` |
| `Ingestion` | `ClientHandler.processNewsItem` and the line loop of `run` |
| `Generator` | `NewsContentGenerator.generatePriority` and `generateHeadline` |
| `Feed` | end-to-end facts: what the server makes of a line the client generates |

The draws of `ThreadLocalRandom` are parameters:

- the number in [0, 1000) for `generatePriority`;
- the word count `k` and the shuffled word list for `generateHeadline`.

A socket connection becomes the sequence of lines read from it.

The priority type is Java's `int`, written `Int32`. Arithmetic that can
overflow in Java is modelled with explicit wrap-around. `isPositive`'s
`positiveWordsCount * 100 / words.length` can overflow that way, and the
model keeps the overflow.

Where the code and its documentation disagree, the model follows the code:

- The Javadoc of `isPositive` says "more than 50%". The code compares the
  truncated percentage with `>= 50`, so a headline with exactly half positive
  words is positive. `Sentiment.MajorityRule` states the rule the code
  implements.
- `fromString` accepts lines followed by extra separators, such as
  `"a;5;;"`, because Java's `split` drops trailing empty fields. It rejects
  `"a;"`.

## Model

| member | source | states |
|---|---|---|
| JavaLang.Trim | common/src/main/java/com/github/nadeemabukhadir/news_analyzer/common/mapper/NewsItemMapper.java:50-56 | `trim` cuts off exactly the leading blank characters (those up to U+0020) and a blank run at the end: the result is the part of the input after its leading blanks, followed in the input only by blanks, and it neither starts nor ends with a blank. It is empty exactly when the input is blank, and it leaves a trimmed string unchanged. |
| JavaLang.Split | common/src/main/java/com/github/nadeemabukhadir/news_analyzer/common/mapper/NewsItemMapper.java:44 | `split(";")`: no field holds the separator. A string without the separator is the only field. Otherwise the fields are the pieces between separators with the trailing empty ones dropped, so the last field is non-empty. |
| JavaLang.SplitWhitespace | server/src/main/java/de/tick/ts/server/util/NewsHeadlineUtil.java:34 | `split("\\s+")`: no word holds whitespace and only the first word can be empty. A string without whitespace is the only word. Otherwise the last word is non-empty, because trailing empty words are dropped. The first word is empty exactly when the string is empty, or starts with whitespace without being all whitespace. |
| JavaLang.SplitWhitespaceWords | server/src/main/java/de/tick/ts/server/util/NewsHeadlineUtil.java:34 | `split("\\s+")` of a string that holds whitespace is the leading empty word (present exactly when the string starts with whitespace and is not all whitespace) followed by the non-empty pieces between single whitespace characters, in order. |
| JavaLang.Join | mock-news-feed-client/src/main/java/de/tick/ts/mocknewsfeed/generator/NewsContentGenerator.java:49 | `String.join`: cutting the result at every separator gives the parts back, when no part holds the separator. |
| JavaLang.TwoFieldsSplit | common/src/main/java/com/github/nadeemabukhadir/news_analyzer/common/mapper/NewsItemMapper.java:44-45 | `a;b` followed by any number of separators splits into exactly `[a, b]` when `b` is non-empty and neither field holds the separator. |
| JavaLang.TwoFieldsShape | common/src/main/java/com/github/nadeemabukhadir/news_analyzer/common/mapper/NewsItemMapper.java:44-45 | Conversely, any string that splits into two fields has that shape. |
| JavaLang.ParseIntToString | common/src/main/java/com/github/nadeemabukhadir/news_analyzer/common/mapper/NewsItemMapper.java:27-50 | `Integer.parseInt` reads back what `Integer.toString` writes, for every int, negative ones included. |
| JavaLang.ParseInt | common/src/main/java/com/github/nadeemabukhadir/news_analyzer/common/mapper/NewsItemMapper.java:50 | `Integer.parseInt` accepts a string exactly when it is an optional `+` or `-` followed by one or more digits (leading zeros allowed) whose signed decimal value lies in the int range, and then returns that signed value; so it rejects out-of-range values, gives a negative value only after `-`, and reads a plain digit string as its decimal value. |
| JavaLang.IntToString | common/src/main/java/com/github/nadeemabukhadir/news_analyzer/common/mapper/NewsItemMapper.java:27 | `Integer.toString` writes the canonical decimal form: a `-` exactly when the value is negative, then the digits of its absolute value with no leading zero unless the value is 0. |
| JavaLang.WordsOfJoin | mock-news-feed-client/src/main/java/de/tick/ts/mocknewsfeed/generator/NewsContentGenerator.java:49 | Splitting at whitespace gives back the words that `String.join(" ", …)` joined, when they are non-empty and hold no whitespace. |
| JavaLang.WordsOfNonBlank | server/src/main/java/de/tick/ts/server/util/NewsHeadlineUtil.java:30-34 | A headline that is not blank splits into at least one word, so the division at line 43 is safe. |
| JavaLang.MulInt32Exact | server/src/main/java/de/tick/ts/server/util/NewsHeadlineUtil.java:43 | An int product that fits in 32 bits is the mathematical product. |
| JavaLang.DivInt32Truncates | server/src/main/java/de/tick/ts/server/util/NewsHeadlineUtil.java:43 | Java's `/` on a positive divisor rounds toward zero, for negative dividends too. |
| JavaLang.Wrap32Keeps | server/src/main/java/de/tick/ts/server/util/NewsHeadlineUtil.java:43 | The wrapped int differs from the true value by a multiple of 2^32 and equals it when it is in range. |
| Codec.ToString | common/src/main/java/com/github/nadeemabukhadir/news_analyzer/common/mapper/NewsItemMapper.java:21-28 | A null item fails with "NewsItem cannot be null". Any other item encodes as its headline, `;`, and `Integer.toString` of its priority, which `parseInt` reads back as the priority. |
| Codec.FromString | common/src/main/java/com/github/nadeemabukhadir/news_analyzer/common/mapper/NewsItemMapper.java:38-61 | A null line, or one without `;`, is an invalid format ("Invalid message format"). A decoded item has a priority in [0, 9] and a trimmed headline free of `;`. The null-item error never occurs. |
| Codec.DecodeTwoFields | common/src/main/java/com/github/nadeemabukhadir/news_analyzer/common/mapper/NewsItemMapper.java:44-56 | For a two-field line, decoding is exactly: parse the trimmed second field (else "invalid priority"), check [0, 9] (else "out of range"), trim the headline. |
| Codec.DecodeShape | common/src/main/java/com/github/nadeemabukhadir/news_analyzer/common/mapper/NewsItemMapper.java:40-47 | Every line not rejected as malformed is a two-field line. |
| Codec.RoundTrip | common/src/main/java/com/github/nadeemabukhadir/news_analyzer/common/mapper/NewsItemMapper.java:27-56 | Decoding an encoded item with a trimmed, `;`-free headline gives the item back when its priority is in [0, 9], and the range error otherwise. |
| Codec.TrailingSeparatorsIgnored | common/src/main/java/com/github/nadeemabukhadir/news_analyzer/common/mapper/NewsItemMapper.java:44-47 | Separators appended to an encoded line do not change what it decodes to. |
| Codec.EmptySecondFieldRejected | common/src/main/java/com/github/nadeemabukhadir/news_analyzer/common/mapper/NewsItemMapper.java:44-47 | `a;` followed only by separators is an invalid format, because the empty field is dropped. |
| Codec.ThirdFieldRejected | common/src/main/java/com/github/nadeemabukhadir/news_analyzer/common/mapper/NewsItemMapper.java:44-47 | A line with a non-empty third field is an invalid format. |
| Codec.EncodeExample | common/src/main/java/com/github/nadeemabukhadir/news_analyzer/common/mapper/NewsItemMapper.java:27 | `("up rise success", 5)` encodes as `"up rise success;5"`. |
| Codec.DecodeExample | common/src/main/java/com/github/nadeemabukhadir/news_analyzer/common/mapper/NewsItemMapper.java:38-56 | `"up rise success;5"` decodes to `("up rise success", 5)`. |
| Codec.MissingPriorityExample | common/src/main/java/com/github/nadeemabukhadir/news_analyzer/common/mapper/NewsItemMapper.java:44-47 | `"a;"` is an invalid format. |
| Codec.ManySeparatorsExample | common/src/main/java/com/github/nadeemabukhadir/news_analyzer/common/mapper/NewsItemMapper.java:44-47 | `"up;rise;success;5"` is an invalid format. |
| Sentiment.PositiveCount | server/src/main/java/de/tick/ts/server/util/NewsHeadlineUtil.java:35-41 | The positive-word count never exceeds the number of words. |
| Sentiment.CountExtremes | server/src/main/java/de/tick/ts/server/util/NewsHeadlineUtil.java:37-41 | Only positive words give a count equal to the word count; no positive word gives 0. |
| Sentiment.Positive | server/src/main/java/de/tick/ts/server/util/NewsHeadlineUtil.java:28-44 | The verdict of `isPositive`: a positive headline is present, not blank, and has at least one positive word. |
| Sentiment.IsPositive | server/src/main/java/de/tick/ts/server/util/NewsHeadlineUtil.java:28-44 | The counting loop returns exactly the `Positive` verdict. That verdict is false for a null or blank headline; otherwise it is the truncated int percentage, overflow included, compared with 50. |
| Sentiment.PercentThreshold | server/src/main/java/de/tick/ts/server/util/NewsHeadlineUtil.java:43 | Without overflow, `c * 100 / n >= 50` holds exactly when `2c >= n`: truncation never changes the verdict. |
| Sentiment.MajorityRule | server/src/main/java/de/tick/ts/server/util/NewsHeadlineUtil.java:43 | A non-blank headline of at most 21474836 words is positive if and only if at least half of its words are positive words; exactly half counts. |
| Sentiment.AllPositiveWords | server/src/main/java/de/tick/ts/server/util/NewsHeadlineUtil.java:11-16 | A non-blank headline of at most 21474836 words, all of them positive words, is positive. |
| Sentiment.NoPositiveWords | server/src/main/java/de/tick/ts/server/util/NewsHeadlineUtil.java:37-43 | A headline without a positive word is never positive, at any length. |
| Sentiment.BlankNotPositive | server/src/main/java/de/tick/ts/server/util/NewsHeadlineUtil.java:30-32 | Null and blank headlines are not positive. |
| Sentiment.OverflowMisclassifies | server/src/main/java/de/tick/ts/server/util/NewsHeadlineUtil.java:43 | Past 21474836 words the product wraps: that many plus one copies of "up" is all positive, yet classified as not positive. |
| Sentiment.OverflowedPercent | server/src/main/java/de/tick/ts/server/util/NewsHeadlineUtil.java:43 | For 21474837 words of 21474837, the int percentage is below 50. |
| Storage.Push | server/src/main/java/de/tick/ts/server/storage/NewsItemStorage.java:36-37 | `computeIfAbsent(...).push(item)` puts the item on top of its priority's stack, creating the stack if it is missing. Every other stack is unchanged. |
| Storage.MaxKey | server/src/main/java/de/tick/ts/server/storage/NewsItemStorage.java:22 | The first key of the reverse-ordered map is the largest key. |
| Storage.WalkUnfold | server/src/main/java/de/tick/ts/server/storage/NewsItemStorage.java:22 | Iteration starts with the stack of the largest priority and continues with the rest. |
| Storage.NewsItemStorage.constructor | server/src/main/java/de/tick/ts/server/storage/NewsItemStorage.java:18-24 | A new store is empty. |
| Storage.NewsItemStorage.Add | server/src/main/java/de/tick/ts/server/storage/NewsItemStorage.java:29-38 | `add(null)` changes nothing. `add(item)` records the item and pushes it on top of its priority's stack, with no range check on the priority. The store stays equal to the store built from its history. |
| Storage.NewsItemStorage.ResetAndGetAll | server/src/main/java/de/tick/ts/server/storage/NewsItemStorage.java:44-50 | Returns the whole previous map, which is the store built from every item added since the last reset, and leaves the store empty. A second call returns the empty map. |
| Storage.StoreBucket | server/src/main/java/de/tick/ts/server/storage/NewsItemStorage.java:35-37 | A priority's stack is the items of that priority in reverse insertion order (newest first). A stack exists exactly when such an item was added. |
| Storage.StoreKeyed | server/src/main/java/de/tick/ts/server/storage/NewsItemStorage.java:36-37 | Every stack in the store is non-empty and holds only items of its own priority. |
| Storage.WalkDescending | server/src/main/java/de/tick/ts/server/storage/NewsItemStorage.java:22 | Iterating the snapshot visits items in non-increasing priority. |
| Storage.WalkBucket | server/src/main/java/de/tick/ts/server/storage/NewsItemStorage.java:22 | Restricted to one priority, the iteration is exactly that priority's stack. |
| Storage.WalkRemove | server/src/main/java/de/tick/ts/server/storage/NewsItemStorage.java:22 | Removing one stack removes exactly its items from the iteration. |
| Storage.WalkPush | server/src/main/java/de/tick/ts/server/storage/NewsItemStorage.java:36-37 | A push adds exactly the pushed item to the iteration. |
| Storage.WalkStore | server/src/main/java/de/tick/ts/server/storage/NewsItemStorage.java:35-49 | The snapshot holds every added item exactly once (as a multiset). |
| Storage.SnapshotOrder | server/src/main/java/de/tick/ts/server/storage/NewsItemStorage.java:22-49 | The snapshot's iteration holds every added item exactly once, in descending priority, and newest first within one priority. |
| Reporter.TotalNewsCount | server/src/main/java/de/tick/ts/server/task/NewsSummaryReporter.java:54 | The sum of the stack sizes is the length of the snapshot's iteration. |
| Reporter.TopUniqueHeadlines | server/src/main/java/de/tick/ts/server/task/NewsSummaryReporter.java:55-73 | The labelled nested loop, with its early `break outerLoop`, yields exactly `TopUnique` of the iteration: the first three items of distinct signature. |
| Reporter.SelectFromStack | server/src/main/java/de/tick/ts/server/task/NewsSummaryReporter.java:61-72 | The inner loop over one stack continues the selection. When it stops inside the stack, three headlines are kept. |
| Reporter.SelectItem | server/src/main/java/de/tick/ts/server/task/NewsSummaryReporter.java:67-71 | `seen.add(signature)` keeps the item exactly when its signature is new, which continues the selection. |
| Reporter.Report | server/src/main/java/de/tick/ts/server/task/NewsSummaryReporter.java:50-82 | Drains the store once and leaves it empty. The total is the number of items added since the previous report. The listed headlines are `TopUnique` of the snapshot's iteration; an empty store gives total 0 and an empty list. |
| Reporter.Signature | server/src/main/java/de/tick/ts/server/task/NewsSummaryReporter.java:88-92 | `buildHeadlineSignature` holds exactly the whitespace-separated words of the headline. |
| Reporter.TopOfPrefix | server/src/main/java/de/tick/ts/server/task/NewsSummaryReporter.java:63-65 | Stopping once three headlines are kept gives the same list as reading everything. |
| Reporter.FirstOfEachSnoc | server/src/main/java/de/tick/ts/server/task/NewsSummaryReporter.java:69-71 | One more item is kept exactly when its key has not occurred before. |
| Reporter.TopPrefix | server/src/main/java/de/tick/ts/server/task/NewsSummaryReporter.java:23-65 | At most three headlines are listed, and they are the first ones of the selection. |
| Reporter.TopMembers | server/src/main/java/de/tick/ts/server/task/NewsSummaryReporter.java:70 | Every listed headline is an item of the snapshot. |
| Reporter.TopAreFirst | server/src/main/java/de/tick/ts/server/task/NewsSummaryReporter.java:67-71 | Every listed item is the first item in iteration order with its signature. |
| Reporter.TopDistinct | server/src/main/java/de/tick/ts/server/task/NewsSummaryReporter.java:55-71 | No two listed headlines have the same signature. |
| Reporter.TopDescending | server/src/main/java/de/tick/ts/server/task/NewsSummaryReporter.java:58-72 | For an iteration in descending priority, the listed headlines appear in descending priority. |
| Reporter.TopOrder | server/src/main/java/de/tick/ts/server/task/NewsSummaryReporter.java:58-72 | The listed headlines are taken in iteration order: their positions in the iteration strictly increase, so within one priority they stay newest first. They are the FIRST distinct signatures: an item whose signature is not listed comes after the third listed headline. |
| Reporter.ListedOrLater | server/src/main/java/de/tick/ts/server/task/NewsSummaryReporter.java:63-71 | Every item of the iteration has its signature listed, or three headlines are listed and the item comes after the first occurrence of the third one. |
| Reporter.TopCovers | server/src/main/java/de/tick/ts/server/task/NewsSummaryReporter.java:63-70 | When fewer than three are listed, every item's signature is the signature of some listed headline. |
| Reporter.ReportedHeadlines | server/src/main/java/de/tick/ts/server/task/NewsSummaryReporter.java:50-73 | For any history of adds, a report lists at most three of the added items, with distinct signatures and in descending priority. Their positions in the snapshot's iteration strictly increase, and every item whose signature is not listed comes after the third listed one. If it lists fewer than three, every added item's signature is among them. |
| Reporter.KeptAreFirst | server/src/main/java/de/tick/ts/server/task/NewsSummaryReporter.java:69-70 | Every kept entry comes from a position whose key does not occur earlier. |
| Reporter.FirstsAreKept | server/src/main/java/de/tick/ts/server/task/NewsSummaryReporter.java:69-70 | Every entry whose key does not occur earlier is kept. |
| Reporter.FirstOfEachKeys | server/src/main/java/de/tick/ts/server/task/NewsSummaryReporter.java:55-69 | The kept keys are pairwise distinct, and each key that occurs is kept. |
| Reporter.WordSetMembers | server/src/main/java/de/tick/ts/server/task/NewsSummaryReporter.java:91 | `new HashSet<>(Arrays.asList(words))` holds exactly the words. |
| Reporter.SignatureOfWords | server/src/main/java/de/tick/ts/server/task/NewsSummaryReporter.java:88-92 | The signature of words joined by single spaces is the set of those words. |
| Reporter.SameWordsSameSignature | server/src/main/java/de/tick/ts/server/task/NewsSummaryReporter.java:84-92 | Headlines made of the same words, in any order and with any repetition, have the same signature; for example "up rise success" and "success rise up". |
| Ingestion.Admitted | server/src/main/java/com/github/nadeemabukhadir/news_analyzer/server/ClientHandler.java:41-43 | The lines of a connection add at most one item each. |
| Ingestion.ClientHandler.constructor | server/src/main/java/com/github/nadeemabukhadir/news_analyzer/server/ClientHandler.java:27-32 | A handler shares the given store and starts open. |
| Ingestion.ClientHandler.ProcessNewsItem | server/src/main/java/com/github/nadeemabukhadir/news_analyzer/server/ClientHandler.java:59-70 | A malformed line, or a well-formed line with a non-positive headline, leaves the store unchanged and raises nothing. A positive decoded item is pushed on top of its priority's stack. |
| Ingestion.ClientHandler.Run | server/src/main/java/com/github/nadeemabukhadir/news_analyzer/server/ClientHandler.java:34-51 | Processes the lines in arrival order, so the store's history grows by exactly what the lines admit, in line order. Then it closes the connection. |
| Ingestion.Admit | server/src/main/java/com/github/nadeemabukhadir/news_analyzer/server/ClientHandler.java:59-70 | `processNewsItem` stores an item exactly when the line decodes and its headline is positive. A stored item is the decoded one: its priority is in [0, 9] and its headline is trimmed, positive and free of `;`. |
| Ingestion.AdmittedAppend | server/src/main/java/com/github/nadeemabukhadir/news_analyzer/server/ClientHandler.java:41-43 | Lines are processed independently: the items of a concatenation are the items of its parts, in order. |
| Ingestion.MalformedLineSkipped | server/src/main/java/com/github/nadeemabukhadir/news_analyzer/server/ClientHandler.java:61-69 | A malformed line adds nothing, and the lines after it are still processed. |
| Ingestion.AdmittedItems | server/src/main/java/com/github/nadeemabukhadir/news_analyzer/server/ClientHandler.java:62-64 | Every item a connection stores has a priority in [0, 9] and a positive headline. |
| Ingestion.LaterLinesInFront | server/src/main/java/com/github/nadeemabukhadir/news_analyzer/server/ClientHandler.java:41-43 | After a connection's lines, each stack holds the new items of its priority, newest on top, in front of the older ones. |
| Generator.GeneratePriority | mock-news-feed-client/src/main/java/de/tick/ts/mocknewsfeed/generator/NewsContentGenerator.java:60-70 | The result is in [0, 9]. For a number below 1000 it is the priority whose band holds the number; otherwise it is the fallback 9. |
| Generator.GenerateHeadline | mock-news-feed-client/src/main/java/de/tick/ts/mocknewsfeed/generator/NewsContentGenerator.java:44-50 | The headline is the first k words of the shuffled list joined by single spaces: cut at every space, it gives exactly those k words. |
| Generator.ThresholdsIncrease | mock-news-feed-client/src/main/java/de/tick/ts/mocknewsfeed/generator/NewsContentGenerator.java:16-36 | The thresholds strictly increase and the last equals the bound 1000. So the band found is the smallest priority whose threshold exceeds the number, and the fallback is never reached for a number in range. |
| Generator.BandExists | mock-news-feed-client/src/main/java/de/tick/ts/mocknewsfeed/generator/NewsContentGenerator.java:62-69 | Every number in [0, 1000) falls in some band. |
| Generator.BandUnique | mock-news-feed-client/src/main/java/de/tick/ts/mocknewsfeed/generator/NewsContentGenerator.java:25-36 | No number falls in two bands. |
| Generator.BandMonotone | mock-news-feed-client/src/main/java/de/tick/ts/mocknewsfeed/generator/NewsContentGenerator.java:62-68 | A larger number never gets a smaller priority. |
| Generator.BandCount | mock-news-feed-client/src/main/java/de/tick/ts/mocknewsfeed/generator/NewsContentGenerator.java:22-35 | Priorities 0 to 9 receive exactly 293, 193, 143, 109, 84, 65, 48, 34, 21 and 10 of the thousand numbers. |
| Generator.Range | mock-news-feed-client/src/main/java/de/tick/ts/mocknewsfeed/generator/NewsContentGenerator.java:26-35 | The integers of [lo, hi) number hi - lo. |
| Generator.Vocabulary | mock-news-feed-client/src/main/java/de/tick/ts/mocknewsfeed/generator/NewsContentGenerator.java:13-14 | The word list has twelve distinct words; none is empty and none holds whitespace. |
| Generator.DistinctOfShuffle | mock-news-feed-client/src/main/java/de/tick/ts/mocknewsfeed/generator/NewsContentGenerator.java:48 | Shuffling a list of distinct words keeps the words distinct. |
| Generator.PrefixWords | mock-news-feed-client/src/main/java/de/tick/ts/mocknewsfeed/generator/NewsContentGenerator.java:48-49 | The first k words of a shuffle, joined by spaces, split back into those words; they come from the list and are distinct. |
| Generator.HeadlineWords | mock-news-feed-client/src/main/java/de/tick/ts/mocknewsfeed/generator/NewsContentGenerator.java:44-50 | A generated headline splits at whitespace into the k (3 to 5) words it was built from, in order. |
| Generator.HeadlineVocabulary | mock-news-feed-client/src/main/java/de/tick/ts/mocknewsfeed/generator/NewsContentGenerator.java:44-50 | The words of a generated headline are pairwise distinct words of the list. |
| Feed.ShuffledWireSafe | mock-news-feed-client/src/main/java/de/tick/ts/mocknewsfeed/generator/NewsContentGenerator.java:48-49 | Every word of a shuffled prefix is non-empty, trimmed and free of `;`. |
| Feed.GeneratedHeadlineSafe | mock-news-feed-client/src/main/java/de/tick/ts/mocknewsfeed/generator/NewsContentGenerator.java:44-50 | A generated headline is non-empty, trimmed and free of the separator. |
| Feed.GeneratedItemRoundTrip | common/src/main/java/com/github/nadeemabukhadir/news_analyzer/common/mapper/NewsItemMapper.java:21-61 | A generated item with a priority in [0, 9] is encoded, and the server decodes it back intact. |
| Feed.GeneratedLineStored | server/src/main/java/com/github/nadeemabukhadir/news_analyzer/server/ClientHandler.java:59-66 | The server stores a generated line's item exactly when at least half of the headline's words are positive. |

## Left out

- Concurrency is not modelled. The model is sequential: each operation runs
  atomically, in some order. It therefore does not cover:
  - the `AtomicReference` swap and the concurrent skip-list map and deques of
    `NewsItemStorage`;
  - the thread pool that runs one `ClientHandler` per connection;
  - the scheduler that triggers the report.
  Races between an `add` and a `resetAndGetAll` are not covered.
- Sockets and I/O are replaced by values. A connection is the sequence of
  lines read from it; an `IOException` or `SocketException` ends that
  sequence early, and the model covers the lines read before it. A failing
  `clientSocket.close()` is only logged, so `Run` sets the closed flag either
  way.
- Logging and the clock are not modelled: the SLF4J calls, `Instant.now()` and
  the report's time window. `Report` returns the listed headlines instead of
  logging them.
- Randomness is replaced by parameters. `ThreadLocalRandom` becomes the number
  passed to `GeneratePriority` and the count `k` and shuffled list passed to
  `GenerateHeadline`.
- Generator.GenerateHeadline: the in-place `Collections.shuffle` of the shared
  static `WORDS` list is not modelled. The model takes the shuffled list as a
  permutation of the words, so the mutation of the shared list, and races
  between two callers, are not captured.
- Reporter.TotalNewsCount: the total is an unbounded integer. Java's
  `IntStream.sum` would wrap past 2^31 - 1 items.
- Sentiment.IsPositive: a headline with more than 2^31 - 1 words cannot be
  split into a Java array, so Java fails there. The model answers "not
  positive".
- Sentiment.MajorityRule: it is stated only up to 21474836 words. Beyond that,
  `count * 100` overflows in Java and the rule fails; see
  `Sentiment.OverflowMisclassifies`.
- JavaLang.ParseInt: only ASCII digits are accepted. `Integer.parseInt` also
  accepts digits of other Unicode scripts.
- A null headline is not modelled: `NewsItem.headline` is a string, not an
  optional one. Java's `NewsItem` constructor accepts `null`
  (common/src/main/java/de/tick/ts/common/dto/NewsItem.java:8-10), which `toString` would write as `"null;5"` and
  `buildHeadlineSignature` would reject with a `NullPointerException`. No
  modelled operation builds such an item: `fromString` always builds a
  trimmed, non-null headline, and the generator joins words.
- JavaLang.SplitWhitespace: `\s` is modelled as its default ASCII class (space,
  tab, newline, vertical tab, form feed, carriage return).
- The mock client's send loop, reconnects and sleeps (`MockNewsClient`), the
  server's accept loop, configuration loading and the application mains are
  outside the modelled core.
